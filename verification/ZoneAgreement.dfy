/** The two routes from a server's answers to a zone agree: capturing directly, and reading the transcript kept meanwhile. */
module ZoneAgreement {
  import opened Common
  import opened ZoneCheck

  // ---- Names ----

  predicate IsLower(s: string) {
    Lower(s) == s
  }

  lemma LowerTwice(s: string)
    ensures Lower(Lower(s)) == Lower(s)
  {
  }

  lemma LowerConcat(a: string, b: string)
    ensures Lower(a + b) == Lower(a) + Lower(b)
  {
  }

  /** A name is read back from its fully qualified form in lower case: as itself exactly when it is lower-case. */
  lemma NameRoundTrip(name: string, zone: string)
    ensures NameInZone(Fqdn(name, zone), zone) == Some(Lower(name))
  {
    var z, low := Canonical(zone), Lower(name);
    LowerTwice(StripDots(zone));
    LowerTwice(name);
    LowerConcat(z, ".");
    if name == "@" {
      assert low == "@";
    } else {
      var suffix := "." + z + ".";
      LowerConcat(low + "." + z, ".");
      LowerConcat(low + ".", z);
      LowerConcat(low, ".");
      var full := Fqdn(name, zone);
      assert full == low + suffix;
      assert Lower(full) == full;
      assert full[|full| - |suffix|..] == suffix && full[..|full| - |suffix|] == low;
    }
  }

  lemma TokenRoundTrip(rtype: string)
    requires rtype in PROBE_TYPES || rtype == APEX_EXTRA
    ensures TypeOf(Token(rtype)) == rtype
  {
  }

  // ---- Blank lines change nothing ----

  lemma BlankChangesNothing(s: Server, lines: seq<Line>, qname: string, qtype: string)
    ensures Scan(s, lines + [Blank], qname, qtype) == Scan(s, lines, qname, qtype)
  {
    assert (lines + [Blank])[..|lines|] == lines;
  }

  lemma {:induction false} StripChangesNothing(s: Server, lines: seq<Line>, qname: string, qtype: string)
    ensures Scan(s, Strip(lines), qname, qtype) == Scan(s, lines, qname, qtype)
  {
    if lines != [] && lines[|lines| - 1].Blank? {
      StripChangesNothing(s, lines[..|lines| - 1], qname, qtype);
    }
  }

  // ---- Reading the recorder's text back ----

  /** No output line is shaped like a query header. */
  predicate NoHeaders(lines: seq<Line>) {
    forall k :: 0 <= k < |lines| ==> !lines[k].QueryHeader?
  }

  /** A block as it is read back: empty lines may have been added at its end. */
  predicate SameBlock(a: Block, b: Block) {
    a.qname == b.qname && a.token == b.token &&
    (b.lines == a.lines || b.lines == a.lines + [Blank] || b.lines == a.lines + [Blank, Blank])
  }

  predicate SameBlocks(a: seq<Block>, b: seq<Block>) {
    |a| == |b| && forall k :: 0 <= k < |a| ==> SameBlock(a[k], b[k])
  }

  lemma {:induction false} LinesJoinLastBlock(before: seq<Line>, blocks: seq<Block>, lines: seq<Line>)
    requires ParseTranscript(before) == Ok(blocks) && blocks != [] && NoHeaders(lines)
    ensures var last := |blocks| - 1;
            ParseTranscript(before + lines) ==
            Ok(blocks[..last] + [blocks[last].(lines := blocks[last].lines + lines)])
    decreases |lines|
  {
    var last := |blocks| - 1;
    if lines == [] {
      assert before + lines == before;
      assert blocks[last].lines + [] == blocks[last].lines;
      assert blocks[..last] + [blocks[last]] == blocks;
    } else {
      var init, line := lines[..|lines| - 1], lines[|lines| - 1];
      LinesJoinLastBlock(before, blocks, init);
      assert (before + lines)[..|before| + |lines| - 1] == before + init;
      assert init + [line] == lines;
      assert blocks[last].lines + init + [line] == blocks[last].lines + lines;
    }
  }

  function Body(b: Block): seq<Line> {
    if b.lines == [] then [Blank] else b.lines
  }

  /** Adding one block's lines adds that block. */
  lemma BlockLinesAddBlock(before: seq<Line>, blocks: seq<Block>, b: Block)
    requires ParseTranscript(before) == Ok(blocks) && NoHeaders(b.lines)
    ensures ParseTranscript(before + BlockLines(b)) == Ok(blocks + [b.(lines := Body(b))])
  {
    var header := QueryHeader(b.qname, b.token);
    var body := Body(b);
    assert (before + [header])[..|before|] == before;
    var begun := blocks + [Block(b.qname, b.token, [])];
    LinesJoinLastBlock(before + [header], begun, body);
    assert before + [header] + body == before + BlockLines(b);
    assert begun[..|blocks|] == blocks && [] + body == body;
  }

  lemma SpacedBlockIsSame(a: Block, b: Block)
    requires b == a.(lines := Body(a))
    ensures SameBlock(a, b) && SameBlock(a, b.(lines := b.lines + [Blank]))
  {
    assert a.lines == [] ==> Body(a) == a.lines + [Blank] && Body(a) + [Blank] == a.lines + [Blank, Blank];
  }

  /** Parsing the recorder's text gives its blocks back, but for empty lines; the last block has none added to what it holds. */
  lemma {:induction false} TextIsReadBack(blocks: seq<Block>) returns (read: seq<Block>)
    requires forall k :: 0 <= k < |blocks| ==> NoHeaders(blocks[k].lines)
    ensures ParseTranscript(TextLines(blocks)) == Ok(read) && SameBlocks(blocks, read)
    ensures blocks != [] ==> read[|blocks| - 1] == blocks[|blocks| - 1].(lines := Body(blocks[|blocks| - 1]))
  {
    hide ParseTranscript, BlockLines, SameBlock, Body, NoHeaders;
    if blocks == [] {
      read := [];
      EmptyTranscript();
    } else {
      var init, b := blocks[..|blocks| - 1], blocks[|blocks| - 1];
      var added := b.(lines := Body(b));
      SpacedBlockIsSame(b, added);
      if |blocks| == 1 {
        EmptyTranscript();
        BlockLinesAddBlock([], [], b);
        assert [] + BlockLines(b) == BlockLines(b);
        read := [added];
        assert [] + read == read;
      } else {
        var before := TextIsReadBack(init);
        var last := |before| - 1;
        OneBlank();
        LinesJoinLastBlock(TextLines(init), before, [Blank]);
        var spaced := before[..last] + [before[last].(lines := before[last].lines + [Blank])];
        BlockLinesAddBlock(TextLines(init) + [Blank], spaced, b);
        read := spaced + [added];
        SpacedBlockIsSame(init[last], before[last]);
      }
    }
  }

  lemma EmptyTranscript()
    ensures ParseTranscript([]) == Ok([])
  {
  }

  lemma OneBlank()
    ensures NoHeaders([Blank])
  {
  }

  // ---- The two routes ----

  predicate PlainKey(key: Key) {
    IsLower(key.0) && (key.1 in PROBE_TYPES || key.1 == APEX_EXTRA)
  }

  /** Keys whose answers are not part of the zone. */
  predicate Ignored(key: Key) {
    key.1 == APEX_EXTRA || ProviderOwned(key)
  }

  function Wanted(keys: seq<Key>): seq<Key> {
    if keys == [] then []
    else
      var last := keys[|keys| - 1];
      Wanted(keys[..|keys| - 1]) + (if Ignored(last) then [] else [last])
  }

  function RcodesOf(s: Server, keys: seq<Key>): map<string, string>
    requires forall k :: 0 <= k < |keys| ==> Ask(s, keys[k]).Ok?
  {
    if keys == [] then map[]
    else
      var last := keys[|keys| - 1];
      var before := RcodesOf(s, keys[..|keys| - 1]);
      if last.1 == PROBE_TYPES[0] then before[last.0 := Ask(s, last).value.rcode] else before
  }

  /** One block read back is the answer that was captured. */
  lemma BlockIsReadAsAnswer(s: Server, key: Key, b: Block, t: Transcript)
    requires PlainKey(key) && Ask(s, key).Ok? && SameBlock(BlockOf(s, key), b)
    ensures var answer := Ask(s, key).value;
            var rrsets := if Ignored(key) then Ok(t.rrsets) else WithAnswer(t.rrsets, key, answer.records);
            var rcodes := if key.1 == PROBE_TYPES[0] then t.rcodes[key.0 := answer.rcode] else t.rcodes;
            ReadBlock(s, t, b) ==
            if rrsets.Err? then Err(rrsets.error) else Ok(Transcript(rrsets.value, t.queried + {key}, rcodes))
  {
    var qname := Fqdn(key.0, s.zone);
    var kept := BlockOf(s, key).lines;
    TokenRoundTrip(key.1);
    NameRoundTrip(key.0, s.zone);
    StripChangesNothing(s, s.output(qname, Token(key.1)), qname, key.1);
    BlankChangesNothing(s, kept, qname, key.1);
    BlankChangesNothing(s, kept + [Blank], qname, key.1);
    assert kept + [Blank] + [Blank] == kept + [Blank, Blank];
    assert (key.0, key.1) == key;
  }

  /** Reading the blocks of a list of queries gives what capturing their wanted keys gives. */
  lemma {:induction false} RoutesAgree(s: Server, keys: seq<Key>, blocks: seq<Block>)
    requires forall k :: 0 <= k < |keys| ==> PlainKey(keys[k]) && Ask(s, keys[k]).Ok?
    requires SameBlocks(BlocksOf(s, keys), blocks)
    ensures var captured := Captured(s, Wanted(keys));
            ZoneFromBlocks(s, blocks) ==
            if captured.Err? then Err(captured.error)
            else Ok(Transcript(captured.value, (set key | key in keys), RcodesOf(s, keys)))
  {
    hide Ask, ReadBlock, BlockOf, WithAnswer, PlainKey, SameBlock;
    if keys == [] {
      assert (set key | key in keys) == {} && blocks == [];
    } else {
      var n := |keys| - 1;
      var init, last := keys[..n], keys[n];
      assert SameBlocks(BlocksOf(s, init), blocks[..n]);
      RoutesAgree(s, init, blocks[..n]);
      assert keys == init + [last];
      assert (set key | key in keys) == (set key | key in init) + {last};
      if Ignored(last) {
        assert Wanted(keys) == Wanted(init);
      } else {
        assert Wanted(keys)[..|Wanted(init)|] == Wanted(init);
      }
      if Captured(s, Wanted(init)).Ok? {
        var before := Transcript(Captured(s, Wanted(init)).value, (set key | key in init), RcodesOf(s, init));
        assert SameBlock(BlocksOf(s, keys)[n], blocks[n]);
        BlockIsReadAsAnswer(s, last, blocks[n], before);
      }
    }
  }

  /** Every query a transcript holds: the probes, then the apex's own NS and SOA. */
  function AllKeys(names: seq<string>): seq<Key> {
    Probes(names) + [("@", "NS"), ("@", APEX_EXTRA)]
  }

  lemma {:induction false} ProbesOfName(name: string, types: seq<string>)
    ensures forall key :: key in ProbesOf(name, types) <==> key.0 == name && key.1 in types && !ProviderOwned(key)
  {
    if types != [] {
      ProbesOfName(name, types[..|types| - 1]);
      assert types == types[..|types| - 1] + [types[|types| - 1]];
      forall key: Key | key.0 == name && key.1 == types[|types| - 1]
        ensures key == (name, types[|types| - 1])
      {
      }
    }
  }

  /** The probes are every name with every type, but for the provider's own records. */
  lemma {:induction false} ProbesAreAll(names: seq<string>)
    ensures forall key :: key in Probes(names) <==> key.0 in names && key.1 in PROBE_TYPES && !ProviderOwned(key)
  {
    if names != [] {
      ProbesAreAll(names[..|names| - 1]);
      ProbesOfName(names[|names| - 1], PROBE_TYPES);
      assert names == names[..|names| - 1] + [names[|names| - 1]];
    }
  }

  lemma {:induction false} NothingIgnored(keys: seq<Key>)
    requires forall key :: key in keys ==> !Ignored(key)
    ensures Wanted(keys) == keys
  {
    if keys != [] {
      NothingIgnored(keys[..|keys| - 1]);
    }
  }

  /** Of the queries a transcript holds, the wanted ones are the probes. */
  lemma WantedAreProbes(names: seq<string>)
    ensures Wanted(AllKeys(names)) == Probes(names)
  {
    ProbesAreAll(names);
    var probes := Probes(names);
    NothingIgnored(probes);
    var all := AllKeys(names);
    var n := |all| - 1;
    assert all[..n] == probes + [("@", "NS")];
    assert all[..n][..n - 1] == probes;
  }

  lemma {:induction false} CapturedWasAsked(s: Server, keys: seq<Key>)
    requires Captured(s, keys).Ok?
    ensures forall key :: key in keys ==> Ask(s, key).Ok?
    ensures forall key :: key in Captured(s, keys).value ==> key in keys
  {
    hide Ask;
    if keys != [] {
      CapturedWasAsked(s, keys[..|keys| - 1]);
      assert keys == keys[..|keys| - 1] + [keys[|keys| - 1]];
    }
  }

  lemma {:induction false} RcodesAreAnswers(s: Server, keys: seq<Key>)
    requires forall k :: 0 <= k < |keys| ==> Ask(s, keys[k]).Ok?
    ensures forall name :: name in RcodesOf(s, keys) <==> (name, PROBE_TYPES[0]) in keys
    ensures forall name :: name in RcodesOf(s, keys) ==>
              Ask(s, (name, PROBE_TYPES[0])).Ok? && RcodesOf(s, keys)[name] == Ask(s, (name, PROBE_TYPES[0])).value.rcode
  {
    hide Ask;
    if keys != [] {
      var init, last := keys[..|keys| - 1], keys[|keys| - 1];
      RcodesAreAnswers(s, init);
      assert keys == init + [last];
      assert last == (last.0, last.1);
    }
  }

  ghost predicate NothingLikeAHeader(s: Server) {
    forall qname, token :: NoHeaders(s.output(qname, token))
  }

  lemma StripKeepsNoHeaders(lines: seq<Line>)
    requires NoHeaders(lines)
    ensures NoHeaders(Strip(lines))
  {
  }

  /**
   Capture agreement: for lower-case names, and answers with no line shaped like a query header, the zone read back
   from the recorder's text has exactly the rrsets the capture returned, every query it sent, and each name's rcode.
   */
  lemma CaptureAgreement(s: Server, names: seq<string>) returns (t: Transcript)
    requires NothingLikeAHeader(s) && forall name :: name in names ==> IsLower(name)
    requires Captured(s, Probes(names)).Ok? && Ask(s, ("@", "NS")).Ok? && Ask(s, ("@", APEX_EXTRA)).Ok?
    ensures ZoneFromTranscript(s, TextLines(BlocksOf(s, AllKeys(names)))) == Ok(t)
    ensures t.rrsets == Captured(s, Probes(names)).value
    ensures t.queried == set key | key in AllKeys(names)
    ensures forall name :: name in names ==>
              name in t.rcodes && Ask(s, (name, PROBE_TYPES[0])).Ok? && t.rcodes[name] == Ask(s, (name, PROBE_TYPES[0])).value.rcode
  {
    hide Ask, TextLines, ParseTranscript, ZoneFromBlocks, Captured, BlockOf, SameBlock;
    var keys := AllKeys(names);
    AllKeysArePlain(s, names);
    var blocks := BlocksOf(s, keys);
    BlocksHaveNoHeaders(s, keys);
    var read := TextIsReadBack(blocks);
    WantedAreProbes(names);
    RoutesAgree(s, keys, read);
    t := Transcript(Captured(s, Probes(names)).value, (set key | key in keys), RcodesOf(s, keys));
    RcodesAreAnswers(s, keys);
    forall name | name in names
      ensures (name, PROBE_TYPES[0]) in keys
    {
      ProbesAreAll(names);
      assert (name, PROBE_TYPES[0]) in Probes(names);
    }
  }

  lemma AllKeysArePlain(s: Server, names: seq<string>)
    requires forall name :: name in names ==> IsLower(name)
    requires Captured(s, Probes(names)).Ok? && Ask(s, ("@", "NS")).Ok? && Ask(s, ("@", APEX_EXTRA)).Ok?
    ensures forall k :: 0 <= k < |AllKeys(names)| ==> PlainKey(AllKeys(names)[k]) && Ask(s, AllKeys(names)[k]).Ok?
  {
    hide Ask, Captured, Probes;
    ProbesAreAll(names);
    CapturedWasAsked(s, Probes(names));
    assert Lower("@") == "@";
    var keys := AllKeys(names);
    forall k | 0 <= k < |keys|
      ensures PlainKey(keys[k]) && Ask(s, keys[k]).Ok?
    {
      if k < |Probes(names)| {
        assert keys[k] == Probes(names)[k] && keys[k] in Probes(names);
      }
    }
  }

  lemma BlocksHaveNoHeaders(s: Server, keys: seq<Key>)
    requires NothingLikeAHeader(s)
    ensures forall k :: 0 <= k < |keys| ==> NoHeaders(BlocksOf(s, keys)[k].lines)
  {
    forall k | 0 <= k < |keys|
      ensures NoHeaders(BlocksOf(s, keys)[k].lines)
    {
      var qname := Fqdn(keys[k].0, s.zone);
      StripKeepsNoHeaders(s.output(qname, Token(keys[k].1)));
    }
  }

  /** A zone declared from a capture passes the check of that capture's transcript exactly when each rcode is the one expected. */
  lemma CapturedZonePassesItsCheck(s: Server, names: seq<string>) returns (t: Transcript)
    requires NothingLikeAHeader(s) && forall name :: name in names ==> IsLower(name)
    requires Captured(s, Probes(names)).Ok? && Ask(s, ("@", "NS")).Ok? && Ask(s, ("@", APEX_EXTRA)).Ok?
    ensures ZoneFromTranscript(s, TextLines(BlocksOf(s, AllKeys(names)))) == Ok(t)
    ensures var declared := Zone(Captured(s, Probes(names)).value, names);
            CheckCapture(t, declared) == {} <==>
            forall name :: name in names ==>
              Ask(s, (name, PROBE_TYPES[0])).Ok? && Ask(s, (name, PROBE_TYPES[0])).value.rcode == ExpectedRcode(declared, name)
  {
    hide Ask, TextLines, ParseTranscript, ZoneFromTranscript, Captured, Probes, ExpectedRcode;
    t := CaptureAgreement(s, names);
    var declared := Zone(Captured(s, Probes(names)).value, names);
    ProbesAreAll(names);
    CapturedWasAsked(s, Probes(names));
    assert NamesOf(declared) == set name | name in names;
    forall key | key in Required(declared)
      ensures key in t.queried
    {
      if !ProviderOwned(key) && key != ("@", APEX_EXTRA) {
        assert key in Probes(names);
      }
      assert key in AllKeys(names);
    }
    var problems := CheckCapture(t, declared);
    if problems != {} {
      var problem :| problem in problems;
      assert problem.WrongRcode? && problem.name in names;
    }
    forall name | name in names && t.rcodes[name] != ExpectedRcode(declared, name)
      ensures problems != {}
    {
      assert WrongRcode(name) in problems;
    }
  }
}
