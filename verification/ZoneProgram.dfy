/** The loops of zonecheck.py: capturing through a recorder, and reading a transcript back. */
module ZoneProgram {
  import opened Common
  import opened ZoneCheck

  /** Wraps the runner and keeps every answer verbatim, in query order. */
  class Recorder {
    var blocks: seq<Block>

    constructor ()
      ensures blocks == []
    {
      blocks := [];
    }

    method Run(s: Server, qname: string, token: string) returns (lines: seq<Line>)
      modifies this
      ensures lines == s.output(qname, token)
      ensures blocks == old(blocks) + [Block(qname, token, Strip(lines))]
    {
      lines := s.output(qname, token);
      blocks := blocks + [Block(qname, token, Strip(lines))];
    }

    /** The transcript's lines, block after block with an empty line between. */
    method Text() returns (lines: seq<Line>)
      ensures lines == TextLines(blocks)
    {
      lines := [];
      for k := 0 to |blocks|
        invariant lines == TextLines(blocks[..k])
      {
        assert blocks[..k + 1][..k] == blocks[..k];
        lines := lines + (if k == 0 then [] else [Blank]) + BlockLines(blocks[k]);
      }
      assert blocks[..|blocks|] == blocks;
    }
  }

  method Query(s: Server, recorder: Recorder, key: Key) returns (answer: Result<Answer, ZoneError>)
    modifies recorder
    ensures answer == Ask(s, key)
    ensures recorder.blocks == old(recorder.blocks) + [BlockOf(s, key)]
  {
    var qname := Fqdn(key.0, s.zone);
    var lines := recorder.Run(s, qname, Token(key.1));
    var dig := Scan(s, lines, qname, key.1);
    if dig.rcode.None? {
      return Err(NoAnswer);
    }
    if dig.rcode.value != "NOERROR" && dig.rcode.value != "NXDOMAIN" {
      return Err(BadRcode);
    }
    if "aa" !in dig.flags {
      return Err(NotAuthoritative);
    }
    answer := Ok(Answer(dig.rcode.value, dig.records));
  }

  /** Capturing stopped with this result at some probe of the name. */
  ghost predicate StoppedWithin(s: Server, name: string, done: seq<Key>, result: Result<RrSets, ZoneError>) {
    var probes := ProbesOf(name, PROBE_TYPES);
    exists k :: 0 < k <= |probes| && Captured(s, done + probes[..k]) == result
  }

  lemma AskingOneMore(s: Server, done: seq<Key>, asked: seq<Key>, key: Key, rrsets: RrSets)
    requires Captured(s, done + asked) == Ok(rrsets)
    ensures Captured(s, done + (asked + [key])) ==
            if Ask(s, key).Err? then Err(Ask(s, key).error) else WithAnswer(rrsets, key, Ask(s, key).value.records)
    ensures BlocksOf(s, done + (asked + [key])) == BlocksOf(s, done + asked) + [BlockOf(s, key)]
  {
    hide Ask, BlockOf, WithAnswer;
    var longer := done + (asked + [key]);
    assert longer[..|longer| - 1] == done + asked;
    assert longer == done + asked + [key];
  }

  /** The probes of one name added to what was captured before. */
  method CaptureName(s: Server, recorder: Recorder, name: string, ghost done: seq<Key>, before: RrSets)
    returns (result: Result<RrSets, ZoneError>)
    requires Captured(s, done) == Ok(before) && recorder.blocks == BlocksOf(s, done)
    modifies recorder
    ensures result.Ok? ==> recorder.blocks == BlocksOf(s, done + ProbesOf(name, PROBE_TYPES))
    ensures result.Ok? ==> Captured(s, done + ProbesOf(name, PROBE_TYPES)) == result
    ensures result.Err? ==> StoppedWithin(s, name, done, result)
  {
    hide Ask, BlockOf, WithAnswer, Captured, BlocksOf;
    var rrsets := before;
    ghost var asked: seq<Key> := [];
    ghost var probes := ProbesOf(name, PROBE_TYPES);
    assert done + [] == done;
    for n := 0 to |PROBE_TYPES|
      invariant asked == ProbesOf(name, PROBE_TYPES[..n]) && asked <= probes
      invariant Captured(s, done + asked) == Ok(rrsets) && recorder.blocks == BlocksOf(s, done + asked)
    {
      var key := (name, PROBE_TYPES[n]);
      assert PROBE_TYPES[..n + 1][..n] == PROBE_TYPES[..n];
      if !ProviderOwned(key) {
        ProbesPrefix(name, n + 1);
        AskingOneMore(s, done, asked, key, rrsets);
        asked := asked + [key];
        assert asked == probes[..|asked|];
        var answer := Query(s, recorder, key);
        if answer.Err? {
          return Err(answer.error);
        }
        var next := WithAnswer(rrsets, key, answer.value.records);
        if next.Err? {
          return next;
        }
        rrsets := next.value;
      }
    }
    assert PROBE_TYPES[..|PROBE_TYPES|] == PROBE_TYPES;
    result := Ok(rrsets);
  }

  lemma {:induction false} ProbesPrefix(name: string, n: nat)
    requires n <= |PROBE_TYPES|
    ensures ProbesOf(name, PROBE_TYPES[..n]) <= ProbesOf(name, PROBE_TYPES)
    decreases |PROBE_TYPES| - n
  {
    if n < |PROBE_TYPES| {
      ProbesPrefix(name, n + 1);
      assert PROBE_TYPES[..n + 1][..n] == PROBE_TYPES[..n];
    } else {
      assert PROBE_TYPES[..n] == PROBE_TYPES;
    }
  }

  lemma {:induction false} CapturedStaysErr(s: Server, keys: seq<Key>, more: seq<Key>)
    requires Captured(s, keys).Err?
    ensures Captured(s, keys + more) == Captured(s, keys)
    decreases |more|
  {
    hide Ask, WithAnswer;
    if more == [] {
      assert keys + more == keys;
    } else {
      var n := |more| - 1;
      assert (keys + more)[..|keys| + n] == keys + more[..n];
      CapturedStaysErr(s, keys, more[..n]);
    }
  }

  /** `capture`: asks every probe of every name in turn, and gives what asking them all gives. */
  method Capture(s: Server, recorder: Recorder, names: seq<string>) returns (result: Result<RrSets, ZoneError>)
    requires recorder.blocks == []
    modifies recorder
    ensures result == Captured(s, Probes(names))
    ensures result.Ok? ==> recorder.blocks == BlocksOf(s, Probes(names))
  {
    hide Ask, BlockOf, WithAnswer;
    var rrsets: RrSets := map[];
    for n := 0 to |names|
      invariant Captured(s, Probes(names[..n])) == Ok(rrsets) && recorder.blocks == BlocksOf(s, Probes(names[..n]))
    {
      assert names[..n + 1][..n] == names[..n];
      var next := CaptureName(s, recorder, names[n], Probes(names[..n]), rrsets);
      if next.Err? {
        ghost var k :| 0 < k <= |ProbesOf(names[n], PROBE_TYPES)| &&
          Captured(s, Probes(names[..n]) + ProbesOf(names[n], PROBE_TYPES)[..k]) == next;
        ghost var asked := Probes(names[..n]) + ProbesOf(names[n], PROBE_TYPES)[..k];
        ghost var rest := ProbesPast(names, n, k);
        assert Probes(names) == asked + rest;
        CapturedStaysErr(s, asked, rest);
        return next;
      }
      rrsets := next.value;
    }
    assert names[..|names|] == names;
    result := Ok(rrsets);
  }

  /** The probes after the first `k` of the `n`th name. */
  lemma {:induction false} ProbesPast(names: seq<string>, n: nat, k: nat) returns (rest: seq<Key>)
    requires n < |names| && k <= |ProbesOf(names[n], PROBE_TYPES)|
    ensures Probes(names) == Probes(names[..n]) + ProbesOf(names[n], PROBE_TYPES)[..k] + rest
  {
    var last := |names| - 1;
    if n == last {
      rest := ProbesOf(names[n], PROBE_TYPES)[k..];
      assert ProbesOf(names[n], PROBE_TYPES) == ProbesOf(names[n], PROBE_TYPES)[..k] + rest;
    } else {
      var shorter := ProbesPast(names[..last], n, k);
      assert names[..last][..n] == names[..n];
      rest := shorter + ProbesOf(names[last], PROBE_TYPES);
    }
  }

  method ParseLines(lines: seq<Line>) returns (result: Result<seq<Block>, ZoneError>)
    ensures result == ParseTranscript(lines)
  {
    var blocks: seq<Block> := [];
    for n := 0 to |lines|
      invariant ParseTranscript(lines[..n]) == Ok(blocks)
    {
      assert lines[..n + 1][..n] == lines[..n];
      var line := lines[n];
      if line.QueryHeader? {
        blocks := blocks + [Block(line.qname, line.token, [])];
      } else if blocks != [] {
        var last := |blocks| - 1;
        blocks := blocks[..last] + [AddLine(blocks[last], line)];
      } else if !line.Blank? {
        TranscriptStaysErr(lines[..n + 1], lines[n + 1..]);
        assert lines[..n + 1] + lines[n + 1..] == lines;
        return Err(TextBeforeHeader);
      }
    }
    assert lines[..|lines|] == lines;
    result := Ok(blocks);
  }

  lemma {:induction false} TranscriptStaysErr(lines: seq<Line>, more: seq<Line>)
    requires ParseTranscript(lines).Err?
    ensures ParseTranscript(lines + more) == ParseTranscript(lines)
    decreases |more|
  {
    if more == [] {
      assert lines + more == lines;
    } else {
      var n := |more| - 1;
      assert (lines + more)[..|lines| + n] == lines + more[..n];
      TranscriptStaysErr(lines, more[..n]);
    }
  }

  /** `zone_from_transcript`: what a transcript's text shows. */
  method ReadTranscript(s: Server, lines: seq<Line>) returns (result: Result<Transcript, ZoneError>)
    ensures result == ZoneFromTranscript(s, lines)
  {
    hide ReadBlock, ParseTranscript;
    var parsed := ParseLines(lines);
    if parsed.Err? {
      return Err(parsed.error);
    }
    var blocks := parsed.value;
    var t := Transcript(map[], {}, map[]);
    for n := 0 to |blocks|
      invariant ZoneFromBlocks(s, blocks[..n]) == Ok(t)
    {
      assert blocks[..n + 1][..n] == blocks[..n];
      var next := ReadBlock(s, t, blocks[n]);
      if next.Err? {
        ZoneStaysErr(s, blocks[..n + 1], blocks[n + 1..]);
        assert blocks[..n + 1] + blocks[n + 1..] == blocks;
        return next;
      }
      t := next.value;
    }
    assert blocks[..|blocks|] == blocks;
    result := Ok(t);
  }

  lemma {:induction false} ZoneStaysErr(s: Server, blocks: seq<Block>, more: seq<Block>)
    requires ZoneFromBlocks(s, blocks).Err?
    ensures ZoneFromBlocks(s, blocks + more) == ZoneFromBlocks(s, blocks)
    decreases |more|
  {
    hide ReadBlock;
    if more == [] {
      assert blocks + more == blocks;
    } else {
      var n := |more| - 1;
      assert (blocks + more)[..|blocks| + n] == blocks + more[..n];
      ZoneStaysErr(s, blocks, more[..n]);
    }
  }
}
