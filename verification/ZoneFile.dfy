/** The zone file: the canonical spelling of record values, and what writing a zone and loading it back gives. */
module ZoneFile {
  import opened Common
  import opened ZoneCheck

  // ---- White space and words ----

  /** What Python's `strip` and `split` take for white space. */
  predicate IsBlank(c: char) {
    var n := c as int;
    9 <= n <= 13 || 28 <= n <= 32 || n == 0x85 || n == 0xa0 || n == 0x1680 || 0x2000 <= n <= 0x200a ||
    n == 0x2028 || n == 0x2029 || n == 0x202f || n == 0x205f || n == 0x3000
  }

  function StripLeft(s: string): (r: string)
    ensures r != "" ==> !IsBlank(r[0])
    ensures s != "" && !IsBlank(s[0]) ==> r == s
    ensures s != "" && r != "" ==> r[|r| - 1] == s[|s| - 1]
  {
    if s != "" && IsBlank(s[0]) then StripLeft(s[1..]) else s
  }

  function StripRight(s: string): (r: string)
    ensures r != "" ==> |s| >= |r| && !IsBlank(r[|r| - 1]) && r[0] == s[0]
    ensures s != "" && !IsBlank(s[|s| - 1]) ==> r == s
  {
    if s != "" && IsBlank(s[|s| - 1]) then StripRight(s[..|s| - 1]) else s
  }

  function StripBlanks(s: string): (r: string)
    ensures r != "" ==> !IsBlank(r[0]) && !IsBlank(r[|r| - 1])
    ensures s == "" || (!IsBlank(s[0]) && !IsBlank(s[|s| - 1])) ==> r == s
  {
    StripRight(StripLeft(s))
  }

  predicate IsWord(w: string) {
    w != "" && forall i :: 0 <= i < |w| ==> !IsBlank(w[i])
  }

  function WordEnd(s: string): (n: nat)
    ensures n <= |s| && forall i :: 0 <= i < n ==> !IsBlank(s[i])
    ensures n < |s| ==> IsBlank(s[n])
  {
    if s == "" || IsBlank(s[0]) then 0 else 1 + WordEnd(s[1..])
  }

  /** Python's `split`: the words of a text. */
  function Words(s: string): (ws: seq<string>)
    ensures forall k :: 0 <= k < |ws| ==> IsWord(ws[k])
    decreases |s|
  {
    if s == "" then []
    else if IsBlank(s[0]) then Words(s[1..])
    else [s[..WordEnd(s)]] + Words(s[WordEnd(s)..])
  }

  function JoinWords(ws: seq<string>): string {
    if ws == [] then "" else if |ws| == 1 then ws[0] else ws[0] + " " + JoinWords(ws[1..])
  }

  lemma {:induction false} WordEndOf(w: string, rest: string)
    requires forall i :: 0 <= i < |w| ==> !IsBlank(w[i])
    requires rest == "" || IsBlank(rest[0])
    ensures WordEnd(w + rest) == |w|
  {
    if w == "" {
      assert w + rest == rest;
    } else {
      assert (w + rest)[1..] == w[1..] + rest;
      WordEndOf(w[1..], rest);
    }
  }

  predicate AllWords(ws: seq<string>) {
    forall k :: 0 <= k < |ws| ==> IsWord(ws[k])
  }

  lemma WordsOfFirst(w: string, rest: string)
    requires IsWord(w) && (rest == "" || IsBlank(rest[0]))
    ensures Words(w + rest) == [w] + Words(rest)
  {
    WordEndOf(w, rest);
    assert (w + rest)[..|w|] == w && (w + rest)[|w|..] == rest && (w + rest)[0] == w[0];
  }

  lemma WordsAfterBlank(s: string)
    ensures Words(" " + s) == Words(s)
  {
    assert (" " + s)[1..] == s;
  }

  /** Joined words split into the words they were joined from. */
  lemma {:induction false} WordsOfJoined(ws: seq<string>)
    requires AllWords(ws)
    ensures Words(JoinWords(ws)) == ws
  {
    hide Words;
    if |ws| == 1 {
      WordsOfFirst(ws[0], "");
      assert ws[0] + "" == ws[0] && [ws[0]] + [] == ws;
      NoWords();
    } else if |ws| > 1 {
      var rest := JoinWords(ws[1..]);
      WordsOfFirst(ws[0], " " + rest);
      assert ws[0] + " " + rest == ws[0] + (" " + rest);
      WordsAfterBlank(rest);
      WordsOfJoined(ws[1..]);
      assert ws == [ws[0]] + ws[1..];
    } else {
      NoWords();
    }
  }

  lemma NoWords()
    ensures Words("") == []
  {
  }

  /** Joined words start and end with a word, so stripping them changes nothing. */
  lemma {:induction false} JoinedIsStripped(ws: seq<string>)
    requires AllWords(ws)
    ensures StripBlanks(JoinWords(ws)) == JoinWords(ws)
    ensures ws != [] ==> JoinWords(ws) != "" && !IsBlank(JoinWords(ws)[0]) && !IsBlank(JoinWords(ws)[|JoinWords(ws)| - 1])
  {
    hide StripBlanks, IsBlank;
    if |ws| > 1 {
      JoinedIsStripped(ws[1..]);
      var rest := JoinWords(ws[1..]);
      var s := ws[0] + " " + rest;
      assert s[0] == ws[0][0] && s[|s| - 1] == rest[|rest| - 1];
    }
  }

  // ---- Canonical values ----

  /** What the address library makes of a text of type A or AAAA: its own spelling, or nothing for a text that is no address. */
  type Addresses = (string, string) -> Option<string>

  /** The library's spelling of an address is one word and is its own spelling. */
  ghost predicate IsCanonical(addresses: Addresses) {
    forall rtype, s :: addresses(rtype, s).Some? ==>
      IsWord(addresses(rtype, s).value) && addresses(rtype, addresses(rtype, s).value) == addresses(rtype, s)
  }

  /** Which word of a value is a domain name, by type. */
  function NameField(rtype: string): Option<nat> {
    if rtype in ["CNAME", "NS", "PTR"] then Some(0) else if rtype == "MX" then Some(1) else if rtype == "SRV" then Some(3) else None
  }

  function Dotted(name: string): string {
    var lower := Lower(name);
    if lower != "" && lower[|lower| - 1] == '.' then lower else lower + "."
  }

  /** The words of a value with its domain name and a CAA tag in lower case. */
  function Spelled(rtype: string, parts: seq<string>): (r: seq<string>)
    ensures |r| == |parts|
  {
    var field := NameField(rtype);
    var named := if field.Some? && field.value < |parts| then parts[field.value := Dotted(parts[field.value])] else parts;
    if rtype == "CAA" && |named| >= 2 then named[1 := Lower(named[1])] else named
  }

  /** `normalise_rdata`, nothing where the address library raises. */
  function Normalise(rtype: string, rdata: string, addresses: Addresses): Option<string> {
    var s := StripBlanks(rdata);
    if rtype == "TXT" then Some(s)
    else if rtype == "AAAA" || rtype == "A" then addresses(rtype, s)
    else Some(JoinWords(Spelled(rtype, Words(s))))
  }

  lemma LowerOfWord(w: string)
    requires IsWord(w)
    ensures IsWord(Lower(w)) && Lower(Lower(w)) == Lower(w)
    ensures IsWord(Dotted(w)) && Dotted(Dotted(w)) == Dotted(w)
  {
    var lower := Lower(w);
    assert forall i :: 0 <= i < |lower| ==> lower[i] == LowerChar(w[i]) && LowerChar(lower[i]) == lower[i];
    assert Lower(lower) == lower;
    assert Lower(lower + ".") == lower + ".";
  }

  lemma SpelledTwice(rtype: string, parts: seq<string>)
    requires AllWords(parts)
    ensures AllWords(Spelled(rtype, parts)) && Spelled(rtype, Spelled(rtype, parts)) == Spelled(rtype, parts)
  {
    hide Lower, Dotted;
    forall k | 0 <= k < |parts|
      ensures IsWord(Lower(parts[k])) && Lower(Lower(parts[k])) == Lower(parts[k])
      ensures IsWord(Dotted(parts[k])) && Dotted(Dotted(parts[k])) == Dotted(parts[k])
    {
      LowerOfWord(parts[k]);
    }
  }

  /** A canonical value is its own canonical value, for every type. */
  lemma NormaliseTwice(rtype: string, rdata: string, addresses: Addresses)
    requires IsCanonical(addresses) && Normalise(rtype, rdata, addresses).Some?
    ensures Normalise(rtype, Normalise(rtype, rdata, addresses).value, addresses) == Normalise(rtype, rdata, addresses)
  {
    hide Spelled, Words, JoinWords;
    var s := StripBlanks(rdata);
    if rtype != "TXT" && rtype != "AAAA" && rtype != "A" {
      SpelledTwice(rtype, Words(s));
      WordsOfJoined(Spelled(rtype, Words(s)));
      JoinedIsStripped(Spelled(rtype, Words(s)));
    }
  }

  // ---- What the canonical spelling is ----

  /** Which words of a value are folded: the domain name of five types, which also ends in a dot, and the tag of a CAA. */
  predicate IsDomainName(rtype: string, k: nat) {
    || ((rtype == "CNAME" || rtype == "NS" || rtype == "PTR") && k == 0)
    || (rtype == "MX" && k == 1)
    || (rtype == "SRV" && k == 3)
  }

  /** How a word of a value is spelled canonically. */
  predicate IsSpelling(rtype: string, k: nat, word: string, spelled: string) {
    if IsDomainName(rtype, k) then
      spelled == Lower(if word != "" && word[|word| - 1] == '.' then word else word + ".")
    else if rtype == "CAA" && k == 1 then spelled == Lower(word)
    else spelled == word
  }

  /** The canonical words are the value's own, folded where the type has a domain name or a tag and nowhere else. */
  lemma SpellingIsExact(rtype: string, parts: seq<string>)
    ensures forall k :: 0 <= k < |parts| ==> IsSpelling(rtype, k, parts[k], Spelled(rtype, parts)[k])
  {
    forall k | 0 <= k < |parts|
      ensures IsSpelling(rtype, k, parts[k], Spelled(rtype, parts)[k])
    {
      DottedIsLower(parts[k]);
    }
  }

  lemma DottedIsLower(word: string)
    ensures Dotted(word) == Lower(if word != "" && word[|word| - 1] == '.' then word else word + ".")
  {
    assert word != "" ==> (Lower(word)[|word| - 1] == '.' <==> word[|word| - 1] == '.');
    assert Lower(word + ".") == Lower(word) + ".";
  }

  /** The text without the blanks around it. */
  ghost predicate IsMiddle(s: string, middle: string) {
    && (middle == "" || (!IsBlank(middle[0]) && !IsBlank(middle[|middle| - 1])))
    && exists i: nat :: StandsAlone(s, middle, i)
  }

  /** The piece stands at place `i` with nothing but blanks around it. */
  predicate StandsAlone(s: string, piece: string, i: nat) {
    && i + |piece| <= |s| && s[i..i + |piece|] == piece
    && (forall j :: 0 <= j < i ==> IsBlank(s[j]))
    && forall j :: i + |piece| <= j < |s| ==> IsBlank(s[j])
  }

  lemma {:induction false} LeftIsStripped(s: string)
    ensures |StripLeft(s)| <= |s| && s[|s| - |StripLeft(s)|..] == StripLeft(s)
    ensures forall j :: 0 <= j < |s| - |StripLeft(s)| ==> IsBlank(s[j])
  {
    if s != "" && IsBlank(s[0]) {
      LeftIsStripped(s[1..]);
    }
  }

  lemma {:induction false} RightIsStripped(s: string)
    ensures |StripRight(s)| <= |s| && s[..|StripRight(s)|] == StripRight(s)
    ensures forall j :: |StripRight(s)| <= j < |s| ==> IsBlank(s[j])
  {
    if s != "" && IsBlank(s[|s| - 1]) {
      RightIsStripped(s[..|s| - 1]);
    }
  }

  lemma StrippedIsMiddle(s: string)
    ensures IsMiddle(s, StripBlanks(s))
  {
    var left := StripLeft(s);
    LeftIsStripped(s);
    RightIsStripped(left);
    assert StripBlanks(s) == StripRight(left);
    MiddleOfTail(s, left, StripBlanks(s));
    hide IsBlank, StripBlanks;
  }

  /** The start of the text's tail stands alone in the text when what is around it is blank. */
  lemma MiddleOfTail(s: string, tail: string, piece: string)
    requires |tail| <= |s| && s[|s| - |tail|..] == tail && forall j :: 0 <= j < |s| - |tail| ==> IsBlank(s[j])
    requires |piece| <= |tail| && tail[..|piece|] == piece && forall j :: |piece| <= j < |tail| ==> IsBlank(tail[j])
    ensures StandsAlone(s, piece, |s| - |tail|)
  {
    hide IsBlank;
    var i := |s| - |tail|;
    forall j | i + |piece| <= j < |s|
      ensures IsBlank(s[j])
    {
      assert s[j] == tail[j - i];
    }
  }

  /** Words apart from each other by blanks of any kind and number are the words of the text. */
  lemma {:induction false} WordsAround(a: string, c: char, b: string)
    requires IsBlank(c)
    ensures Words(a + [c] + b) == Words(a) + Words(b)
    decreases |a|
  {
    hide IsBlank;
    var s := a + [c] + b;
    if a == "" {
      assert s[1..] == b;
      assert Words(s) == Words(b);
    } else if IsBlank(a[0]) {
      assert s[1..] == a[1..] + [c] + b;
      WordsAround(a[1..], c, b);
    } else {
      var n := WordEnd(a);
      var word, rest := a[..n], a[n..];
      assert a == word + rest && IsWord(word);
      if rest == "" {
        assert s == word + ([c] + b);
        WordsOfFirst(word, [c] + b);
        assert ([c] + b)[1..] == b;
        WordsOfFirst(word, "");
        NoWords();
        assert word + "" == a;
      } else {
        assert s == word + (rest + [c] + b);
        WordsOfFirst(word, rest + [c] + b);
        WordsOfFirst(word, rest);
        WordsAround(rest, c, b);
      }
    }
  }

  /** The canonical value of each type: TXT only stripped, addresses as the library spells them, any other as folded words one blank apart. */
  lemma NormaliseIsExact(rtype: string, rdata: string, addresses: Addresses)
    ensures rtype == "TXT" ==> Normalise(rtype, rdata, addresses).Some? && IsMiddle(rdata, Normalise(rtype, rdata, addresses).value)
    ensures rtype == "A" || rtype == "AAAA" ==>
              exists s :: IsMiddle(rdata, s) && Normalise(rtype, rdata, addresses) == addresses(rtype, s)
    ensures rtype !in {"TXT", "A", "AAAA"} ==>
              exists ws :: |ws| == |Words(StripBlanks(rdata))| && Normalise(rtype, rdata, addresses) == Some(JoinWords(ws)) &&
                           forall k :: 0 <= k < |ws| ==> IsSpelling(rtype, k, Words(StripBlanks(rdata))[k], ws[k])
  {
    StrippedIsMiddle(rdata);
    SpellingIsExact(rtype, Words(StripBlanks(rdata)));
    hide IsSpelling, Spelled, Words, IsMiddle, StripBlanks;
  }

  // ---- Loading and writing ----

  /** One entry of the file's list. */
  datatype Entry = Entry(key: Key, ttl: nat, values: seq<string>)

  datatype LoadError = Twice(key: Key) | Owned(key: Key) | NoAddress(key: Key)

  /** Every value of the entry is one the address library accepts. */
  predicate Readable(e: Entry, addresses: Addresses) {
    forall k :: 0 <= k < |e.values| ==> Normalise(e.key.1, e.values[k], addresses).Some?
  }

  /** The canonical values of the entry. */
  function Canon(e: Entry, addresses: Addresses): set<string>
    requires Readable(e, addresses)
  {
    set k | 0 <= k < |e.values| :: Normalise(e.key.1, e.values[k], addresses).value
  }

  /** What loading owes: refused entries aside, one rrset for each entry, with its canonical values. */
  ghost predicate Loads(entries: seq<Entry>, addresses: Addresses, rrsets: RrSets) {
    && (forall k :: 0 <= k < |entries| ==> !ProviderOwned(entries[k].key) && Readable(entries[k], addresses))
    && (forall j, k :: 0 <= j < k < |entries| ==> entries[j].key != entries[k].key)
    && (forall key :: key in rrsets <==> exists k :: 0 <= k < |entries| && entries[k].key == key)
    && (forall k :: 0 <= k < |entries| ==> rrsets[entries[k].key] == (entries[k].ttl, Canon(entries[k], addresses)))
  }

  /** What each refusal of a file says of it. */
  predicate IsLoadError(entries: seq<Entry>, addresses: Addresses, error: LoadError) {
    match error
    case Twice(key) => exists j, k :: 0 <= j < k < |entries| && entries[j].key == key && entries[k].key == key
    case Owned(key) => ProviderOwned(key) && exists k :: 0 <= k < |entries| && entries[k].key == key
    case NoAddress(key) => exists k :: 0 <= k < |entries| && entries[k].key == key && !Readable(entries[k], addresses)
  }

  /** `load_zone`, over the decoded list: the rrsets of the file, refused for a key that is repeated or the provider's. */
  method LoadZone(entries: seq<Entry>, addresses: Addresses) returns (r: Result<RrSets, LoadError>)
    ensures r.Ok? ==> Loads(entries, addresses, r.value)
    ensures r.Err? ==> forall rrsets :: !Loads(entries, addresses, rrsets)
    ensures r.Err? ==> IsLoadError(entries, addresses, r.error)
  {
    hide ProviderOwned, Readable, Canon;
    var rrsets: RrSets := map[];
    for n := 0 to |entries|
      invariant Loads(entries[..n], addresses, rrsets)
    {
      var e := entries[n];
      assert entries[..n + 1] == entries[..n] + [e];
      if e.key in rrsets {
        var k :| 0 <= k < n && entries[..n][k].key == e.key;
        assert entries[k].key == entries[n].key;
        return Err(Twice(e.key));
      }
      if ProviderOwned(e.key) {
        return Err(Owned(e.key));
      }
      if !Readable(e, addresses) {
        return Err(NoAddress(e.key));
      }
      rrsets := rrsets[e.key := (e.ttl, Canon(e, addresses))];
    }
    assert entries[..|entries|] == entries;
    return Ok(rrsets);
  }

  /** `zone_to_json`, in any order of its keys and values: each rrset once, with each of its values. */
  ghost predicate Writes(rrsets: RrSets, entries: seq<Entry>) {
    && (forall j, k :: 0 <= j < k < |entries| ==> entries[j].key != entries[k].key)
    && (forall key :: key in rrsets <==> exists k :: 0 <= k < |entries| && entries[k].key == key)
    && (forall k :: 0 <= k < |entries| ==>
          entries[k].ttl == rrsets[entries[k].key].0 && forall v :: v in entries[k].values <==> v in rrsets[entries[k].key].1)
  }

  /** Every value of the zone is spelled canonically, and no key is the provider's. */
  ghost predicate IsNormal(rrsets: RrSets, addresses: Addresses) {
    forall key :: key in rrsets ==>
      !ProviderOwned(key) && forall v :: v in rrsets[key].1 ==> Normalise(key.1, v, addresses) == Some(v)
  }

  /** What is loaded is normal. */
  lemma LoadedIsNormal(entries: seq<Entry>, addresses: Addresses, rrsets: RrSets)
    requires IsCanonical(addresses) && Loads(entries, addresses, rrsets)
    ensures IsNormal(rrsets, addresses)
    ensures ("@", "NS") !in rrsets && ("@", "SOA") !in rrsets
  {
    assert ProviderOwned(("@", "NS")) && ProviderOwned(("@", "SOA"));
    hide Normalise, ProviderOwned;
    forall key, v | key in rrsets && v in rrsets[key].1
      ensures Normalise(key.1, v, addresses) == Some(v)
    {
      var k :| 0 <= k < |entries| && entries[k].key == key;
      var i :| 0 <= i < |entries[k].values| && v == Normalise(key.1, entries[k].values[i], addresses).value;
      NormaliseTwice(key.1, entries[k].values[i], addresses);
    }
  }

  /**
   The zone file round trip, exactly: writing a zone and loading what was written gives the zone back if and only if
   its values are spelled canonically and none of its keys is the provider's.
   */
  lemma WrittenZoneLoadsBack(rrsets: RrSets, entries: seq<Entry>, addresses: Addresses)
    requires IsCanonical(addresses) && Writes(rrsets, entries)
    ensures Loads(entries, addresses, rrsets) <==> IsNormal(rrsets, addresses)
  {
    hide Normalise, ProviderOwned;
    if Loads(entries, addresses, rrsets) {
      LoadedIsNormal(entries, addresses, rrsets);
    }
    if IsNormal(rrsets, addresses) {
      forall k | 0 <= k < |entries|
        ensures Readable(entries[k], addresses) && rrsets[entries[k].key] == (entries[k].ttl, Canon(entries[k], addresses))
      {
        NormalEntryReadsBack(rrsets, entries[k], addresses);
      }
    }
  }

  lemma NormalEntryReadsBack(rrsets: RrSets, e: Entry, addresses: Addresses)
    requires e.key in rrsets && IsNormal(rrsets, addresses)
    requires e.ttl == rrsets[e.key].0 && forall v :: v in e.values <==> v in rrsets[e.key].1
    ensures Readable(e, addresses) && rrsets[e.key] == (e.ttl, Canon(e, addresses))
  {
    hide Normalise, ProviderOwned;
    assert forall k :: 0 <= k < |e.values| ==> e.values[k] in e.values;
    forall v
      ensures v in rrsets[e.key].1 <==> v in Canon(e, addresses)
    {
      if v in e.values {
        var k :| 0 <= k < |e.values| && e.values[k] == v;
        assert Normalise(e.key.1, e.values[k], addresses).value in Canon(e, addresses);
      }
    }
    assert rrsets[e.key].1 == Canon(e, addresses);
  }
}
