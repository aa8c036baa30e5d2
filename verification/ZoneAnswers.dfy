/**
 What an answer holds, stated over the lines that were printed (hetzner/dns/zonecheck.py, `parse_dig`, `query`,
 `capture`): which records, which status and which flags, when it is an answer at all, and what a capture has in it.
 */
module ZoneAnswers {
  import opened Common
  import opened ZoneCheck

  // ---- Names and types, read off their letters ----

  /** One letter in either case, or the same character. */
  predicate SameLetter(a: char, b: char) {
    || a == b
    || ('A' <= a <= 'Z' && b as int == a as int + 32)
    || ('A' <= b <= 'Z' && a as int == b as int + 32)
  }

  predicate SameName(a: string, b: string) {
    |a| == |b| && forall k :: 0 <= k < |a| ==> SameLetter(a[k], b[k])
  }

  /** Two names have one lower-case form exactly when they differ in the case of ASCII letters only. */
  lemma LowerIsCaseless(a: string, b: string)
    ensures Lower(a) == Lower(b) <==> SameName(a, b)
  {
    if Lower(a) == Lower(b) {
      forall k | 0 <= k < |a|
        ensures SameLetter(a[k], b[k])
      {
        assert LowerChar(a[k]) == Lower(a)[k] == Lower(b)[k] == LowerChar(b[k]);
      }
    }
  }

  lemma {:induction false} DotsAreStripped(zone: string)
    ensures StripDots(zone) <= zone
    ensures forall k :: |StripDots(zone)| <= k < |zone| ==> zone[k] == '.'
    ensures StripDots(zone) == "" || StripDots(zone)[|StripDots(zone)| - 1] != '.'
  {
    if zone != "" && zone[|zone| - 1] == '.' {
      DotsAreStripped(zone[..|zone| - 1]);
    }
  }

  predicate NoCapitals(s: string) {
    forall k :: 0 <= k < |s| ==> !('A' <= s[k] <= 'Z')
  }

  lemma LowerHasNoCapitals(s: string)
    ensures NoCapitals(Lower(s)) && SameName(Lower(s), s)
  {
    forall k | 0 <= k < |s|
      ensures !('A' <= Lower(s)[k] <= 'Z') && SameLetter(Lower(s)[k], s[k])
    {
      assert Lower(s)[k] == LowerChar(s[k]);
    }
  }

  lemma SameAroundDot(a: string, b: string, c: string, d: string)
    requires SameName(a, b) && SameName(c, d) && NoCapitals(a) && NoCapitals(c)
    ensures SameName(a + "." + c, b + "." + d) && NoCapitals(a + "." + c)
  {
  }

  /** The name asked about is the owner, the zone without its final dots, and one dot, all in lower case. */
  lemma FqdnIsQualified(name: string, zone: string) returns (base: string)
    ensures base <= zone && forall k :: |base| <= k < |zone| ==> zone[k] == '.'
    ensures base == "" || base[|base| - 1] != '.'
    ensures NoCapitals(Fqdn(name, zone))
    ensures SameName(Fqdn(name, zone), if name == "@" then base + "." else name + "." + base + ".")
  {
    base := StripDots(zone);
    DotsAreStripped(zone);
    LowerHasNoCapitals(base);
    LowerHasNoCapitals(name);
    var low := Lower(base);
    SameAroundDot(low, base, "", "");
    assert low + "." + "" == low + "." && base + "." + "" == base + ".";
    SameAroundDot(Lower(name), name, low + ".", base + ".");
    assert Lower(name) + "." + (low + ".") == Lower(name) + "." + low + ".";
    assert name + "." + (base + ".") == name + "." + base + ".";
    hide SameName, NoCapitals, Lower, StripDots;
  }

  /** What `dig` prints for a type: its name, or for the two that old releases do not know its number. */
  predicate PrintedAs(printed: string, rtype: string) {
    printed == rtype || (rtype == "HTTPS" && printed == "TYPE65") || (rtype == "SVCB" && printed == "TYPE64")
  }

  // ---- One answer ----

  /** A line that prints a record of the name and type asked for. */
  predicate Prints(line: Line, qname: string, qtype: string) {
    line.Record? && SameName(line.owner, qname) && PrintedAs(line.rtype, qtype)
  }

  ghost predicate PrintsValue(s: Server, line: Line, qname: string, qtype: string, ttl: nat, value: string) {
    Prints(line, qname, qtype) && line.ttl == ttl && s.normal(qtype, line.rdata) == value
  }

  ghost predicate ValuePrinted(s: Server, lines: seq<Line>, qname: string, qtype: string, ttl: nat, value: string) {
    exists k :: 0 <= k < |lines| && PrintsValue(s, lines[k], qname, qtype, ttl, value)
  }

  /** The records read are the canonical values of the lines that print the name and type asked for, and no others. */
  lemma {:induction false} RecordsAreThePrinted(s: Server, lines: seq<Line>, qname: string, qtype: string, ttl: nat, value: string)
    ensures (ttl, value) in Scan(s, lines, qname, qtype).records <==> ValuePrinted(s, lines, qname, qtype, ttl, value)
  {
    if lines != [] {
      var last := |lines| - 1;
      RecordsAreThePrinted(s, lines[..last], qname, qtype, ttl, value);
      if lines[last].Record? {
        LowerIsCaseless(lines[last].owner, qname);
      }
      assert ValuePrinted(s, lines, qname, qtype, ttl, value) <==>
             ValuePrinted(s, lines[..last], qname, qtype, ttl, value) || PrintsValue(s, lines[last], qname, qtype, ttl, value) by {
        if k :| 0 <= k < |lines| && PrintsValue(s, lines[k], qname, qtype, ttl, value) {
          if k < last { assert lines[..last][k] == lines[k]; }
        }
        if k :| 0 <= k < last && PrintsValue(s, lines[..last][k], qname, qtype, ttl, value) {
          assert lines[..last][k] == lines[k];
        }
      }
    }
  }

  predicate HasStatus(line: Line) {
    line.Comment? && line.status.Some?
  }

  predicate HasFlags(line: Line) {
    line.Comment? && line.flags.Some?
  }

  /** The status of the last line that has one. */
  predicate LastStatus(lines: seq<Line>, rcode: Option<string>) {
    if rcode.None? then forall k :: 0 <= k < |lines| ==> !HasStatus(lines[k])
    else exists k :: 0 <= k < |lines| && HasStatus(lines[k]) && lines[k].status == rcode &&
                     forall j :: k < j < |lines| ==> !HasStatus(lines[j])
  }

  /** The flags of the last line that has any, and none when no line has. */
  predicate LastFlags(lines: seq<Line>, flags: set<string>) {
    || (flags == {} && forall k :: 0 <= k < |lines| ==> !HasFlags(lines[k]))
    || exists k :: 0 <= k < |lines| && HasFlags(lines[k]) && lines[k].flags == Some(flags) &&
                   forall j :: k < j < |lines| ==> !HasFlags(lines[j])
  }

  lemma {:induction false} StatusIsTheLast(s: Server, lines: seq<Line>, qname: string, qtype: string)
    ensures LastStatus(lines, Scan(s, lines, qname, qtype).rcode)
  {
    if lines != [] {
      var last := |lines| - 1;
      StatusIsTheLast(s, lines[..last], qname, qtype);
      assert forall k :: 0 <= k < last ==> lines[..last][k] == lines[k];
    }
  }

  lemma {:induction false} FlagsAreTheLast(s: Server, lines: seq<Line>, qname: string, qtype: string)
    ensures LastFlags(lines, Scan(s, lines, qname, qtype).flags)
  {
    if lines != [] {
      var last := |lines| - 1;
      FlagsAreTheLast(s, lines[..last], qname, qtype);
      assert forall k :: 0 <= k < last ==> lines[..last][k] == lines[k];
    }
  }

  lemma LastStatusIsOne(lines: seq<Line>, a: Option<string>, b: Option<string>)
    requires LastStatus(lines, a) && LastStatus(lines, b)
    ensures a == b
  {
  }

  lemma LastFlagsAreOne(lines: seq<Line>, a: set<string>, b: set<string>)
    requires LastFlags(lines, a) && LastFlags(lines, b)
    ensures a == b
  {
  }

  /** A record of another owner or another type leaves the answer as it would be without that line. */
  lemma {:induction false} OtherRecordChangesNothing(s: Server, before: seq<Line>, line: Line, rest: seq<Line>, qname: string, qtype: string)
    requires line.Record? && !Prints(line, qname, qtype)
    ensures Scan(s, before + [line] + rest, qname, qtype) == Scan(s, before + rest, qname, qtype)
  {
    var full := before + [line] + rest;
    if rest == [] {
      LowerIsCaseless(line.owner, qname);
      assert full[..|full| - 1] == before && before + rest == before;
    } else {
      var last := |rest| - 1;
      OtherRecordChangesNothing(s, before, line, rest[..last], qname, qtype);
      assert full[..|full| - 1] == before + [line] + rest[..last];
      assert (before + rest)[..|before + rest| - 1] == before + rest[..last];
    }
  }

  // ---- When there is an answer ----

  function Asked(s: Server, key: Key): seq<Line> {
    s.output(Fqdn(key.0, s.zone), Token(key.1))
  }

  /** The server printed this value for the key's own name and type when it was asked for them. */
  ghost predicate Served(s: Server, key: Key, ttl: nat, value: string) {
    ValuePrinted(s, Asked(s, key), Fqdn(key.0, s.zone), key.1, ttl, value)
  }

  /** The last status is one of the two that are an answer, and the last flags say it is authoritative. */
  ghost predicate IsAnswered(s: Server, key: Key, rcode: string) {
    && (rcode == "NOERROR" || rcode == "NXDOMAIN")
    && LastStatus(Asked(s, key), Some(rcode))
    && exists flags :: LastFlags(Asked(s, key), flags) && "aa" in flags
  }

  /** `query` answers exactly when the last status is NOERROR or NXDOMAIN and the last flags hold `aa`, with what was printed. */
  lemma AskIsExact(s: Server, key: Key, rcode: string)
    ensures IsAnswered(s, key, rcode) <==> Ask(s, key).Ok? && Ask(s, key).value.rcode == rcode
    ensures Ask(s, key).Ok? ==> forall ttl: nat, value :: (ttl, value) in Ask(s, key).value.records <==> Served(s, key, ttl, value)
    ensures Ask(s, key) == Err(NoAnswer) <==> forall k :: 0 <= k < |Asked(s, key)| ==> !HasStatus(Asked(s, key)[k])
    ensures Ask(s, key) == Err(BadRcode) <==>
            exists k :: 0 <= k < |Asked(s, key)| && HasStatus(Asked(s, key)[k]) &&
                        Asked(s, key)[k].status.value !in {"NOERROR", "NXDOMAIN"} &&
                        forall j :: k < j < |Asked(s, key)| ==> !HasStatus(Asked(s, key)[j])
    ensures Ask(s, key) == Err(NotAuthoritative) <==>
            && (LastStatus(Asked(s, key), Some("NOERROR")) || LastStatus(Asked(s, key), Some("NXDOMAIN")))
            && exists flags :: LastFlags(Asked(s, key), flags) && "aa" !in flags
  {
    var lines, qname := Asked(s, key), Fqdn(key.0, s.zone);
    var dig := Scan(s, lines, qname, key.1);
    StatusIsTheLast(s, lines, qname, key.1);
    FlagsAreTheLast(s, lines, qname, key.1);
    forall ttl: nat, value
      ensures (ttl, value) in dig.records <==> Served(s, key, ttl, value)
    {
      RecordsAreThePrinted(s, lines, qname, key.1, ttl, value);
    }
    forall other | LastStatus(lines, other)
      ensures other == dig.rcode
    {
      LastStatusIsOne(lines, other, dig.rcode);
    }
    forall flags | LastFlags(lines, flags)
      ensures flags == dig.flags
    {
      LastFlagsAreOne(lines, flags, dig.flags);
    }
    hide Scan, Fqdn, ValuePrinted;
  }

  /** A type is asked for in a form its records may be printed with: by number for the two that have one, else by name. */
  lemma TokenIsPrintedForm(rtype: string)
    ensures PrintedAs(Token(rtype), rtype)
    ensures Token(rtype) == rtype <==> rtype != "HTTPS" && rtype != "SVCB"
  {
  }

  // ---- A capture ----

  ghost predicate OneTtl(s: Server, key: Key) {
    forall a: nat, x, b: nat, y :: Served(s, key, a, x) && Served(s, key, b, y) ==> a == b
  }

  /** A key's answer can be captured: there is one, and the values printed share their TTL. */
  ghost predicate Capturable(s: Server, key: Key) {
    (exists rcode :: IsAnswered(s, key, rcode)) && OneTtl(s, key)
  }

  /** An rrset holds exactly the values printed for the key, under the TTL they were printed with. */
  ghost predicate HoldsServed(s: Server, key: Key, ttl: nat, values: set<string>) {
    && values != {}
    && (forall value :: value in values <==> Served(s, key, ttl, value))
    && forall other: nat, value :: Served(s, key, other, value) ==> other == ttl
  }

  /** The rrsets with one more answer: unchanged when nothing was printed for the key. */
  ghost predicate Grows(s: Server, key: Key, before: RrSets, after: RrSets) {
    if exists ttl: nat, value :: Served(s, key, ttl, value)
    then key in after && after == before[key := after[key]] && HoldsServed(s, key, after[key].0, after[key].1)
    else after == before
  }

  lemma AnswerAdds(s: Server, key: Key, rrsets: RrSets)
    requires Ask(s, key).Ok?
    ensures WithAnswer(rrsets, key, Ask(s, key).value.records).Ok? <==> OneTtl(s, key)
    ensures var added := WithAnswer(rrsets, key, Ask(s, key).value.records); added.Ok? ==> Grows(s, key, rrsets, added.value)
  {
    AskIsExact(s, key, "");
    var records := Ask(s, key).value.records;
    hide Ask, Served, IsAnswered;
    if records == {} {
      assert forall ttl: nat, value :: !Served(s, key, ttl, value) by {
        forall ttl: nat, value
          ensures !Served(s, key, ttl, value)
        {
          assert (ttl, value) !in records;
        }
      }
    } else {
      var r :| r in records;
      assert (r.0, r.1) in records && r.0 in Ttls(records);
      assert Served(s, key, r.0, r.1);
      if OneTtl(s, key) {
        assert Ttls(records) == {r.0} by {
          forall ttl | ttl in Ttls(records)
            ensures ttl == r.0
          {
            var q :| q in records && q.0 == ttl;
            assert (q.0, q.1) in records;
          }
        }
        HoldsTheServed(s, key, records, r.0);
      }
      if |Ttls(records)| == 1 {
        var ttl := TheTtl(records);
        forall a: nat, x | Served(s, key, a, x)
          ensures a == ttl
        {
          assert (a, x) in records;
          assert a in Ttls(records);
        }
      }
    }
  }

  lemma HoldsTheServed(s: Server, key: Key, records: set<(nat, string)>, ttl: nat)
    requires records != {} && Ttls(records) == {ttl}
    requires forall a: nat, value :: (a, value) in records <==> Served(s, key, a, value)
    ensures HoldsServed(s, key, ttl, Values(records))
  {
    hide Served;
    var r :| r in records;
    assert r.1 in Values(records);
    forall a: nat, value | (a, value) in records
      ensures a == ttl
    {
      assert a in Ttls(records);
    }
    forall value
      ensures value in Values(records) <==> Served(s, key, ttl, value)
    {
      if value in Values(records) {
        var q :| q in records && q.1 == value;
        assert (q.0, q.1) in records;
      }
      if Served(s, key, ttl, value) {
        assert (ttl, value) in records;
      }
    }
  }

  lemma AnsweredIsOk(s: Server, key: Key)
    ensures Ask(s, key).Ok? <==> exists rcode :: IsAnswered(s, key, rcode)
  {
    forall rcode
      ensures IsAnswered(s, key, rcode) <==> Ask(s, key).Ok? && Ask(s, key).value.rcode == rcode
    {
      AskIsExact(s, key, rcode);
    }
    hide Ask, IsAnswered;
    if Ask(s, key).Ok? {
      assert IsAnswered(s, key, Ask(s, key).value.rcode);
    }
  }

  /** What a capture of these keys has in it. */
  ghost predicate CaptureHolds(s: Server, keys: seq<Key>, rrsets: RrSets) {
    && (forall key :: key in rrsets <==> key in keys && exists ttl: nat, value :: Served(s, key, ttl, value))
    && forall key :: key in rrsets ==> HoldsServed(s, key, rrsets[key].0, rrsets[key].1)
  }

  lemma CaptureGrows(s: Server, keys: seq<Key>, key: Key, before: RrSets, after: RrSets)
    requires CaptureHolds(s, keys, before) && Grows(s, key, before, after)
    ensures CaptureHolds(s, keys + [key], after)
  {
    hide Served, HoldsServed;
  }

  /**
   A capture succeeds exactly when every key is answered with one TTL, and then has an rrset for exactly the keys some
   line printed a value for, each with the values printed for its own name and type.
   */
  lemma {:induction false} CapturedIsThePrinted(s: Server, keys: seq<Key>)
    ensures Captured(s, keys).Ok? <==> forall k :: 0 <= k < |keys| ==> Capturable(s, keys[k])
    ensures Captured(s, keys).Ok? ==> CaptureHolds(s, keys, Captured(s, keys).value)
  {
    if keys != [] {
      var last := |keys| - 1;
      var key := keys[last];
      CapturedIsThePrinted(s, keys[..last]);
      assert keys == keys[..last] + [key];
      AnsweredIsOk(s, key);
      hide Ask, Served, IsAnswered, OneTtl, CaptureHolds, Grows, WithAnswer;
      if Captured(s, keys[..last]).Ok? && Ask(s, key).Ok? {
        var before := Captured(s, keys[..last]).value;
        AnswerAdds(s, key, before);
        if OneTtl(s, key) {
          CaptureGrows(s, keys[..last], key, before, Captured(s, keys).value);
        }
      }
    }
  }

  // ---- The check against a zone file ----

  /** A name below another, in any number of labels. */
  ghost predicate IsBelow(name: string, other: string) {
    exists labels: string :: name == labels + "." + other
  }

  /** The apex, a name that holds records and a name with one below it, itself empty or not, are NOERROR; any other is NXDOMAIN. */
  lemma ExpectedRcodeIsExact(zone: Zone, name: string)
    ensures ExpectedRcode(zone, name) == "NOERROR" <==>
            name == "@" || exists key :: key in zone.rrsets && (key.0 == name || IsBelow(key.0, name))
    ensures ExpectedRcode(zone, name) == "NOERROR" || ExpectedRcode(zone, name) == "NXDOMAIN"
  {
    forall key | key in zone.rrsets
      ensures EndsWith(key.0, "." + name) <==> IsBelow(key.0, name)
    {
      SuffixIsBelow(key.0, name);
    }
    hide EndsWith, IsBelow;
  }

  lemma SuffixIsBelow(owner: string, name: string)
    ensures EndsWith(owner, "." + name) <==> IsBelow(owner, name)
  {
    var suffix := "." + name;
    if EndsWith(owner, suffix) {
      var labels := owner[..|owner| - |suffix|];
      assert owner == labels + suffix == labels + "." + name;
    }
    if labels: string :| owner == labels + "." + name {
      assert owner == labels + suffix;
      assert owner[|labels|..] == suffix;
    }
  }

  predicate IsNamed(zone: Zone, name: string) {
    name in zone.probeNames || exists key :: key in zone.rrsets && key.0 == name
  }

  predicate IsProbed(rtype: string) {
    rtype in ["A", "AAAA", "CAA", "CNAME", "HTTPS", "MX", "NS", "PTR", "SRV", "SVCB", "TLSA", "TXT"]
  }

  lemma RequiredIsExact(declared: Zone, key: Key)
    ensures key in Required(declared) <==> key == ("@", "SOA") || (IsNamed(declared, key.0) && IsProbed(key.1))
  {
    assert key.0 in NamesOf(declared) <==> IsNamed(declared, key.0);
    assert key.1 in PROBE_TYPES <==> IsProbed(key.1);
    hide NamesOf, IsNamed, IsProbed;
  }

  /** A problem of `check_capture`, from what the transcript and the zone file hold. */
  ghost predicate IsProblem(t: Transcript, declared: Zone, problem: Problem) {
    match problem
    case NotDeclared(key) => key in t.rrsets && key !in declared.rrsets
    case NotInTranscript(key) => key in declared.rrsets && key !in t.rrsets
    case Differs(key) => key in t.rrsets && key in declared.rrsets && t.rrsets[key] != declared.rrsets[key]
    case NotProbed(key) => (key == ("@", "SOA") || (IsNamed(declared, key.0) && IsProbed(key.1))) && key !in t.queried
    case WrongRcode(name) => IsNamed(declared, name) && name in t.rcodes && t.rcodes[name] != ExpectedRcode(declared, name)
  }

  lemma ProblemsAreExact(t: Transcript, declared: Zone, problem: Problem)
    ensures problem in CheckCapture(t, declared) <==> IsProblem(t, declared, problem)
  {
    match problem {
      case NotProbed(key) => RequiredIsExact(declared, key);
      case WrongRcode(name) => assert name in NamesOf(declared) <==> IsNamed(declared, name);
      case _ =>
    }
    hide ExpectedRcode, NamesOf, Required, IsNamed, IsProbed;
  }

  /**
   `check_capture` finds nothing exactly when the transcript shows the declared rrsets, holds each probed type of each
   declared name and the apex SOA, and gives each of those names the rcode expected of it.
   */
  lemma CheckIsExact(t: Transcript, declared: Zone)
    ensures CheckCapture(t, declared) == {} <==>
            && t.rrsets == declared.rrsets
            && ("@", "SOA") in t.queried
            && (forall name, rtype :: IsNamed(declared, name) && IsProbed(rtype) ==> (name, rtype) in t.queried)
            && forall name :: IsNamed(declared, name) && name in t.rcodes ==> t.rcodes[name] == ExpectedRcode(declared, name)
  {
    var problems := CheckCapture(t, declared);
    forall problem
      ensures problem in problems <==> IsProblem(t, declared, problem)
    {
      ProblemsAreExact(t, declared, problem);
    }
    hide CheckCapture, ExpectedRcode, IsNamed, IsProbed;
    if problems == {} {
      forall key
        ensures key in t.rrsets <==> key in declared.rrsets
        ensures key in t.rrsets && key in declared.rrsets ==> t.rrsets[key] == declared.rrsets[key]
      {
        assert NotDeclared(key) !in problems && NotInTranscript(key) !in problems && Differs(key) !in problems;
      }
      assert t.rrsets == declared.rrsets;
      forall name, rtype | IsNamed(declared, name) && IsProbed(rtype)
        ensures (name, rtype) in t.queried
      {
        assert NotProbed((name, rtype)) !in problems;
      }
      assert NotProbed(("@", "SOA")) !in problems;
      forall name | IsNamed(declared, name) && name in t.rcodes
        ensures t.rcodes[name] == ExpectedRcode(declared, name)
      {
        assert WrongRcode(name) !in problems;
      }
    }
  }

  // ---- Reading a transcript ----

  /** The name asked about is the zone's, or has labels before it, in any case of letters. */
  ghost predicate InZone(qname: string, zone: string) {
    || SameName(qname, Canonical(zone) + ".")
    || exists labels: string :: SameName(qname, labels + ("." + Canonical(zone) + "."))
  }

  lemma NameInZoneIsExact(qname: string, zone: string)
    ensures NameInZone(qname, zone).Some? <==> InZone(qname, zone)
  {
    var base, suffix := Canonical(zone), "." + Canonical(zone) + ".";
    LowerHasNoCapitals(StripDots(zone));
    LowerOfDotted(base);
    LowerIsCaseless(qname, base + ".");
    SuffixIsCaseless(qname, suffix);
    NameInZoneForms(qname, zone);
    hide Canonical, Lower, SameName, NameInZone, EndsWith;
  }

  lemma NameInZoneForms(qname: string, zone: string)
    ensures NameInZone(qname, zone).Some? <==>
            Lower(qname) == Canonical(zone) + "." || EndsWith(Lower(qname), "." + Canonical(zone) + ".")
  {
    hide Canonical, Lower;
  }

  /** The name inside the zone is in lower case, and is what stands before the zone's name. */
  lemma NameInZoneIsLower(qname: string, zone: string)
    requires NameInZone(qname, zone).Some?
    ensures var name := NameInZone(qname, zone).value;
            || (name == "@" && SameName(qname, Canonical(zone) + "."))
            || (NoCapitals(name) && SameName(qname, name + ("." + Canonical(zone) + ".")))
  {
    var base, suffix := Canonical(zone), "." + Canonical(zone) + ".";
    LowerHasNoCapitals(StripDots(zone));
    LowerOfDotted(base);
    LowerHasNoCapitals(qname);
    LowerIsCaseless(qname, base + ".");
    LowerIsCaseless(qname, Lower(qname));
    var lowered := Lower(qname);
    if |suffix| <= |lowered| {
      assert lowered == lowered[..|lowered| - |suffix|] + lowered[|lowered| - |suffix|..];
    }
    assert Lower(lowered) == lowered;
    hide Canonical, Lower;
  }

  /** A lower-case suffix ends a name's lower-case form exactly when the name is some text and that suffix in any case. */
  lemma SuffixIsCaseless(qname: string, suffix: string)
    requires Lower(suffix) == suffix
    ensures EndsWith(Lower(qname), suffix) <==> exists labels: string :: SameName(qname, labels + suffix)
  {
    if EndsWith(Lower(qname), suffix) {
      var labels, rest := qname[..|qname| - |suffix|], qname[|qname| - |suffix|..];
      assert qname == labels + rest;
      LowerOfSum(labels, rest);
      LowerIsCaseless(rest, suffix);
      SameAfter(labels, rest, suffix);
    }
    if labels: string :| SameName(qname, labels + suffix) {
      LowerIsCaseless(qname, labels + suffix);
      LowerOfSum(labels, suffix);
      assert (Lower(labels) + suffix)[|labels|..] == suffix;
    }
  }

  lemma SameAfter(labels: string, a: string, b: string)
    requires SameName(a, b)
    ensures SameName(labels + a, labels + b)
  {
  }

  lemma LowerOfSum(a: string, b: string)
    ensures Lower(a + b) == Lower(a) + Lower(b)
  {
  }

  /** What is in lower case already stays as it is, with a dot on either side. */
  lemma LowerOfDotted(base: string)
    requires NoCapitals(base)
    ensures Lower(base + ".") == base + "." && Lower("." + base + ".") == "." + base + "."
  {
  }

  /** How a transcript's block is refused, and what one that is read adds. */
  lemma ReadBlockIsExact(s: Server, t: Transcript, b: Block)
    ensures ReadBlock(s, t, b) == Err(OutsideZone) <==> !InZone(b.qname, s.zone)
    ensures ReadBlock(s, t, b) == Err(NoAnswer) <==> InZone(b.qname, s.zone) && LastStatus(b.lines, None)
    ensures ReadBlock(s, t, b) == Err(NotAuthoritative) <==>
            && InZone(b.qname, s.zone) && !LastStatus(b.lines, None)
            && exists flags :: LastFlags(b.lines, flags) && "aa" !in flags
    ensures ReadBlock(s, t, b).Ok? ==>
              && NameInZone(b.qname, s.zone).Some?
              && var key := (NameInZone(b.qname, s.zone).value, TypeOf(b.token));
                 && ReadBlock(s, t, b).value.queried == t.queried + {key}
                 && (forall name :: name != key.0 || key.1 != "A" ==>
                       (name in ReadBlock(s, t, b).value.rcodes <==> name in t.rcodes) &&
                       (name in t.rcodes ==> ReadBlock(s, t, b).value.rcodes[name] == t.rcodes[name]))
                 && (key.1 == "A" ==> key.0 in ReadBlock(s, t, b).value.rcodes &&
                                      LastStatus(b.lines, Some(ReadBlock(s, t, b).value.rcodes[key.0])))
  {
    NameInZoneIsExact(b.qname, s.zone);
    var dig := Scan(s, b.lines, b.qname, TypeOf(b.token));
    StatusIsTheLast(s, b.lines, b.qname, TypeOf(b.token));
    FlagsAreTheLast(s, b.lines, b.qname, TypeOf(b.token));
    forall other | LastStatus(b.lines, other)
      ensures other == dig.rcode
    {
      LastStatusIsOne(b.lines, other, dig.rcode);
    }
    forall flags | LastFlags(b.lines, flags)
      ensures flags == dig.flags
    {
      LastFlagsAreOne(b.lines, flags, dig.flags);
    }
    hide Scan, InZone, NameInZone, LastStatus, LastFlags, TypeOf, Values, TheTtl, Ttls;
  }

  predicate NoHeader(lines: seq<Line>) {
    forall j :: 0 <= j < |lines| ==> !lines[j].QueryHeader?
  }

  /** A line with something on it that comes before any query's line. */
  predicate TextBefore(lines: seq<Line>) {
    exists k :: 0 <= k < |lines| && !lines[k].Blank? && NoHeader(lines[..k + 1])
  }

  lemma TextBeforeGrows(lines: seq<Line>)
    requires lines != []
    ensures var init, last := lines[..|lines| - 1], lines[|lines| - 1];
            && (NoHeader(lines) <==> NoHeader(init) && !last.QueryHeader?)
            && (TextBefore(lines) <==> TextBefore(init) || (NoHeader(lines) && !last.Blank?))
  {
    var last := |lines| - 1;
    forall k | 0 <= k < last
      ensures lines[..last][..k + 1] == lines[..k + 1] && lines[..last][k] == lines[k]
    {
    }
    assert lines[..last + 1] == lines;
    assert NoHeader(lines) <==> NoHeader(lines[..last]) && !lines[last].QueryHeader?;
    hide NoHeader;
  }

  /** A transcript's text is refused exactly when a line with something on it comes before the first query's line. */
  lemma {:induction false} RefusedIsTextBefore(lines: seq<Line>)
    ensures ParseTranscript(lines).Ok? || ParseTranscript(lines) == Err(TextBeforeHeader)
    ensures ParseTranscript(lines).Err? <==> TextBefore(lines)
    ensures ParseTranscript(lines).Ok? ==> (ParseTranscript(lines).value == [] <==> NoHeader(lines))
  {
    if lines != [] {
      RefusedIsTextBefore(lines[..|lines| - 1]);
      TextBeforeGrows(lines);
      hide TextBefore, NoHeader;
    }
  }

  /** The recorder keeps what was printed up to the blank lines at its end. */
  lemma {:induction false} StripIsExact(lines: seq<Line>)
    ensures Strip(lines) <= lines && forall k :: |Strip(lines)| <= k < |lines| ==> lines[k].Blank?
    ensures Strip(lines) == [] || !Strip(lines)[|Strip(lines)| - 1].Blank?
  {
    if lines != [] && lines[|lines| - 1].Blank? {
      StripIsExact(lines[..|lines| - 1]);
    }
  }

  // ---- What is probed ----

  /** Every probed type of every name is asked for, but for the provider's own NS records of the apex. */
  lemma {:induction false} ProbedIsExact(names: seq<string>, key: Key)
    ensures key in Probes(names) <==> key.0 in names && IsProbed(key.1) && key != ("@", "NS")
  {
    hide ProbesOf;
    if names != [] {
      var last := |names| - 1;
      ProbedIsExact(names[..last], key);
      ProbesOfOne(names[last], PROBE_TYPES, key);
      assert names == names[..last] + [names[last]];
      assert key.1 in PROBE_TYPES <==> IsProbed(key.1);
    }
  }

  lemma {:induction false} ProbesOfOne(name: string, types: seq<string>, key: Key)
    requires "SOA" !in types
    ensures key in ProbesOf(name, types) <==> key.0 == name && key.1 in types && key != ("@", "NS")
  {
    if types != [] {
      var last := |types| - 1;
      ProbesOfOne(name, types[..last], key);
      assert types == types[..last] + [types[last]];
      assert ProviderOwned((name, types[last])) <==> (name, types[last]) == ("@", "NS");
    }
  }
}
