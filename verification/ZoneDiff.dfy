/** Comparing a server's answers with the zone file, and the control that shows an empty comparison means something. */
module ZoneDiff {
  import opened Common
  import opened ZoneCheck

  const SENTINEL := "control-case-altered-value"

  type Answers = map<Key, Answer>

  datatype Diff = RcodeDiff(name: string) | ValueDiff(name: string, rtype: string) | TtlDiff(name: string, rtype: string)

  function ExpectedValues(zone: Zone, key: Key): set<string> {
    if key in zone.rrsets then zone.rrsets[key].1 else {}
  }

  /** Whether an answer's values differ from the file's, or only its TTLs do and they are checked. */
  function KeyDiff(zone: Zone, answer: Answer, key: Key, checkTtl: bool): Option<Diff> {
    if Values(answer.records) != ExpectedValues(zone, key) then Some(ValueDiff(key.0, key.1))
    else if checkTtl && ExpectedValues(zone, key) != {} && Ttls(answer.records) != {zone.rrsets[key].0}
    then Some(TtlDiff(key.0, key.1))
    else None
  }

  /** The comparison has an answer for every name and type it asks about. */
  predicate Answered(names: seq<string>, answers: Answers) {
    forall name, rtype :: name in names && rtype in PROBE_TYPES ==> (name, rtype) in answers
  }

  /** `diff_server`, over the names of the zone in order. */
  method DiffServer(zone: Zone, names: seq<string>, answers: Answers, checkTtl: bool) returns (diffs: seq<Diff>)
    requires (forall name :: name in names <==> name in NamesOf(zone)) && Answered(names, answers)
    ensures forall d :: d in diffs <==> IsDiff(zone, answers, checkTtl, d)
  {
    diffs := [];
    for n := 0 to |names|
      invariant forall d :: d in diffs <==> d.name in names[..n] && IsDiff(zone, answers, checkTtl, d)
    {
      var name := names[n];
      assert names[..n + 1] == names[..n] + [name] && name in names;
      ghost var before := diffs;
      if answers[(name, PROBE_TYPES[0])].rcode != ExpectedRcode(zone, name) {
        diffs := diffs + [RcodeDiff(name)];
      }
      diffs := DiffName(zone, name, answers, checkTtl, diffs);
    }
    assert names[..|names|] == names;
  }

  ghost predicate IsDiff(zone: Zone, answers: Answers, checkTtl: bool, d: Diff) {
    d.name in NamesOf(zone) &&
    match d
    case RcodeDiff(name) => (name, PROBE_TYPES[0]) in answers && answers[(name, PROBE_TYPES[0])].rcode != ExpectedRcode(zone, name)
    case _ => IsKeyDiff(zone, answers, checkTtl, d)
  }

  predicate IsKeyDiff(zone: Zone, answers: Answers, checkTtl: bool, d: Diff)
    requires !d.RcodeDiff?
  {
    var key := (d.name, d.rtype);
    d.rtype in PROBE_TYPES && !ProviderOwned(key) && key in answers && KeyDiff(zone, answers[key], key, checkTtl) == Some(d)
  }

  /** The types of one name. */
  method DiffName(zone: Zone, name: string, answers: Answers, checkTtl: bool, before: seq<Diff>) returns (diffs: seq<Diff>)
    requires forall rtype :: rtype in PROBE_TYPES ==> (name, rtype) in answers
    ensures forall d :: d in diffs <==>
              d in before || (!d.RcodeDiff? && d.name == name && IsKeyDiff(zone, answers, checkTtl, d))
  {
    hide KeyDiff;
    diffs := before;
    for n := 0 to |PROBE_TYPES|
      invariant forall d :: d in diffs <==>
                  d in before || (!d.RcodeDiff? && d.name == name && d.rtype in PROBE_TYPES[..n] && IsKeyDiff(zone, answers, checkTtl, d))
    {
      var key := (name, PROBE_TYPES[n]);
      assert PROBE_TYPES[..n + 1] == PROBE_TYPES[..n] + [PROBE_TYPES[n]];
      KeyDiffNamesItsKey(zone, answers[key], key, checkTtl);
      if !ProviderOwned(key) {
        var found := KeyDiff(zone, answers[key], key, checkTtl);
        if found.Some? {
          diffs := diffs + [found.value];
        }
      }
    }
    assert PROBE_TYPES[..|PROBE_TYPES|] == PROBE_TYPES;
  }

  lemma KeyDiffNamesItsKey(zone: Zone, answer: Answer, key: Key, checkTtl: bool)
    ensures var found := KeyDiff(zone, answer, key, checkTtl);
            found.Some? ==> !found.value.RcodeDiff? && found.value.name == key.0 && found.value.rtype == key.1
  {
  }

  /** Nothing is reported. */
  ghost predicate NoDiffs(zone: Zone, answers: Answers, checkTtl: bool) {
    forall d :: !IsDiff(zone, answers, checkTtl, d)
  }

  /** Whether the answers for a key are the zone file's. */
  predicate KeyMatches(zone: Zone, answer: Answer, key: Key, checkTtl: bool) {
    && Values(answer.records) == ExpectedValues(zone, key)
    && (checkTtl && key in zone.rrsets && zone.rrsets[key].1 != {} ==> Ttls(answer.records) == {zone.rrsets[key].0})
  }

  /**
   Compare exactness: nothing is reported exactly when every name's rcode and, for every probed type the provider does
   not own, the value set (and the TTL when asked) are the zone file's. A record of a type that is never probed is not
   part of it.
   */
  lemma NoDiffsIsExact(zone: Zone, answers: Answers, checkTtl: bool)
    requires forall name, rtype :: name in NamesOf(zone) && rtype in PROBE_TYPES ==> (name, rtype) in answers
    ensures NoDiffs(zone, answers, checkTtl) <==>
            && (forall name :: name in NamesOf(zone) ==> answers[(name, PROBE_TYPES[0])].rcode == ExpectedRcode(zone, name))
            && (forall name, rtype :: name in NamesOf(zone) && rtype in PROBE_TYPES && !ProviderOwned((name, rtype)) ==>
                  KeyMatches(zone, answers[(name, rtype)], (name, rtype), checkTtl))
  {
    hide ExpectedRcode, NamesOf, ProviderOwned;
    if NoDiffs(zone, answers, checkTtl) {
      forall name | name in NamesOf(zone)
        ensures answers[(name, PROBE_TYPES[0])].rcode == ExpectedRcode(zone, name)
      {
        assert PROBE_TYPES[0] in PROBE_TYPES;
        assert !IsDiff(zone, answers, checkTtl, RcodeDiff(name));
      }
      forall name, rtype | name in NamesOf(zone) && rtype in PROBE_TYPES && !ProviderOwned((name, rtype))
        ensures KeyMatches(zone, answers[(name, rtype)], (name, rtype), checkTtl)
      {
        assert !IsDiff(zone, answers, checkTtl, ValueDiff(name, rtype));
        assert !IsDiff(zone, answers, checkTtl, TtlDiff(name, rtype));
      }
    }
  }

  /** A record of a type that is not probed, under a name the zone has, changes nothing that is reported, whatever its TTL and values. */
  lemma UnprobedRecordIsUnseen(zone: Zone, answers: Answers, checkTtl: bool, key: Key, ttl: nat, values: set<string>)
    requires forall name, rtype :: name in NamesOf(zone) && rtype in PROBE_TYPES ==> (name, rtype) in answers
    requires key.1 !in PROBE_TYPES && exists owner :: owner in zone.rrsets && owner.0 == key.0
    ensures NoDiffs(zone.(rrsets := zone.rrsets[key := (ttl, values)]), answers, checkTtl) <==> NoDiffs(zone, answers, checkTtl)
  {
    var more := zone.(rrsets := zone.rrsets[key := (ttl, values)]);
    SameNames(zone, key, ttl, values);
    forall name
      ensures ExpectedRcode(more, name) == ExpectedRcode(zone, name)
    {
      SameRcode(zone, key, ttl, values, name);
    }
    hide ExpectedRcode, NamesOf, ProviderOwned;
    NoDiffsIsExact(zone, answers, checkTtl);
    NoDiffsIsExact(more, answers, checkTtl);
  }

  lemma SameNames(zone: Zone, key: Key, ttl: nat, values: set<string>)
    requires exists owner :: owner in zone.rrsets && owner.0 == key.0
    ensures NamesOf(zone.(rrsets := zone.rrsets[key := (ttl, values)])) == NamesOf(zone)
  {
    var more := zone.(rrsets := zone.rrsets[key := (ttl, values)]);
    var owner :| owner in zone.rrsets && owner.0 == key.0;
    forall name
      ensures name in NamesOf(more) <==> name in NamesOf(zone)
    {
      if k :| k in more.rrsets && k.0 == name {
        assert (if k == key then owner else k) in zone.rrsets;
      }
      if k :| k in zone.rrsets && k.0 == name {
        assert k in more.rrsets;
      }
    }
  }

  lemma SameRcode(zone: Zone, key: Key, ttl: nat, values: set<string>, name: string)
    requires exists owner :: owner in zone.rrsets && owner.0 == key.0
    ensures ExpectedRcode(zone.(rrsets := zone.rrsets[key := (ttl, values)]), name) == ExpectedRcode(zone, name)
  {
    hide EndsWith;
    var more := zone.(rrsets := zone.rrsets[key := (ttl, values)]);
    var owner :| owner in zone.rrsets && owner.0 == key.0;
    if k :| k in more.rrsets && (k.0 == name || (name != "@" && EndsWith(k.0, "." + name))) {
      assert (if k == key then owner else k) in zone.rrsets;
    }
    if k :| k in zone.rrsets && (k.0 == name || (name != "@" && EndsWith(k.0, "." + name))) {
      assert k in more.rrsets;
    }
  }

  /**
   Which of the two diffs of a key is reported: the values when they are not the file's; the TTLs when they are checked
   and the values, of which there are some, are the file's but a record has another TTL.
   */
  lemma DiffKindsAreExact(zone: Zone, answers: Answers, checkTtl: bool, name: string, rtype: string)
    requires name in NamesOf(zone) && rtype in PROBE_TYPES && !ProviderOwned((name, rtype)) && (name, rtype) in answers
    ensures var records := answers[(name, rtype)].records;
            var declared := (name, rtype) in zone.rrsets;
            var served := set r | r in records :: r.1;
            var same := served == if declared then zone.rrsets[(name, rtype)].1 else {};
            && (IsDiff(zone, answers, checkTtl, ValueDiff(name, rtype)) <==> !same)
            && (IsDiff(zone, answers, checkTtl, TtlDiff(name, rtype)) <==>
                same && checkTtl && declared && exists r :: r in records && r.0 != zone.rrsets[(name, rtype)].0)
  {
    hide NamesOf, ProviderOwned;
    var records := answers[(name, rtype)].records;
    if (name, rtype) in zone.rrsets && records != {} {
      OneTtlOrNot(records, zone.rrsets[(name, rtype)].0);
    }
    hide Ttls;
    assert Values(records) == {} <==> records == {} by {
      if r :| r in records {
        assert r.1 in Values(records);
      }
    }
  }

  lemma OneTtlOrNot(records: set<(nat, string)>, ttl: nat)
    requires records != {}
    ensures Ttls(records) == {ttl} <==> forall r :: r in records ==> r.0 == ttl
  {
    if Ttls(records) == {ttl} {
      forall r | r in records
        ensures r.0 == ttl
      {
        assert r.0 in Ttls(records);
      }
    }
    if forall r :: r in records ==> r.0 == ttl {
      var r :| r in records;
      assert r.0 in Ttls(records);
    }
  }

  // ---- The control ----

  /** `altered_copy` with a given key: one record's values replaced by the sentinel. */
  function Altered(zone: Zone, key: Key): Zone
    requires key in zone.rrsets
  {
    zone.(rrsets := zone.rrsets[key := (zone.rrsets[key].0, {SENTINEL})])
  }

  /** The diffs the control counts: those under the altered key's name and type. */
  ghost predicate Caught(zone: Zone, answers: Answers, checkTtl: bool, key: Key) {
    exists d :: IsDiff(zone, answers, checkTtl, d) && !d.RcodeDiff? && d.name == key.0 && d.rtype == key.1 && d.ValueDiff?
  }

  /**
   The control catches: when the comparison reports nothing, the altered key's own diff is reported against the altered
   copy if and only if its type is probed, the provider does not own it, and its values were not the sentinel already.
   */
  lemma ControlCatches(zone: Zone, answers: Answers, checkTtl: bool, key: Key)
    requires forall name, rtype :: name in NamesOf(zone) && rtype in PROBE_TYPES ==> (name, rtype) in answers
    requires key in zone.rrsets && NoDiffs(zone, answers, checkTtl)
    ensures Caught(Altered(zone, key), answers, checkTtl, key) <==>
            key.1 in PROBE_TYPES && !ProviderOwned(key) && zone.rrsets[key].1 != {"control-case-altered-value"}
  {
    hide ExpectedRcode, ProviderOwned;
    var altered := Altered(zone, key);
    assert key == (key.0, key.1);
    assert key.0 in NamesOf(zone) && key.0 in NamesOf(altered);
    if key.1 in PROBE_TYPES && !ProviderOwned(key) {
      NoDiffsIsExact(zone, answers, checkTtl);
      assert KeyMatches(zone, answers[key], key, checkTtl);
      if zone.rrsets[key].1 != {SENTINEL} {
        assert IsDiff(altered, answers, checkTtl, ValueDiff(key.0, key.1));
      }
    }
  }

  /** The altered copy is the zone but for the values of one key. */
  lemma AlteredIsOneValue(zone: Zone, key: Key, other: Key)
    requires key in zone.rrsets
    ensures var altered := Altered(zone, key);
            && altered.probeNames == zone.probeNames
            && (other in altered.rrsets <==> other in zone.rrsets)
            && (other in zone.rrsets ==> altered.rrsets[other].0 == zone.rrsets[other].0)
            && (other in zone.rrsets && other != key ==> altered.rrsets[other].1 == zone.rrsets[other].1)
            && altered.rrsets[key].1 == {"control-case-altered-value"}
  {
  }

  // ---- Both sides, with both controls ----

  datatype Failure = SameProvider(left: string, right: string) | NotCaught(server: string)

  /** The type a diff is printed under. */
  function TypeText(d: Diff): string {
    match d
    case RcodeDiff(_) => "rcode"
    case ValueDiff(_, rtype) => rtype
    case TtlDiff(_, rtype) => rtype + " ttl"
  }

  /** Some diff of the altered copy is printed under the altered key. */
  ghost predicate Reported(zone: Zone, answers: Answers, checkTtl: bool, key: Key)
    requires key in zone.rrsets
  {
    exists d :: IsDiff(Altered(zone, key), answers, checkTtl, d) && d.name == key.0 && TypeText(d) == key.1
  }

  ghost predicate IsFailure(zone: Zone, left: seq<string>, right: seq<string>, ns: string -> set<string>,
                            answers: string -> Answers, checkTtl: bool, key: Key, f: Failure)
    requires key in zone.rrsets
  {
    match f
    case SameProvider(l, r) => l in left && r in right && ns(l) == ns(r)
    case NotCaught(server) => (server in left || server in right) && !Reported(zone, answers(server), checkTtl, key)
  }

  /** `compare`, with the apex NS set and the answers each server gives, and the key the control alters. */
  method Compare(zone: Zone, names: seq<string>, left: seq<string>, right: seq<string>, ns: string -> set<string>,
                 answers: string -> Answers, checkTtl: bool, key: Key)
    returns (diffs: seq<(string, Diff)>, failures: seq<Failure>)
    requires key in zone.rrsets && (forall name :: name in names <==> name in NamesOf(zone))
    requires forall server :: server in left + right ==> Answered(names, answers(server))
    ensures forall server, d :: (server, d) in diffs <==> server in left + right && IsDiff(zone, answers(server), checkTtl, d)
    ensures forall f :: f in failures <==> IsFailure(zone, left, right, ns, answers, checkTtl, key, f)
  {
    hide IsDiff, Reported;
    diffs, failures := [], [];
    for i := 0 to |left|
      invariant forall f :: f in failures <==> f.SameProvider? && f.left in left[..i] && f.right in right && ns(f.left) == ns(f.right)
    {
      assert left[..i + 1] == left[..i] + [left[i]];
      ghost var before := failures;
      for j := 0 to |right|
        invariant forall f :: f in failures <==>
                    f in before || (f.SameProvider? && f.left == left[i] && f.right in right[..j] && ns(f.left) == ns(f.right))
      {
        assert right[..j + 1] == right[..j] + [right[j]];
        if ns(left[i]) == ns(right[j]) {
          failures := failures + [SameProvider(left[i], right[j])];
        }
      }
      assert right[..|right|] == right;
    }
    assert left[..|left|] == left;
    ghost var apart := failures;
    var servers := left + right;
    AlteredNames(zone, key);
    for n := 0 to |servers|
      invariant forall server, d :: (server, d) in diffs <==> server in servers[..n] && IsDiff(zone, answers(server), checkTtl, d)
      invariant forall f :: f in failures <==>
                  f in apart || (f.NotCaught? && f.server in servers[..n] && !Reported(zone, answers(f.server), checkTtl, key))
    {
      var server := servers[n];
      assert servers[..n + 1] == servers[..n] + [server] && server in servers;
      var found := DiffServer(zone, names, answers(server), checkTtl);
      var control := DiffServer(Altered(zone, key), names, answers(server), checkTtl);
      var labelled := Labelled(server, found);
      diffs := diffs + labelled;
      var caught := AnyUnder(control, key);
      assert caught == Reported(zone, answers(server), checkTtl, key) by {
        ReportedIsCaught(zone, answers(server), checkTtl, key, control);
      }
      if !caught {
        failures := failures + [NotCaught(server)];
      }
    }
    assert servers[..|servers|] == servers;
  }

  lemma AlteredNames(zone: Zone, key: Key)
    requires key in zone.rrsets
    ensures NamesOf(Altered(zone, key)) == NamesOf(zone)
  {
    assert Altered(zone, key).rrsets.Keys == zone.rrsets.Keys;
  }

  lemma ReportedIsCaught(zone: Zone, answers: Answers, checkTtl: bool, key: Key, control: seq<Diff>)
    requires key in zone.rrsets
    requires forall d :: d in control <==> IsDiff(Altered(zone, key), answers, checkTtl, d)
    ensures Reported(zone, answers, checkTtl, key) <==> exists k :: 0 <= k < |control| && control[k].name == key.0 && TypeText(control[k]) == key.1
  {
    hide IsDiff;
    if Reported(zone, answers, checkTtl, key) {
      var d :| IsDiff(Altered(zone, key), answers, checkTtl, d) && d.name == key.0 && TypeText(d) == key.1;
      assert d in control;
    }
    if k :| 0 <= k < |control| && control[k].name == key.0 && TypeText(control[k]) == key.1 {
      assert control[k] in control;
    }
  }

  method Labelled(server: string, found: seq<Diff>) returns (labelled: seq<(string, Diff)>)
    ensures forall s, d :: (s, d) in labelled <==> s == server && d in found
  {
    labelled := [];
    for n := 0 to |found|
      invariant forall s, d :: (s, d) in labelled <==> s == server && d in found[..n]
    {
      assert found[..n + 1] == found[..n] + [found[n]];
      labelled := labelled + [(server, found[n])];
    }
    assert found[..|found|] == found;
  }

  predicate AnyUnder(control: seq<Diff>, key: Key) {
    exists k :: 0 <= k < |control| && control[k].name == key.0 && TypeText(control[k]) == key.1
  }

  lemma TtlTextDiffers(d: Diff)
    ensures d.TtlDiff? ==> TypeText(d) != d.rtype
  {
    if d.TtlDiff? {
      assert |TypeText(d)| == |d.rtype| + 4;
    }
  }

  /** Only a diff of values is printed under a probed type: a TTL's label and the rcode's are no type. */
  lemma ProbedTypeIsValues(d: Diff, rtype: string)
    requires rtype in PROBE_TYPES && TypeText(d) == rtype && (d.RcodeDiff? || d.rtype in PROBE_TYPES)
    ensures d == ValueDiff(d.name, rtype)
  {
    TypesAreShort(rtype);
    TtlTextHasBlank(d);
  }

  lemma TtlTextHasBlank(d: Diff)
    ensures d.TtlDiff? ==> ' ' in TypeText(d)
  {
    if d.TtlDiff? {
      assert TypeText(d)[|d.rtype|] == ' ';
    }
  }

  lemma TypesAreShort(rtype: string)
    requires rtype in PROBE_TYPES
    ensures ' ' !in rtype && rtype != "rcode"
  {
  }

  /** Where nothing differs, only the altered value can be printed under the altered key. */
  lemma ReportedIsControl(zone: Zone, answers: Answers, checkTtl: bool, key: Key)
    requires key in zone.rrsets && NoDiffs(zone, answers, checkTtl)
    ensures Reported(zone, answers, checkTtl, key) <==> Caught(Altered(zone, key), answers, checkTtl, key)
  {
    hide ProviderOwned, NamesOf;
    AlteredNames(zone, key);
    assert Altered(zone, key).rrsets.Keys == zone.rrsets.Keys;
    if Reported(zone, answers, checkTtl, key) {
      var d :| IsDiff(Altered(zone, key), answers, checkTtl, d) && d.name == key.0 && TypeText(d) == key.1;
      assert !IsDiff(zone, answers, checkTtl, d);
      TtlTextDiffers(d);
    }
  }

  /**
   What an empty report means: nothing differs and no control fails exactly when every server gives the zone's answers,
   no server of one side serves the apex NS set of a server of the other, and, if there is any server, the altered key
   is one the comparison looks at.
   */
  lemma EmptyReportIsExact(zone: Zone, left: seq<string>, right: seq<string>, ns: string -> set<string>,
                           answers: string -> Answers, checkTtl: bool, key: Key)
    requires key in zone.rrsets
    requires forall server, name, rtype :: server in left + right && name in NamesOf(zone) && rtype in PROBE_TYPES ==>
               (name, rtype) in answers(server)
    ensures (forall server :: server in left + right ==> NoDiffs(zone, answers(server), checkTtl)) &&
            (forall f :: !IsFailure(zone, left, right, ns, answers, checkTtl, key, f)) <==>
            && (forall server :: server in left + right ==> NoDiffs(zone, answers(server), checkTtl))
            && (forall l, r :: l in left && r in right ==> ns(l) != ns(r))
            && (left + right != [] ==> key.1 in PROBE_TYPES && !ProviderOwned(key) && zone.rrsets[key].1 != {SENTINEL})
  {
    hide NoDiffs, Reported, ProviderOwned, NamesOf, Caught;
    if forall server :: server in left + right ==> NoDiffs(zone, answers(server), checkTtl) {
      forall server | server in left + right
        ensures Reported(zone, answers(server), checkTtl, key) <==>
                key.1 in PROBE_TYPES && !ProviderOwned(key) && zone.rrsets[key].1 != {SENTINEL}
      {
        ReportedIsControl(zone, answers(server), checkTtl, key);
        ControlCatches(zone, answers(server), checkTtl, key);
      }
      if forall f :: !IsFailure(zone, left, right, ns, answers, checkTtl, key, f) {
        forall l, r | l in left && r in right
          ensures ns(l) != ns(r)
        {
          assert !IsFailure(zone, left, right, ns, answers, checkTtl, key, SameProvider(l, r));
        }
        if left + right != [] {
          var server := (left + right)[0];
          assert server in left + right;
          assert !IsFailure(zone, left, right, ns, answers, checkTtl, key, NotCaught(server));
        }
      }
    }
  }
}
