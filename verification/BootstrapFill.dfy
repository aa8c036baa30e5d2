/** The variables of the bootstrap configuration: merging the files that set them and filling the references in their values. */
module BootstrapFill {
  import opened Common

  datatype Value = Text(text: string) | List(items: seq<Value>) | Dict(entries: seq<Entry>) | Scalar(id: int)

  datatype Entry = Entry(key: string, value: Value)

  datatype Error = Overlap(name: string, first: string, second: string) | Undefined(name: string) | NotText(name: string) | TemplateLeft

  type Variables = map<string, Value>

  // ---- Merging ----

  datatype Source = Source(owner: string, items: seq<(string, Value)>)

  predicate Sets(source: Source, name: string) {
    exists k :: 0 <= k < |source.items| && source.items[k].0 == name
  }

  /** The items of a dictionary: no name twice. */
  predicate IsDict(source: Source) {
    forall j, k :: 0 <= j < k < |source.items| ==> source.items[j].0 != source.items[k].0
  }

  /** No two sources set the same name. */
  ghost predicate Disjoint(sources: seq<Source>) {
    forall i, j, name :: 0 <= i < j < |sources| ==> !(Sets(sources[i], name) && Sets(sources[j], name))
  }

  ghost predicate SetTo(sources: seq<Source>, name: string, value: Value) {
    exists i, k :: 0 <= i < |sources| && 0 <= k < |sources[i].items| && sources[i].items[k] == (name, value)
  }

  /** The map that holds what the sources set and nothing else. */
  ghost predicate IsUnion(merged: Variables, sources: seq<Source>) {
    forall name, value :: (name in merged && merged[name] == value) <==> SetTo(sources, name, value)
  }

  /** An item is set by an earlier source under the name a later one sets. */
  ghost predicate IsOverlap(sources: seq<Source>, e: Error) {
    e.Overlap? && exists i, j | 0 <= i < j < |sources| ::
      Sets(sources[i], e.name) && Sets(sources[j], e.name) && sources[i].owner == e.first && sources[j].owner == e.second
  }

  /** `merge_variables`: the union of the sources, refused exactly when two of them set one name. */
  method MergeVariables(sources: seq<Source>) returns (r: Result<Variables, Error>)
    requires forall i :: 0 <= i < |sources| ==> IsDict(sources[i])
    ensures r.Ok? <==> Disjoint(sources)
    ensures r.Ok? ==> IsUnion(r.value, sources)
    ensures r.Err? ==> IsOverlap(sources, r.error)
  {
    hide Progress, Disjoint, IsUnion, IsOverlap, IsDict;
    var merged: Variables, owner: map<string, string> := map[], map[];
    ghost var origin: map<string, (nat, nat)> := map[];
    NothingYet(sources);
    for i := 0 to |sources|
      invariant owner.Keys == merged.Keys == origin.Keys && Progress(sources, merged, owner, origin, i, 0)
    {
      for n := 0 to |sources[i].items|
        invariant owner.Keys == merged.Keys == origin.Keys && Progress(sources, merged, owner, origin, i, n)
      {
        var (name, value) := sources[i].items[n];
        if name in merged {
          Clash(sources, merged, owner, origin, i, n);
          return Err(Overlap(name, owner[name], sources[i].owner));
        }
        OneMore(sources, merged, owner, origin, i, n);
        merged, owner, origin := merged[name := value], owner[name := sources[i].owner], origin[name := (i, n)];
      }
      NextSource(sources, merged, owner, origin, i);
    }
    MergedIsUnion(sources, merged, owner, origin);
    return Ok(merged);
  }

  /** Whether item `n` of source `i` comes before item `m` of source `j`. */
  predicate Before(i: nat, n: nat, j: nat, m: nat) {
    i < j || (i == j && n < m)
  }

  ghost predicate ComesFrom(sources: seq<Source>, name: string, value: Value, owner: string, at: (nat, nat)) {
    at.0 < |sources| && at.1 < |sources[at.0].items| && sources[at.0].items[at.1] == (name, value) && owner == sources[at.0].owner
  }

  /** `merged` and `owner` hold the items before item `n` of source `i`; `origin` is where each came from. */
  ghost predicate Progress(sources: seq<Source>, merged: Variables, owner: map<string, string>, origin: map<string, (nat, nat)>, i: nat, n: nat)
    requires owner.Keys == merged.Keys == origin.Keys
  {
    && (forall name :: name in merged ==>
          ComesFrom(sources, name, merged[name], owner[name], origin[name]) && Before(origin[name].0, origin[name].1, i, n))
    && (forall j: nat, k: nat | j < |sources| && k < |sources[j].items| && Before(j, k, i, n) ::
          sources[j].items[k].0 in origin && origin[sources[j].items[k].0] == (j, k))
  }

  lemma NothingYet(sources: seq<Source>)
    ensures Progress(sources, map[], map[], map[], 0, 0)
  {
  }

  lemma OneMore(sources: seq<Source>, merged: Variables, owner: map<string, string>, origin: map<string, (nat, nat)>, i: nat, n: nat)
    requires i < |sources| && n < |sources[i].items| && sources[i].items[n].0 !in merged
    requires owner.Keys == merged.Keys == origin.Keys && Progress(sources, merged, owner, origin, i, n)
    ensures var (name, value) := sources[i].items[n];
            Progress(sources, merged[name := value], owner[name := sources[i].owner], origin[name := (i, n)], i, n + 1)
  {
  }

  lemma NextSource(sources: seq<Source>, merged: Variables, owner: map<string, string>, origin: map<string, (nat, nat)>, i: nat)
    requires i < |sources|
    requires owner.Keys == merged.Keys == origin.Keys && Progress(sources, merged, owner, origin, i, |sources[i].items|)
    ensures Progress(sources, merged, owner, origin, i + 1, 0)
  {
  }

  lemma Clash(sources: seq<Source>, merged: Variables, owner: map<string, string>, origin: map<string, (nat, nat)>, i: nat, n: nat)
    requires i < |sources| && n < |sources[i].items| && IsDict(sources[i]) && sources[i].items[n].0 in merged
    requires owner.Keys == merged.Keys == origin.Keys && Progress(sources, merged, owner, origin, i, n)
    ensures var name := sources[i].items[n].0;
            IsOverlap(sources, Overlap(name, owner[name], sources[i].owner)) && !Disjoint(sources)
  {
    var name := sources[i].items[n].0;
    var (j, k) := origin[name];
    assert ComesFrom(sources, name, merged[name], owner[name], origin[name]);
    assert Sets(sources[j], name) && Sets(sources[i], name);
  }

  lemma MergedIsUnion(sources: seq<Source>, merged: Variables, owner: map<string, string>, origin: map<string, (nat, nat)>)
    requires owner.Keys == merged.Keys == origin.Keys && Progress(sources, merged, owner, origin, |sources|, 0)
    ensures Disjoint(sources) && IsUnion(merged, sources)
  {
    forall i: nat, name | i < |sources| && Sets(sources[i], name)
      ensures name in origin && origin[name].0 == i
    {
      var k: nat :| k < |sources[i].items| && sources[i].items[k].0 == name;
      assert Before(i, k, |sources|, 0);
    }
    forall name, value
      ensures (name in merged && merged[name] == value) <==> SetTo(sources, name, value)
    {
      if name in merged {
        assert ComesFrom(sources, name, merged[name], owner[name], origin[name]);
      }
      if SetTo(sources, name, value) {
        var i: nat, k: nat :| i < |sources| && k < |sources[i].items| && sources[i].items[k] == (name, value);
        assert Before(i, k, |sources|, 0);
      }
    }
  }

  predicate Hits(order: seq<nat>, i: nat) {
    exists k :: 0 <= k < |order| && order[k] == i
  }

  /** `order` lists every index below `n` exactly once. */
  ghost predicate IsOrder(order: seq<nat>, n: nat) {
    && |order| == n
    && (forall k :: 0 <= k < n ==> order[k] < n)
    && (forall j, k :: 0 <= j < k < n ==> order[j] != order[k])
    && (forall i :: 0 <= i < n ==> Hits(order, i))
  }

  /** The order of the files makes no difference: another order is refused alike and merges to the same map. */
  lemma MergeIgnoresOrder(sources: seq<Source>, others: seq<Source>, order: seq<nat>)
    requires IsOrder(order, |sources|) && |others| == |sources|
    requires forall k :: 0 <= k < |others| ==> others[k] == sources[order[k]]
    ensures Disjoint(sources) <==> Disjoint(others)
    ensures forall one, other :: IsUnion(one, sources) && IsUnion(other, others) ==> one == other
  {
    if Disjoint(sources) {
      forall i, j, name | 0 <= i < j < |others|
        ensures !(Sets(others[i], name) && Sets(others[j], name))
      {
        var a, b := order[i], order[j];
        assert a != b && others[i] == sources[a] && others[j] == sources[b];
        assert if a < b then !(Sets(sources[a], name) && Sets(sources[b], name)) else !(Sets(sources[b], name) && Sets(sources[a], name));
      }
    }
    if Disjoint(others) {
      forall i, j, name | 0 <= i < j < |sources|
        ensures !(Sets(sources[i], name) && Sets(sources[j], name))
      {
        assert Hits(order, i) && Hits(order, j);
        var a :| 0 <= a < |sources| && order[a] == i;
        var b :| 0 <= b < |sources| && order[b] == j;
        assert if a < b then !(Sets(others[a], name) && Sets(others[b], name)) else !(Sets(others[b], name) && Sets(others[a], name));
      }
    }
    forall name, value
      ensures SetTo(sources, name, value) <==> SetTo(others, name, value)
    {
      if i, k :| 0 <= i < |sources| && 0 <= k < |sources[i].items| && sources[i].items[k] == (name, value) {
        assert Hits(order, i);
        var a :| 0 <= a < |sources| && order[a] == i;
        assert others[a].items[k] == (name, value);
      }
    }
    forall one, other | IsUnion(one, sources) && IsUnion(other, others)
      ensures one == other
    {
      forall name
        ensures name in one <==> name in other
        ensures name in one ==> one[name] == other[name]
      {
        if name in one { assert SetTo(sources, name, one[name]); }
        if name in other { assert SetTo(others, name, other[name]); }
      }
    }
  }

  // ---- Filling ----

  const FILL_DEPTH := 3

  predicate IsNameChar(c: char) {
    'a' <= c <= 'z' || c == '_'
  }

  predicate IsName(s: string) {
    s != "" && forall i :: 0 <= i < |s| ==> IsNameChar(s[i])
  }

  /** `TEMPLATE_MARK`: a brace that opens an expression, a statement or a comment. */
  predicate HasMark(s: string) {
    exists i :: 0 <= i < |s| - 1 && s[i] == '{' && s[i + 1] in ['{', '%', '#']
  }

  function Reference(name: string): string {
    "{{ " + name + " }}"
  }

  /** The longest run of name characters at the start of `s`. */
  function NameRun(s: string): (n: nat)
    ensures n <= |s| && forall i :: 0 <= i < n ==> IsNameChar(s[i])
    ensures n < |s| ==> !IsNameChar(s[n])
  {
    if s != "" && IsNameChar(s[0]) then 1 + NameRun(s[1..]) else 0
  }

  /** The name of the reference `s` starts with, when it starts with one. */
  function ReferenceAt(s: string): (r: Option<string>)
    ensures r.Some? ==> IsName(r.value) && Reference(r.value) <= s
  {
    if !("{{ " <= s) then None
    else
      var n := NameRun(s[3..]);
      var name := s[3..3 + n];
      if n > 0 && " }}" <= s[3 + n..] then
        assert s == "{{ " + name + s[3 + n..] && s[3 + n..] == " }}" + s[3 + n..][3..];
        Some(name)
      else None
  }

  /** `named`: the text of the variable a reference names. */
  function Named(name: string, vars: Variables): Result<string, Error> {
    if name !in vars then Err(Undefined(name))
    else if vars[name].Text? then Ok(vars[name].text)
    else Err(NotText(name))
  }

  function Prepend(s: string, rest: Result<string, Error>): Result<string, Error> {
    if rest.Ok? then Ok(s + rest.value) else rest
  }

  /** `REFERENCE.sub`: every reference, left to right, replaced with its variable's text. */
  function Sub(s: string, vars: Variables): Result<string, Error>
    decreases |s|
  {
    if s == "" then Ok("")
    else
      var name := ReferenceAt(s);
      if name.None? then Prepend([s[0]], Sub(s[1..], vars))
      else
        var text := Named(name.value, vars);
        if text.Err? then text else Prepend(text.value, Sub(s[|Reference(name.value)|..], vars))
  }

  /** `n` rounds of filling. */
  function Rounds(s: string, vars: Variables, n: nat): Result<string, Error>
    decreases n
  {
    if n == 0 then Ok(s)
    else
      var once := Sub(s, vars);
      if once.Err? then once else Rounds(once.value, vars, n - 1)
  }

  /** What `n` rounds of filling come to: refused when a template remains. */
  function FilledIn(s: string, vars: Variables, n: nat): Result<string, Error> {
    var last := Rounds(s, vars, n);
    if last.Ok? && HasMark(last.value) then Err(TemplateLeft) else last
  }

  /** What filling a text comes to. */
  function Filled(s: string, vars: Variables): Result<string, Error> {
    FilledIn(s, vars, FILL_DEPTH)
  }

  /** A text starts with a reference exactly when it starts with a name of lower-case letters and underscores between `{{ ` and ` }}`. */
  lemma ReferenceIsExact(s: string, name: string)
    ensures ReferenceAt(s) == Some(name) <==>
            && name != "" && (forall c :: c in name ==> c == '_' || 97 <= c as int <= 122)
            && exists rest :: s == "{{ " + name + (" }}" + rest)
  {
    if ReferenceAt(s) == Some(name) {
      var after := s[|Reference(name)|..];
      assert s == Reference(name) + after == "{{ " + name + (" }}" + after);
    }
    if rest :| s == "{{ " + name + (" }}" + rest) {
      var tail := name + (" }}" + rest);
      assert s == "{{ " + tail;
      assert s[..3] == "{{ " && s[3..] == tail && tail[|name|..] == " }}" + rest;
      if name != "" && forall c :: c in name ==> c == '_' || 97 <= c as int <= 122 {
        assert forall i :: 0 <= i < |name| ==> name[i] in name && tail[i] == name[i];
        RunOfName(name, " }}" + rest);
      }
    }
  }

  lemma {:induction false} RunOfName(name: string, rest: string)
    requires (forall i :: 0 <= i < |name| ==> IsNameChar(name[i])) && rest != "" && !IsNameChar(rest[0])
    ensures NameRun(name + rest) == |name|
  {
    if name == "" {
      assert name + rest == rest;
    } else {
      assert (name + rest)[1..] == name[1..] + rest;
      RunOfName(name[1..], rest);
    }
  }

  /** What a reference to a name comes to: its variable's text, or a refusal that tells a name that is not set from one that is no text. */
  lemma NamedIsExact(name: string, vars: Variables, text: string)
    ensures Named(name, vars) == Ok(text) <==> name in vars && vars[name] == Text(text)
    ensures Named(name, vars) == Err(Undefined(name)) <==> name !in vars
    ensures Named(name, vars) == Err(NotText(name)) <==> name in vars && !vars[name].Text?
  {
  }

  /** A round that is refused is refused at the first reference that has no text: those before it are replaced. */
  lemma {:induction false} RefusedAtReference(s: string, vars: Variables) returns (i: nat, name: string)
    requires Sub(s, vars).Err?
    ensures i < |s| && ReferenceAt(s[i..]) == Some(name) && Named(name, vars) == Sub(s, vars)
    decreases |s|
  {
    var first := ReferenceAt(s);
    if first.Some? && Named(first.value, vars).Err? {
      i, name := 0, first.value;
      assert s[0..] == s;
    } else {
      var size := if first.Some? then |Reference(first.value)| else 1;
      var j, found := RefusedAtReference(s[size..], vars);
      i, name := size + j, found;
      assert s[size..][j..] == s[i..];
    }
  }

  /** Text without a template is left alone. */
  lemma {:induction false} SubOfPlain(s: string, vars: Variables)
    requires !HasMark(s)
    ensures Sub(s, vars) == Ok(s)
  {
    if s != "" {
      if ReferenceAt(s).Some? {
        ReferenceIsMark(s);
      }
      if HasMark(s[1..]) {
        MarkInTail(s);
      }
      SubOfPlain(s[1..], vars);
      assert s == [s[0]] + s[1..];
    }
  }

  lemma ReferenceIsMark(s: string)
    requires ReferenceAt(s).Some?
    ensures HasMark(s)
  {
    assert s[0] == "{{ "[0] && s[0 + 1] == "{{ "[1];
  }

  lemma MarkInTail(s: string)
    requires s != "" && HasMark(s[1..])
    ensures HasMark(s)
  {
    var i :| 0 <= i < |s[1..]| - 1 && s[1..][i] == '{' && s[1..][i + 1] in ['{', '%', '#'];
    assert s[i + 1] == '{' && s[i + 1 + 1] in ['{', '%', '#'];
  }

  lemma {:induction false} RoundsOfFixed(s: string, vars: Variables, n: nat)
    requires Sub(s, vars) == Ok(s)
    ensures Rounds(s, vars, n) == Ok(s)
  {
    if n > 0 {
      RoundsOfFixed(s, vars, n - 1);
    }
  }

  /** `fill` of a text: its early exits change nothing. */
  method FillText(value: string, vars: Variables) returns (r: Result<string, Error>)
    ensures r == Filled(value, vars)
  {
    var text := value;
    for n := 0 to FILL_DEPTH
      invariant Rounds(value, vars, FILL_DEPTH) == Rounds(text, vars, FILL_DEPTH - n)
    {
      if !HasMark(text) {
        SubOfPlain(text, vars);
        RoundsOfFixed(text, vars, FILL_DEPTH - n);
        return Ok(text);
      }
      var filled := Sub(text, vars);
      if filled.Err? {
        return filled;
      }
      if filled.value == text {
        RoundsOfFixed(text, vars, FILL_DEPTH - n);
        break;
      }
      text := filled.value;
    }
    if HasMark(text) {
      return Err(TemplateLeft);
    }
    return Ok(text);
  }

  /** `fill`: a list or dictionary is filled inside, a dictionary's keys are kept, and anything but text is passed on. */
  function Fill(value: Value, vars: Variables): Result<Value, Error>
    decreases value, 0
  {
    match value
    case Text(s) => (var t := Filled(s, vars); if t.Ok? then Ok(Text(t.value)) else Err(t.error))
    case List(items) => (var r := FillItems(items, vars, |items|); if r.Ok? then Ok(List(r.value)) else Err(r.error))
    case Dict(entries) => (var r := FillEntries(entries, vars, |entries|); if r.Ok? then Ok(Dict(r.value)) else Err(r.error))
    case Scalar(_) => Ok(value)
  }

  function FillItems(items: seq<Value>, vars: Variables, n: nat): (r: Result<seq<Value>, Error>)
    requires n <= |items|
    ensures r.Ok? ==> |r.value| == n
    decreases items, n
  {
    if n == 0 then Ok([])
    else
      var before := FillItems(items, vars, n - 1);
      if before.Err? then before
      else
        var item := Fill(items[n - 1], vars);
        if item.Ok? then Ok(before.value + [item.value]) else Err(item.error)
  }

  function FillEntries(entries: seq<Entry>, vars: Variables, n: nat): (r: Result<seq<Entry>, Error>)
    requires n <= |entries|
    ensures r.Ok? ==> |r.value| == n
    decreases entries, n
  {
    if n == 0 then Ok([])
    else
      var before := FillEntries(entries, vars, n - 1);
      if before.Err? then before
      else
        var item := Fill(entries[n - 1].value, vars);
        if item.Ok? then Ok(before.value + [Entry(entries[n - 1].key, item.value)]) else Err(item.error)
  }

  /** `r` is the value with each of its texts filled, and its shape, its keys and anything that is no text as they were. */
  predicate IsFillOf(value: Value, r: Value, vars: Variables)
    decreases value
  {
    match value
    case Text(s) => r.Text? && Filled(s, vars) == Ok(r.text)
    case List(items) => r.List? && |r.items| == |items| && forall k :: 0 <= k < |items| ==> IsFillOf(items[k], r.items[k], vars)
    case Dict(entries) =>
      r.Dict? && |r.entries| == |entries| &&
      forall k :: 0 <= k < |entries| ==> r.entries[k].key == entries[k].key && IsFillOf(entries[k].value, r.entries[k].value, vars)
    case Scalar(_) => r == value
  }

  /** Filling a value fills each of its texts and changes nothing else. */
  lemma {:induction false} FillIsExact(value: Value, r: Value, vars: Variables)
    ensures Fill(value, vars) == Ok(r) <==> IsFillOf(value, r, vars)
    decreases value, 0
  {
    hide Filled;
    match value {
      case Text(_) =>
      case Scalar(_) =>
      case List(items) =>
        if r.List? && |r.items| == |items| {
          FillItemsIsExact(items, r.items, vars, |items|);
          assert r.items[..|items|] == r.items;
        }
      case Dict(entries) =>
        if r.Dict? && |r.entries| == |entries| {
          FillEntriesIsExact(entries, r.entries, vars, |entries|);
          assert r.entries[..|entries|] == r.entries;
        }
    }
  }

  lemma {:induction false} FillItemsIsExact(items: seq<Value>, r: seq<Value>, vars: Variables, n: nat)
    requires n <= |items| == |r|
    ensures FillItems(items, vars, n) == Ok(r[..n]) <==> forall k :: 0 <= k < n ==> IsFillOf(items[k], r[k], vars)
    decreases items, n
  {
    hide IsFillOf;
    if n > 0 {
      FillItemsIsExact(items, r, vars, n - 1);
      FillIsExact(items[n - 1], r[n - 1], vars);
      assert r[..n] == r[..n - 1] + [r[n - 1]];
      assert forall a: seq<Value>, x :: a + [x] == r[..n] ==> a == (a + [x])[..n - 1] && x == (a + [x])[n - 1];
    }
  }

  lemma {:induction false} FillEntriesIsExact(entries: seq<Entry>, r: seq<Entry>, vars: Variables, n: nat)
    requires n <= |entries| == |r|
    ensures FillEntries(entries, vars, n) == Ok(r[..n]) <==>
            forall k :: 0 <= k < n ==> r[k].key == entries[k].key && IsFillOf(entries[k].value, r[k].value, vars)
    decreases entries, n
  {
    hide IsFillOf;
    if n > 0 {
      FillEntriesIsExact(entries, r, vars, n - 1);
      FillIsExact(entries[n - 1].value, r[n - 1].value, vars);
      assert r[..n] == r[..n - 1] + [r[n - 1]];
      assert forall a: seq<Entry>, x :: a + [x] == r[..n] ==> a == (a + [x])[..n - 1] && x == (a + [x])[n - 1];
      assert r[n - 1] == Entry(r[n - 1].key, r[n - 1].value);
    }
  }

  /** A value is refused for one of its texts, with that text's own refusal. */
  lemma {:induction false} RefusedForText(value: Value, vars: Variables) returns (s: string)
    requires Fill(value, vars).Err?
    ensures HoldsText(value, s) && Filled(s, vars) == Err(Fill(value, vars).error)
    decreases value, 0
  {
    hide Filled;
    match value {
      case Text(text) => s := text;
      case List(items) =>
        var k := RefusedItem(items, vars, |items|);
        s := RefusedForText(items[k], vars);
      case Dict(entries) =>
        var k := RefusedEntry(entries, vars, |entries|);
        s := RefusedForText(entries[k].value, vars);
    }
  }

  /** The text is the value or stands somewhere inside it, keys aside. */
  predicate HoldsText(value: Value, s: string)
    decreases value
  {
    match value
    case Text(text) => text == s
    case List(items) => exists k :: 0 <= k < |items| && HoldsText(items[k], s)
    case Dict(entries) => exists k :: 0 <= k < |entries| && HoldsText(entries[k].value, s)
    case Scalar(_) => false
  }

  /** The first item that is refused gives the list's refusal. */
  lemma {:induction false} RefusedItem(items: seq<Value>, vars: Variables, n: nat) returns (k: nat)
    requires n <= |items| && FillItems(items, vars, n).Err?
    ensures k < n && Fill(items[k], vars) == Err(FillItems(items, vars, n).error) && forall j :: 0 <= j < k ==> Fill(items[j], vars).Ok?
  {
    if FillItems(items, vars, n - 1).Err? {
      k := RefusedItem(items, vars, n - 1);
    } else {
      k := n - 1;
      AcceptedItems(items, vars, k);
    }
  }

  lemma {:induction false} AcceptedItems(items: seq<Value>, vars: Variables, n: nat)
    requires n <= |items| && FillItems(items, vars, n).Ok?
    ensures forall j :: 0 <= j < n ==> Fill(items[j], vars).Ok?
  {
    if n > 0 {
      AcceptedItems(items, vars, n - 1);
    }
  }

  lemma {:induction false} RefusedEntry(entries: seq<Entry>, vars: Variables, n: nat) returns (k: nat)
    requires n <= |entries| && FillEntries(entries, vars, n).Err?
    ensures k < n && Fill(entries[k].value, vars) == Err(FillEntries(entries, vars, n).error)
    ensures forall j :: 0 <= j < k ==> Fill(entries[j].value, vars).Ok?
  {
    if FillEntries(entries, vars, n - 1).Err? {
      k := RefusedEntry(entries, vars, n - 1);
    } else {
      k := n - 1;
      AcceptedEntries(entries, vars, k);
    }
  }

  lemma {:induction false} AcceptedEntries(entries: seq<Entry>, vars: Variables, n: nat)
    requires n <= |entries| && FillEntries(entries, vars, n).Ok?
    ensures forall j :: 0 <= j < n ==> Fill(entries[j].value, vars).Ok?
  {
    if n > 0 {
      AcceptedEntries(entries, vars, n - 1);
    }
  }

  /** No text of the value, a dictionary's keys aside, holds a template. */
  predicate TemplateFree(value: Value) {
    match value
    case Text(s) => !HasMark(s)
    case List(items) => forall k :: 0 <= k < |items| ==> TemplateFree(items[k])
    case Dict(entries) => forall k :: 0 <= k < |entries| ==> TemplateFree(entries[k].value)
    case Scalar(_) => true
  }

  /** What filling a value returns holds no template outside its keys, and filling it again changes nothing. */
  lemma {:induction false} FilledIsTemplateFree(value: Value, vars: Variables)
    requires Fill(value, vars).Ok?
    ensures TemplateFree(Fill(value, vars).value)
    ensures Fill(Fill(value, vars).value, vars) == Fill(value, vars)
    decreases value, 0
  {
    match value {
      case Text(_) =>
      case Scalar(_) =>
      case List(items) => FilledItemsAreTemplateFree(items, vars, |items|);
      case Dict(entries) => FilledEntriesAreTemplateFree(entries, vars, |entries|);
    }
    TemplateFreeIsKept(Fill(value, vars).value, vars);
  }

  lemma {:induction false} FilledItemsAreTemplateFree(items: seq<Value>, vars: Variables, n: nat)
    requires n <= |items| && FillItems(items, vars, n).Ok?
    ensures forall k :: 0 <= k < n ==> Fill(items[k], vars) == Ok(FillItems(items, vars, n).value[k])
    ensures forall k :: 0 <= k < n ==> TemplateFree(FillItems(items, vars, n).value[k])
    decreases items, n
  {
    hide Filled, TemplateFree;
    if n > 0 {
      FilledItemsAreTemplateFree(items, vars, n - 1);
      FilledIsTemplateFree(items[n - 1], vars);
    }
  }

  lemma {:induction false} FilledEntriesAreTemplateFree(entries: seq<Entry>, vars: Variables, n: nat)
    requires n <= |entries| && FillEntries(entries, vars, n).Ok?
    ensures forall k :: 0 <= k < n ==> FillEntries(entries, vars, n).value[k].key == entries[k].key
    ensures forall k :: 0 <= k < n ==> Fill(entries[k].value, vars) == Ok(FillEntries(entries, vars, n).value[k].value)
    ensures forall k :: 0 <= k < n ==> TemplateFree(FillEntries(entries, vars, n).value[k].value)
    decreases entries, n
  {
    hide Filled, TemplateFree;
    if n > 0 {
      FilledEntriesAreTemplateFree(entries, vars, n - 1);
      FilledIsTemplateFree(entries[n - 1].value, vars);
    }
  }

  /** A value with no template is passed on as it is. */
  lemma {:induction false} TemplateFreeIsKept(value: Value, vars: Variables)
    requires TemplateFree(value)
    ensures Fill(value, vars) == Ok(value)
    decreases value, 0
  {
    match value
    case Scalar(_) =>
    case Text(s) =>
      SubOfPlain(s, vars);
      RoundsOfFixed(s, vars, FILL_DEPTH);
    case List(items) =>
      TemplateFreeItemsAreKept(items, vars, |items|);
      assert items[..|items|] == items;
    case Dict(entries) =>
      TemplateFreeEntriesAreKept(entries, vars, |entries|);
      assert entries[..|entries|] == entries;
  }

  lemma {:induction false} TemplateFreeItemsAreKept(items: seq<Value>, vars: Variables, n: nat)
    requires n <= |items| && forall k :: 0 <= k < |items| ==> TemplateFree(items[k])
    ensures FillItems(items, vars, n) == Ok(items[..n])
    decreases items, n
  {
    if n > 0 {
      TemplateFreeItemsAreKept(items, vars, n - 1);
      TemplateFreeIsKept(items[n - 1], vars);
      assert items[..n] == items[..n - 1] + [items[n - 1]];
    }
  }

  lemma {:induction false} TemplateFreeEntriesAreKept(entries: seq<Entry>, vars: Variables, n: nat)
    requires n <= |entries| && forall k :: 0 <= k < |entries| ==> TemplateFree(entries[k].value)
    ensures FillEntries(entries, vars, n) == Ok(entries[..n])
    decreases entries, n
  {
    if n > 0 {
      TemplateFreeEntriesAreKept(entries, vars, n - 1);
      TemplateFreeIsKept(entries[n - 1].value, vars);
      assert entries[..n] == entries[..n - 1] + [Entry(entries[n - 1].key, entries[n - 1].value)];
    }
  }

  /** No key of a dictionary holds a template, at any depth. */
  predicate PlainKeys(value: Value) {
    match value
    case Text(_) => true
    case Scalar(_) => true
    case List(items) => forall k :: 0 <= k < |items| ==> PlainKeys(items[k])
    case Dict(entries) => forall k :: 0 <= k < |entries| ==> !HasMark(entries[k].key) && PlainKeys(entries[k].value)
  }

  /**
   Dictionaries' keys are neither filled nor refused: what filling returns is free of templates, keys included, if and
   only if no key of the value, at any depth, held one.
   */
  lemma {:induction false} TemplatedKeysArePassedOn(value: Value, vars: Variables)
    requires Fill(value, vars).Ok?
    ensures var filled := Fill(value, vars).value;
            TemplateFree(filled) && PlainKeys(filled) <==> PlainKeys(value)
  {
    FilledIsTemplateFree(value, vars);
    KeysAreKept(value, vars);
  }

  lemma {:induction false} KeysAreKept(value: Value, vars: Variables)
    requires Fill(value, vars).Ok?
    ensures PlainKeys(Fill(value, vars).value) <==> PlainKeys(value)
    decreases value
  {
    match value
    case Text(_) =>
    case Scalar(_) =>
    case List(items) =>
      FilledItemsAreTemplateFree(items, vars, |items|);
      forall k | 0 <= k < |items|
        ensures PlainKeys(Fill(value, vars).value.items[k]) <==> PlainKeys(items[k])
      {
        KeysAreKept(items[k], vars);
      }
    case Dict(entries) =>
      FilledEntriesAreTemplateFree(entries, vars, |entries|);
      forall k | 0 <= k < |entries|
        ensures PlainKeys(Fill(value, vars).value.entries[k].value) <==> PlainKeys(entries[k].value)
      {
        KeysAreKept(entries[k].value, vars);
      }
  }

  /** A value that is passed on with a template in it: a dictionary with one, as any reference, for a key. */
  lemma TemplatedKeyIsPassedOn(name: string, vars: Variables)
    ensures var value := Dict([Entry(Reference(name), Scalar(0))]);
            Fill(value, vars) == Ok(value) && !PlainKeys(value)
  {
    assert Reference(name)[0] == '{' && Reference(name)[0 + 1] == '{';
    var value := Dict([Entry(Reference(name), Scalar(0))]);
    assert value.entries[0].key == Reference(name) && TemplateFree(value);
    TemplateFreeIsKept(value, vars);
  }
}
