/** Which test shards a set of changed files calls for: a closure over references, with "every shard" above every set. */
module CiSelect {
  import opened Common

  const SKELETON := "ansible/role_skeleton"

  const EVERY_SHARD := [
    "ansible/harness/", "ansible/checks/ci_select.py", "ansible/checks/check_pins.py", "ansible/checks/pip-requirements.txt",
    "ansible/pyproject.toml", "ansible/requirements.in", "ansible/requirements.txt", "ansible/requirements.yml",
    ".ansible-lint", ".yamllint", ".github/workflows/ansible.yml"
  ]

  const LINT_ONLY := [
    "ansible/README.md", "ansible/checks/", "ansible/inventories/", "ansible/playbooks/", "ansible/tools/", "ansible/trust/"
  ]

  /**
   What the scans of the repository give: the units that read each path outside ansible/, the units that run when a unit
   changes, and whether some reference could not be mapped.
   */
  datatype Tree = Tree(readers: map<string, set<string>>, references: map<string, set<string>>, unresolved: bool)

  // ---- One changed path ----

  /** `inside`: the path is an entry, or lies under one that ends in a slash. */
  predicate Inside(path: string, entries: seq<string>) {
    exists k :: 0 <= k < |entries| && Names(entries[k], path)
  }

  predicate Names(entry: string, path: string) {
    if entry != "" && entry[|entry| - 1] == '/' then entry <= path else path == entry
  }

  function FirstSlash(s: string): (n: nat)
    ensures n <= |s| && '/' !in s[..n] && (n < |s| ==> s[n] == '/')
  {
    if s == "" || s[0] == '/' then 0 else 1 + FirstSlash(s[1..])
  }

  /** The role or pattern directory a path lies in, under one of the two groups. */
  function UnitUnder(group: string, path: string): Option<string> {
    if !(group <= path) then None
    else
      var n := FirstSlash(path[|group|..]);
      if 0 < n < |path| - |group| then Some(path[..|group| + n]) else None
  }

  /** `UNIT.match`. */
  function UnitOf(path: string): Option<string> {
    var role := UnitUnder("ansible/roles/", path);
    if role.Some? then role else UnitUnder("ansible/patterns/", path)
  }

  /** A path lies in a unit exactly when it names something inside a directory directly under one of the two groups. */
  lemma UnitIsTheDirectory(path: string, unit: string)
    ensures UnitOf(path) == Some(unit) <==>
            exists name, rest :: && name != "" && '/' !in name && path == unit + "/" + rest
                                 && (unit == "ansible/roles/" + name || unit == "ansible/patterns/" + name)
  {
    var roles, patterns := "ansible/roles/", "ansible/patterns/";
    UnitUnderIsExact(roles, path, unit);
    UnitUnderIsExact(patterns, path, unit);
    assert roles <= path && patterns <= path ==> roles[8] == path[8] == patterns[8];
    hide UnitUnder, LiesIn;
  }

  /** The path is inside the unit, which is one directory of the group. */
  ghost predicate LiesIn(group: string, path: string, unit: string) {
    exists name, rest :: name != "" && '/' !in name && unit == group + name && path == unit + "/" + rest
  }

  lemma UnitUnderIsExact(group: string, path: string, unit: string)
    ensures UnitUnder(group, path) == Some(unit) <==> LiesIn(group, path, unit)
    ensures UnitUnder(group, path).Some? ==> group <= path
    ensures LiesIn(group, path, unit) ==> group <= path
  {
    if group <= path {
      var tail := path[|group|..];
      var n := FirstSlash(tail);
      if UnitUnder(group, path) == Some(unit) {
        var name, rest := tail[..n], tail[n + 1..];
        assert unit == group + name;
        assert path == unit + "/" + rest;
      }
    }
    if name: string, rest: string :| name != "" && '/' !in name && unit == group + name && path == unit + "/" + rest {
      assert path == group + (name + "/" + rest);
      var tail := path[|group|..];
      assert tail == name + "/" + rest;
      FirstSlashAfter(name, rest);
      assert path[..|group| + |name|] == unit;
    }
  }

  lemma {:induction false} FirstSlashAfter(name: string, rest: string)
    requires '/' !in name
    ensures FirstSlash(name + "/" + rest) == |name|
  {
    var text := name + "/" + rest;
    if name != "" {
      assert text[1..] == name[1..] + "/" + rest;
      FirstSlashAfter(name[1..], rest);
    }
  }

  /** A change to the path runs every shard. */
  predicate RunsEverything(path: string) {
    Inside(path, EVERY_SHARD) ||
    (UnitOf(path).None? && !("ansible/role_skeleton/" <= path) && "ansible/" <= path && !Inside(path, LINT_ONLY))
  }

  predicate IsInUnit(path: string) {
    UnitOf(path).Some?
  }

  /** The files every role is held to, and whatever else is under ansible/ in no unit, not in the skeleton and not only linted. */
  lemma RunsEverythingIsExact(path: string)
    ensures RunsEverything(path) <==>
            || "ansible/harness/" <= path
            || path in {"ansible/checks/ci_select.py", "ansible/checks/check_pins.py", "ansible/checks/pip-requirements.txt",
                        "ansible/pyproject.toml", "ansible/requirements.in", "ansible/requirements.txt", "ansible/requirements.yml",
                        ".ansible-lint", ".yamllint", ".github/workflows/ansible.yml"}
            || ("ansible/" <= path && !IsInUnit(path) && !("ansible/role_skeleton/" <= path) &&
                path != "ansible/README.md" && !("ansible/checks/" <= path) && !("ansible/inventories/" <= path) &&
                !("ansible/playbooks/" <= path) && !("ansible/tools/" <= path) && !("ansible/trust/" <= path))
  {
    EveryShardIsListed(path);
    LintOnlyIsListed(path);
    hide Inside, UnitOf;
  }

  lemma EveryShardIsListed(path: string)
    ensures Inside(path, EVERY_SHARD) <==>
            || "ansible/harness/" <= path
            || path in {"ansible/checks/ci_select.py", "ansible/checks/check_pins.py", "ansible/checks/pip-requirements.txt",
                        "ansible/pyproject.toml", "ansible/requirements.in", "ansible/requirements.txt", "ansible/requirements.yml",
                        ".ansible-lint", ".yamllint", ".github/workflows/ansible.yml"}
  {
    var e := EVERY_SHARD;
    assert e[0] == "ansible/harness/" && |e| == 11;
    assert Inside(path, e) <==> Names(e[0], path) || path in e[1..] by {
      forall k | 1 <= k < |e|
        ensures Names(e[k], path) <==> path == e[k]
      {
      }
      assert forall k :: 1 <= k < |e| ==> e[1..][k - 1] == e[k];
    }
  }

  lemma LintOnlyIsListed(path: string)
    ensures Inside(path, LINT_ONLY) <==>
            || path == "ansible/README.md" || "ansible/checks/" <= path || "ansible/inventories/" <= path
            || "ansible/playbooks/" <= path || "ansible/tools/" <= path || "ansible/trust/" <= path
  {
    var e := LINT_ONLY;
    assert |e| == 6 && e[0] == "ansible/README.md" && e[1] == "ansible/checks/" && e[2] == "ansible/inventories/";
    assert e[3] == "ansible/playbooks/" && e[4] == "ansible/tools/" && e[5] == "ansible/trust/";
    assert Inside(path, e) <==> Names(e[0], path) || Names(e[1], path) || Names(e[2], path) || Names(e[3], path) || Names(e[4], path) || Names(e[5], path);
  }

  predicate IsOutside(path: string) {
    UnitOf(path).None? && !("ansible/" <= path)
  }

  predicate Reads(read: string, path: string) {
    path == read || read + "/" <= path
  }

  /** The units a changed path calls for by itself. */
  ghost predicate Seeds(tree: Tree, path: string, u: string) {
    if UnitOf(path).Some? then u == UnitOf(path).value
    else if "ansible/role_skeleton/" <= path then u == SKELETON
    else IsOutside(path) && exists read :: read in tree.readers && Reads(read, path) && u in tree.readers[read]
  }

  /** What a changed path calls for by itself: its unit, the skeleton, or the units that read it or a directory above it. */
  lemma SeedsAreExact(tree: Tree, path: string, u: string)
    ensures Seeds(tree, path, u) <==>
            || UnitOf(path) == Some(u)
            || (!IsInUnit(path) && "ansible/role_skeleton/" <= path && u == "ansible/role_skeleton")
            || (!("ansible/" <= path) && exists read :: read in tree.readers && u in tree.readers[read] &&
                                                        (path == read || exists rest :: path == read + "/" + rest))
  {
    UnitIsUnderAnsible(path);
    SkeletonIsInside(path);
    forall read
      ensures Reads(read, path) <==> path == read || exists rest :: path == read + "/" + rest
    {
      ReadsIsExact(read, path);
    }
    hide UnitOf, Reads;
  }

  lemma UnitIsUnderAnsible(path: string)
    ensures IsInUnit(path) ==> "ansible/" <= path
  {
    var roles, patterns := "ansible/roles/", "ansible/patterns/";
    assert roles[..8] == "ansible/" && patterns[..8] == "ansible/";
    if UnitOf(path).Some? {
      UnitUnderIsExact(roles, path, UnitOf(path).value);
      UnitUnderIsExact(patterns, path, UnitOf(path).value);
    }
  }

  lemma ReadsIsExact(read: string, path: string)
    ensures Reads(read, path) <==> path == read || exists rest :: path == read + "/" + rest
  {
    if read + "/" <= path {
      assert path == read + "/" + path[|read| + 1..];
    }
  }

  ghost predicate IsSeed(tree: Tree, changed: seq<string>, u: string) {
    exists k :: 0 <= k < |changed| && Seeds(tree, changed[k], u)
  }

  // ---- The closure ----

  function Dependents(references: map<string, set<string>>, u: string): set<string> {
    if u in references then references[u] else {}
  }

  ghost predicate Closed(s: set<string>, references: map<string, set<string>>) {
    forall u, d :: u in s && d in Dependents(references, u) ==> d in s
  }

  ghost predicate HoldsSeeds(tree: Tree, changed: seq<string>, s: set<string>) {
    forall u :: IsSeed(tree, changed, u) ==> u in s
  }

  /** The least set that holds the seeds and is closed under references. */
  ghost predicate IsLeast(tree: Tree, changed: seq<string>, s: set<string>) {
    && HoldsSeeds(tree, changed, s) && Closed(s, tree.references)
    && (forall t :: HoldsSeeds(tree, changed, t) && Closed(t, tree.references) ==> s <= t)
  }

  ghost predicate AllShards(tree: Tree, changed: seq<string>) {
    || (exists k :: 0 <= k < |changed| && RunsEverything(changed[k]))
    || (tree.unresolved && exists u :: IsSeed(tree, changed, u))
  }

  /** What `needed_units` owes: `None`, for every shard, exactly when one of the rules says so, and otherwise the closure. */
  ghost predicate IsNeeded(tree: Tree, changed: seq<string>, r: Option<set<string>>) {
    if AllShards(tree, changed) then r.None? else r.Some? && IsLeast(tree, changed, r.value)
  }

  /** `needed_units`: the files one by one, then the readers of those outside ansible/, then the worklist. */
  method NeededUnits(changed: seq<string>, tree: Tree) returns (r: Option<set<string>>)
    ensures IsNeeded(tree, changed, r)
  {
    hide UnitOf, RunsEverything, Inside, Reads, Closed, HoldsSeeds, IsLeast;
    var wanted: set<string>, outside: seq<string> := {}, [];
    for k := 0 to |changed|
      invariant forall j :: 0 <= j < k ==> !RunsEverything(changed[j])
      invariant forall u :: u in wanted <==> exists j :: 0 <= j < k && !IsOutside(changed[j]) && Seeds(tree, changed[j], u)
      invariant forall path :: path in outside <==> IsOutside(path) && path in changed[..k]
    {
      var path := changed[k];
      assert changed[..k + 1] == changed[..k] + [path];
      if Inside(path, EVERY_SHARD) {
        EveryShardWins(path);
        return None;
      }
      EverythingElse(path);
      ghost var before := wanted;
      if UnitOf(path).Some? {
        wanted := wanted + {UnitOf(path).value};
      } else if "ansible/role_skeleton/" <= path {
        SkeletonIsInside(path);
        wanted := wanted + {SKELETON};
      } else if "ansible/" <= path {
        if !Inside(path, LINT_ONLY) {
          return None;
        }
      } else {
        outside := outside + [path];
      }
      assert forall u :: u in wanted <==> u in before || (!IsOutside(path) && Seeds(tree, path, u));
    }
    ghost var inner := wanted;
    for k := 0 to |outside|
      invariant forall u :: u in wanted <==> u in inner || exists j :: 0 <= j < k && Seeds(tree, outside[j], u)
    {
      var readers := ReadersOf(tree, outside[k]);
      wanted := wanted + readers;
    }
    assert changed[..|changed|] == changed;
    assert forall u :: u in wanted <==> IsSeed(tree, changed, u) by {
      SeedsAreSplit(tree, changed, outside, inner, wanted);
    }
    if wanted == {} {
      NothingIsLeast(tree, changed);
      return Some(wanted);
    }
    var closure := Close(tree, changed, wanted);
    if tree.unresolved {
      assert exists u :: u in wanted;
      return None;
    }
    return Some(closure);
  }

  lemma EveryShardWins(path: string)
    requires Inside(path, EVERY_SHARD)
    ensures RunsEverything(path)
  {
  }

  lemma EverythingElse(path: string)
    requires !Inside(path, EVERY_SHARD)
    ensures RunsEverything(path) <==>
            UnitOf(path).None? && !("ansible/role_skeleton/" <= path) && "ansible/" <= path && !Inside(path, LINT_ONLY)
  {
  }

  lemma SkeletonIsInside(path: string)
    ensures "ansible/role_skeleton/" <= path ==> "ansible/" <= path
  {
    assert "ansible/role_skeleton/"[..8] == "ansible/";
  }

  lemma SeedsAreSplit(tree: Tree, changed: seq<string>, outside: seq<string>, inner: set<string>, wanted: set<string>)
    requires forall u :: u in inner <==> exists j :: 0 <= j < |changed| && !IsOutside(changed[j]) && Seeds(tree, changed[j], u)
    requires forall path :: path in outside <==> IsOutside(path) && path in changed
    requires forall u :: u in wanted <==> u in inner || exists j :: 0 <= j < |outside| && Seeds(tree, outside[j], u)
    ensures forall u :: u in wanted <==> IsSeed(tree, changed, u)
  {
    hide IsOutside, Seeds;
    forall u
      ensures u in wanted <==> IsSeed(tree, changed, u)
    {
      if IsSeed(tree, changed, u) {
        var k :| 0 <= k < |changed| && Seeds(tree, changed[k], u);
        if IsOutside(changed[k]) {
          assert changed[k] in outside;
          var j :| 0 <= j < |outside| && outside[j] == changed[k];
        }
      }
      if j :| 0 <= j < |outside| && Seeds(tree, outside[j], u) {
        assert outside[j] in changed;
        var k :| 0 <= k < |changed| && changed[k] == outside[j];
      }
    }
  }

  lemma NothingIsLeast(tree: Tree, changed: seq<string>)
    requires forall u :: !IsSeed(tree, changed, u)
    ensures IsLeast(tree, changed, {})
  {
  }

  /** The readers of one path outside ansible/. */
  method ReadersOf(tree: Tree, path: string) returns (readers: set<string>)
    requires IsOutside(path)
    ensures forall u :: u in readers <==> Seeds(tree, path, u)
  {
    hide Reads;
    assert "ansible/role_skeleton/"[..8] == "ansible/";
    readers := {};
    var todo := tree.readers.Keys;
    while todo != {}
      invariant todo <= tree.readers.Keys
      invariant forall u :: u in readers <==> exists read :: read in tree.readers && read !in todo && Reads(read, path) && u in tree.readers[read]
    {
      var read :| read in todo;
      todo := todo - {read};
      if Reads(read, path) {
        readers := readers + tree.readers[read];
      }
    }
  }

  /** Everything the references can add. */
  ghost function Targets(references: map<string, set<string>>): set<string> {
    set u, d | u in references && d in references[u] :: d
  }

  /** The worklist: it ends with the least closed set that holds the seeds. */
  method Close(tree: Tree, changed: seq<string>, seeds: set<string>) returns (wanted: set<string>)
    requires forall u :: u in seeds <==> IsSeed(tree, changed, u)
    ensures IsLeast(tree, changed, wanted)
  {
    hide IsSeed;
    ghost var universe := seeds + Targets(tree.references);
    wanted := seeds;
    var pending := Listed(seeds);
    while pending != []
      invariant seeds <= wanted <= universe
      invariant forall u, d :: u in wanted && u !in pending && d in Dependents(tree.references, u) ==> d in wanted
      invariant forall u :: u in pending ==> u in wanted
      invariant forall t :: HoldsSeeds(tree, changed, t) && Closed(t, tree.references) ==> wanted <= t
      decreases |universe - wanted|, |pending|
    {
      wanted, pending := AddDependents(tree, changed, wanted, pending, universe);
    }
  }

  /** A list of a set's elements. */
  method Listed(s: set<string>) returns (list: seq<string>)
    ensures forall u :: u in list <==> u in s
  {
    list := [];
    var todo := s;
    while todo != {}
      invariant todo <= s && forall u :: u in list <==> u in s - todo
    {
      var u :| u in todo;
      todo := todo - {u};
      list := list + [u];
    }
  }

  /** One turn of the worklist: the last pending unit is taken off and its new dependents are put on. */
  method AddDependents(tree: Tree, ghost changed: seq<string>, wanted: set<string>, pending: seq<string>, ghost universe: set<string>)
    returns (more: set<string>, left: seq<string>)
    requires pending != [] && wanted <= universe && Targets(tree.references) <= universe
    requires forall u, d :: u in wanted && u !in pending && d in Dependents(tree.references, u) ==> d in wanted
    requires forall u :: u in pending ==> u in wanted
    requires forall t :: HoldsSeeds(tree, changed, t) && Closed(t, tree.references) ==> wanted <= t
    ensures wanted <= more <= universe
    ensures forall u, d :: u in more && u !in left && d in Dependents(tree.references, u) ==> d in more
    ensures forall u :: u in left ==> u in more
    ensures forall t :: HoldsSeeds(tree, changed, t) && Closed(t, tree.references) ==> more <= t
    ensures |universe - more| < |universe - wanted| || (more == wanted && |left| < |pending|)
  {
    hide HoldsSeeds;
    var last := |pending| - 1;
    var unit := pending[last];
    more, left := wanted, pending[..last];
    assert pending == left + [unit];
    var todo := Dependents(tree.references, unit);
    ghost var all := todo;
    assert all <= universe;
    while todo != {}
      invariant todo <= all && all - todo <= more && wanted <= more <= wanted + all
      invariant forall u :: u in left <==> u in pending[..last] || u in more - wanted
      invariant |left| >= last && (more == wanted ==> left == pending[..last])
    {
      var dependent :| dependent in todo;
      todo := todo - {dependent};
      if dependent !in more {
        more, left := more + {dependent}, left + [dependent];
      }
    }
    assert forall t :: HoldsSeeds(tree, changed, t) && Closed(t, tree.references) ==> unit in t;
    if more != wanted {
      Shrinks(universe, wanted, more);
    }
  }

  lemma Shrinks(universe: set<string>, wanted: set<string>, more: set<string>)
    requires wanted <= more <= universe && more != wanted
    ensures |universe - more| < |universe - wanted|
  {
    var gap, less := universe - wanted, universe - more;
    assert less <= gap && less != gap by {
      var u :| u in more && u !in wanted;
      assert u in gap && u !in less;
    }
    assert |gap - less| > 0 && gap == less + (gap - less);
  }

  // ---- The closure is what can be reached ----

  /** Each unit of the chain runs when the one before it changes. */
  predicate IsChain(references: map<string, set<string>>, chain: seq<string>) {
    chain != [] && forall k :: 0 < k < |chain| ==> Leads(references, chain[k - 1], chain[k])
  }

  /** The second unit runs when the first changes. */
  predicate Leads(references: map<string, set<string>>, unit: string, next: string) {
    unit in references && next in references[unit]
  }

  ghost predicate Reached(tree: Tree, changed: seq<string>, u: string) {
    exists chain :: IsChain(tree.references, chain) && IsSeed(tree, changed, chain[0]) && chain[|chain| - 1] == u
  }

  lemma {:induction false} ChainStaysInside(tree: Tree, changed: seq<string>, s: set<string>, chain: seq<string>)
    requires HoldsSeeds(tree, changed, s) && Closed(s, tree.references)
    requires IsChain(tree.references, chain) && IsSeed(tree, changed, chain[0])
    ensures chain[|chain| - 1] in s
  {
    if |chain| > 1 {
      var init := chain[..|chain| - 1];
      ChainStaysInside(tree, changed, s, init);
      assert chain[|chain| - 1] in Dependents(tree.references, init[|init| - 1]);
    }
  }

  /** The selection is exact: a unit is selected exactly when a chain of references leads to it from a changed file. */
  lemma NeededIsReached(tree: Tree, changed: seq<string>, s: set<string>, u: string)
    requires IsLeast(tree, changed, s)
    ensures u in s <==> Reached(tree, changed, u)
  {
    hide IsSeed;
    if Reached(tree, changed, u) {
      var chain :| IsChain(tree.references, chain) && IsSeed(tree, changed, chain[0]) && chain[|chain| - 1] == u;
      ChainStaysInside(tree, changed, s, chain);
    }
    if u in s {
      var t := set x | x in s && Reached(tree, changed, x);
      forall x | IsSeed(tree, changed, x)
        ensures x in t
      {
        assert IsChain(tree.references, [x]) && [x][0] == x;
      }
      forall x, d | x in t && d in Dependents(tree.references, x)
        ensures d in t
      {
        ReachedGoesOn(tree, changed, x, d);
      }
      assert HoldsSeeds(tree, changed, t) && Closed(t, tree.references);
    }
  }

  lemma ReachedGoesOn(tree: Tree, changed: seq<string>, u: string, d: string)
    requires Reached(tree, changed, u) && d in Dependents(tree.references, u)
    ensures Reached(tree, changed, d)
  {
    hide IsSeed;
    var chain :| IsChain(tree.references, chain) && IsSeed(tree, changed, chain[0]) && chain[|chain| - 1] == u;
    var longer := chain + [d];
    assert IsChain(tree.references, longer) && longer[0] == chain[0] && longer[|longer| - 1] == d;
  }

  // ---- Homomorphism and monotonicity ----

  /** The union of two selections: every shard absorbs. */
  function Joined(a: Option<set<string>>, b: Option<set<string>>): Option<set<string>> {
    if a.Some? && b.Some? then Some(a.value + b.value) else None
  }

  predicate AtMost(a: Option<set<string>>, b: Option<set<string>>) {
    b.Some? ==> a.Some? && a.value <= b.value
  }

  lemma SeedsOfSum(tree: Tree, a: seq<string>, b: seq<string>)
    ensures forall u :: IsSeed(tree, a + b, u) <==> IsSeed(tree, a, u) || IsSeed(tree, b, u)
    ensures AllShards(tree, a + b) <==> AllShards(tree, a) || AllShards(tree, b)
  {
    hide Seeds, RunsEverything;
    forall k | 0 <= k < |a + b|
      ensures (a + b)[k] == if k < |a| then a[k] else b[k - |a|]
    {
    }
    forall u
      ensures IsSeed(tree, a + b, u) <==> IsSeed(tree, a, u) || IsSeed(tree, b, u)
    {
      if k :| 0 <= k < |b| && Seeds(tree, b[k], u) {
        assert (a + b)[|a| + k] == b[k];
      }
      if k :| 0 <= k < |a| && Seeds(tree, a[k], u) {
        assert (a + b)[k] == a[k];
      }
    }
    if k :| 0 <= k < |b| && RunsEverything(b[k]) {
      assert (a + b)[|a| + k] == b[k];
    }
    if k :| 0 <= k < |a| && RunsEverything(a[k]) {
      assert (a + b)[k] == a[k];
    }
  }

  /** Selection distributes over lists of changed files, with "every shard" absorbing. */
  lemma SelectionIsHomomorphic(tree: Tree, a: seq<string>, b: seq<string>, x: Option<set<string>>, y: Option<set<string>>, r: Option<set<string>>)
    requires IsNeeded(tree, a, x) && IsNeeded(tree, b, y) && IsNeeded(tree, a + b, r)
    ensures r == Joined(x, y)
  {
    hide AllShards, IsSeed;
    SeedsOfSum(tree, a, b);
    if r.Some? {
      var both := x.value + y.value;
      assert HoldsSeeds(tree, a + b, both) && Closed(both, tree.references);
      assert HoldsSeeds(tree, a, r.value) && HoldsSeeds(tree, b, r.value);
      assert r.value == both;
    }
  }

  /** `more` sees every read, every reference and every unmapped reference that `less` sees. */
  ghost predicate SeesMore(less: Tree, more: Tree) {
    && (forall read :: read in less.readers ==> read in more.readers && less.readers[read] <= more.readers[read])
    && (forall u :: Dependents(less.references, u) <= Dependents(more.references, u))
    && (less.unresolved ==> more.unresolved)
  }

  /** Adding changed files, readers or references never drops a unit. */
  lemma SelectionIsMonotone(less: Tree, more: Tree, few: seq<string>, many: seq<string>, x: Option<set<string>>, y: Option<set<string>>)
    requires SeesMore(less, more) && (forall path :: path in few ==> path in many)
    requires IsNeeded(less, few, x) && IsNeeded(more, many, y)
    ensures AtMost(x, y)
  {
    hide RunsEverything, Seeds;
    forall u | IsSeed(less, few, u)
      ensures IsSeed(more, many, u)
    {
      var k :| 0 <= k < |few| && Seeds(less, few[k], u);
      assert few[k] in many;
      var j :| 0 <= j < |many| && many[j] == few[k];
      SeedsGrow(less, more, few[k], u);
    }
    if k :| 0 <= k < |few| && RunsEverything(few[k]) {
      assert few[k] in many;
      var j :| 0 <= j < |many| && many[j] == few[k];
      assert RunsEverything(many[j]);
    }
    if y.Some? {
      assert HoldsSeeds(less, few, y.value) && Closed(y.value, less.references);
    }
  }

  lemma SeedsGrow(less: Tree, more: Tree, path: string, u: string)
    requires SeesMore(less, more) && Seeds(less, path, u)
    ensures Seeds(more, path, u)
  {
    hide UnitOf, Reads;
  }

  // ---- The shards of a run ----

  datatype Shard = Shard(name: string, path: string)

  /** The shards a selection keeps, in order. */
  function Kept(shards: seq<Shard>, needed: Option<set<string>>): seq<Shard> {
    if shards == [] then []
    else
      var rest := Kept(shards[1..], needed);
      if needed.None? || shards[0].path in needed.value then [shards[0]] + rest else rest
  }

  lemma {:induction false} KeptEverything(shards: seq<Shard>)
    ensures Kept(shards, None) == shards
  {
    if shards != [] {
      KeptEverything(shards[1..]);
    }
  }

  lemma {:induction false} KeptIsExact(shards: seq<Shard>, needed: Option<set<string>>, s: Shard)
    ensures s in Kept(shards, needed) <==> s in shards && (needed.Some? ==> s.path in needed.value)
  {
    if shards != [] {
      KeptIsExact(shards[1..], needed, s);
    }
  }

  predicate Narrows(event: string, changed: Option<seq<string>>) {
    event in ["pull_request", "merge_group"] && changed.Some?
  }

  /** `select`: nothing on a push, what the changed files need where they narrow the run, and every shard otherwise. */
  method Select(event: string, changed: Option<seq<string>>, shards: seq<Shard>, tree: Tree) returns (r: seq<Shard>)
    ensures event == "push" ==> r == []
    ensures (event == "pull_request" || event == "merge_group") && changed.Some? ==> Narrows(event, changed)
    ensures event != "pull_request" && event != "merge_group" ==> !Narrows(event, changed)
    ensures event != "push" && !Narrows(event, changed) ==> r == shards
    ensures event != "push" && Narrows(event, changed) ==> exists needed :: IsNeeded(tree, changed.value, needed) && r == Kept(shards, needed)
  {
    if event == "push" {
      return [];
    }
    if event !in ["pull_request", "merge_group"] || changed.None? {
      return shards;
    }
    var needed := NeededUnits(changed.value, tree);
    KeptEverything(shards);
    return Kept(shards, needed);
  }

  /** A run over more changed files, in a tree with more references, keeps every shard the smaller run kept. */
  lemma NoShardIsDropped(less: Tree, more: Tree, few: seq<string>, many: seq<string>, x: Option<set<string>>, y: Option<set<string>>, shards: seq<Shard>, s: Shard)
    requires SeesMore(less, more) && (forall path :: path in few ==> path in many)
    requires IsNeeded(less, few, x) && IsNeeded(more, many, y)
    ensures s in Kept(shards, x) ==> s in Kept(shards, y)
  {
    SelectionIsMonotone(less, more, few, many, x, y);
    KeptIsExact(shards, x, s);
    KeptIsExact(shards, y, s);
  }

  /** A shard is kept whenever a file of its unit, or of a unit that leads to its unit by references, is among the changed files. */
  lemma ChangedUnitIsTested(tree: Tree, changed: seq<string>, needed: Option<set<string>>, chain: seq<string>, path: string, shards: seq<Shard>, s: Shard)
    requires IsNeeded(tree, changed, needed) && path in changed && s in shards
    requires IsChain(tree.references, chain) && UnitOf(path) == Some(chain[0]) && s.path == chain[|chain| - 1]
    ensures s in Kept(shards, needed)
  {
    KeptIsExact(shards, needed, s);
    var k :| 0 <= k < |changed| && changed[k] == path;
    assert Seeds(tree, changed[k], chain[0]);
    assert IsSeed(tree, changed, chain[0]);
    if needed.Some? {
      NeededIsReached(tree, changed, needed.value, s.path);
    }
  }
}
