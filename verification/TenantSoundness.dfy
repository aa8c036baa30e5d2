/** The scan is sound: what it says a program's `new` expressions construct is what evaluation constructs. */
module TenantSoundness {
  import opened Common
  import opened TenantAst
  import opened TenantScan

  function ValueOf(m: ModuleValue): Value {
    match m
    case NamespaceValue(package) => Module(package)
    case MemberValue(package, member) => Export(package, member)
  }

  // ---- Resolution ----

  lemma {:induction false} DeclarationCounts(ds: seq<Declaration>, name: string, d: nat)
    requires d < |ds| && NameOf(ds[d]) == Some(name)
    ensures Count(ds, name) >= 1
  {
    if d < |ds| - 1 {
      DeclarationCounts(ds[..|ds| - 1], name, d);
    }
  }

  lemma {:induction false} TwoDeclarationsCount(ds: seq<Declaration>, name: string, d: nat, k: nat)
    requires d < k < |ds| && NameOf(ds[d]) == Some(name) && NameOf(ds[k]) == Some(name)
    ensures Count(ds, name) >= 2
  {
    var init := ds[..|ds| - 1];
    if k < |ds| - 1 {
      TwoDeclarationsCount(init, name, d, k);
    } else {
      DeclarationCounts(init, name, d);
    }
  }

  /** The one declaration of a bound name is the one its binding comes from. */
  lemma SoleDeclarationBinds(ds: seq<Declaration>, name: string, d: nat)
    requires Count(ds, name) == 1 && BindingOf(ds, name).Some?
    requires d < |ds| && NameOf(ds[d]) == Some(name)
    ensures BindingFor(ds[d]) == BindingOf(ds, name)
  {
    BoundNameIsDeclared(ds, name);
    var k :| 0 <= k < |ds| && NameOf(ds[k]) == Some(name) && BindingFor(ds[k]) == BindingOf(ds, name);
    if d < k {
      TwoDeclarationsCount(ds, name, d, k);
    } else if k < d {
      TwoDeclarationsCount(ds, name, k, d);
    }
  }

  /**
   Analysis soundness: when the scan resolves an expression to a module or a module's member, every value the
   expression can evaluate to, through any aliases, destructuring and imports, is exactly that.
   */
  lemma {:induction false} ResolutionIsSound(p: Program, e: Expr, seen: set<string>, v: Value, depth: nat)
    requires ResolveExpression(e, p, seen).Some? && Evaluates(p, e, v, depth)
    ensures v == ValueOf(ResolveExpression(e, p, seen).value)
    decreases depth, 0
  {
    match e {
      case Wrapped(inner) =>
        ResolutionIsSound(p, inner, seen, v, depth - 1);
      case Ident(name) =>
        BoundNameIsDeclared(p.declarations, name);
        var d :| 0 <= d < |p.declarations| && NameOf(p.declarations[d]) == Some(name) && Declares(p, d, v, depth - 1);
        SoleDeclarationBinds(p.declarations, name, d);
        BindingIsSound(p, d, BindingOf(p.declarations, name).value, seen + {name}, v, depth - 1);
      case Access(target, key, optional) =>
        var o :| Evaluates(p, target, o, depth - 1) && MayRead(o, key, optional, v);
        MemberIsSound(p, MemberAccess(target, key), seen, o, v, depth - 1);
      case Index(target, Text(key), optional) =>
        var o :| Evaluates(p, target, o, depth - 1) && MayRead(o, key, optional, v);
        MemberIsSound(p, MemberAccess(target, key), seen, o, v, depth - 1);
      case _ =>
    }
  }

  lemma {:induction false} MemberIsSound(p: Program, access: MemberAccess, seen: set<string>, o: Value, v: Value, depth: nat)
    requires ResolveMember(access, p, seen).Some?
    requires Evaluates(p, access.target, o, depth) && MemberOf(o, access.key, v)
    ensures v == ValueOf(ResolveMember(access, p, seen).value)
    decreases depth, 1
  {
    ResolutionIsSound(p, access.target, seen, o, depth);
  }

  lemma {:induction false} BindingIsSound(p: Program, d: nat, binding: Binding, seen: set<string>, v: Value, depth: nat)
    requires d < |p.declarations| && BindingFor(p.declarations[d]) == Some(binding)
    requires ResolveBinding(binding, p, seen).Some? && Declares(p, d, v, depth)
    ensures v == ValueOf(ResolveBinding(binding, p, seen).value)
    decreases depth, 2
  {
    match binding {
      case Imported(value) =>
      case Alias(init) =>
        ResolutionIsSound(p, init, seen, v, depth);
      case Destructured(source, key) =>
        var o :| Evaluates(p, source, o, depth) && MemberOf(o, key, v);
        MemberIsSound(p, MemberAccess(source, key), seen, o, v, depth);
    }
  }

  // ---- Object literals: the last write wins ----

  /** No property from `from` on can write `key`. */
  predicate NoLaterWrite(props: seq<Property>, key: string, from: nat) {
    forall k :: from <= k < |props| ==> !props[k].Spreading? && KeyText(props[k]).Some? && KeyText(props[k]) != Some(key)
  }

  /** A key that nothing later can write keeps the value it was last given. */
  lemma {:induction false} LaterPropertiesKeepKey(p: Program, props: seq<Property>, key: string, at: nat,
                                                  fields: map<string, Value>, depth: nat)
    requires at < |props| && NoLaterWrite(props, key, at + 1)
    requires props[at].Assign? && props[at].name.Plain? && props[at].name.text == key && key != "__proto__"
    requires Fills(p, props, fields, depth)
    ensures key in fields && Evaluates(p, props[at].value, fields[key], depth)
    decreases |props|
  {
    var rest, last := props[..|props| - 1], props[|props| - 1];
    var before: map<string, Value> :| Fills(p, rest, before, depth) && Writes(p, last, before, fields, depth);
    if at < |props| - 1 {
      assert NoLaterWrite(rest, key, at + 1);
      LaterPropertiesKeepKey(p, rest, key, at, before, depth);
      assert KeyText(last).Some? && KeyText(last) != Some(key) && !last.Spreading?;
    }
  }

  // ---- Gated routes ----

  /** A value that a call of `verified` returned, or what `.apply` made of one. */
  predicate FromVerified(v: Value) {
    v.Verified? || (v.Applied? && FromVerified(v.base))
  }

  lemma {:induction false} AppliesKeepVerified(p: Program, e: Expr, v: Value, depth: nat)
    requires IsVerifyCall(StripApplies(e), p) && Evaluates(p, e, v, depth)
    ensures FromVerified(v)
    decreases depth
  {
    match e {
      case Wrapped(inner) =>
        AppliesKeepVerified(p, inner, v, depth - 1);
      case Call(callee, args) =>
        if callee.Access? && callee.key == "apply" {
          var base :| Evaluates(p, callee.target, base, depth - 1) && MayApply(base, callee.optional, v);
          AppliesKeepVerified(p, callee.target, base, depth - 1);
        }
      case _ =>
    }
  }

  lemma {:induction false} PositionsAreExact(props: seq<Property>, key: string)
    ensures forall k :: k in Positions(props, key) <==> 0 <= k < |props| && KeyText(props[k]) == Some(key)
  {
    if props != [] {
      PositionsAreExact(props[..|props| - 1], key);
    }
  }

  /** A gated route's props, evaluated, have a `networkId` that came from a call of `verified`. */
  lemma GatedRouteIsVerified(p: Program, args: seq<Expr>, v: Value, depth: nat)
    requires IsGatedRoute(args, p) && Evaluates(p, args[1], v, depth)
    ensures v.Record? && NETWORK_ID_KEY in v.fields && FromVerified(v.fields[NETWORK_ID_KEY])
  {
    var props := args[1].props;
    var at := Positions(props, NETWORK_ID_KEY)[0];
    PositionsAreExact(props, NETWORK_ID_KEY);
    assert at in Positions(props, NETWORK_ID_KEY);
    forall k | at + 1 <= k < |props|
      ensures KeyText(props[k]) != Some(NETWORK_ID_KEY)
    {
      assert KeyText(props[k]) == Some(NETWORK_ID_KEY) <==> k in Positions(props, NETWORK_ID_KEY);
    }
    LaterPropertiesKeepKey(p, props, NETWORK_ID_KEY, at, v.fields, depth - 1);
    AppliesKeepVerified(p, props[at].value, v.fields[NETWORK_ID_KEY], depth - 1);
  }

  // ---- Gated hosts ----

  lemma {:induction false} SoleMatch(props: seq<Property>, key: string) returns (at: nat)
    requires |Matching(props, key)| == 1
    ensures at < |props| && props[at] == Matching(props, key)[0] && KeyText(props[at]) == Some(key)
    ensures forall k :: 0 <= k < |props| && k != at ==> KeyText(props[k]) != Some(key)
  {
    var last := |props| - 1;
    if KeyText(props[last]) == Some(key) {
      at := last;
      NoMatch(props[..last], key);
      assert forall k :: 0 <= k < last ==> props[..last][k] == props[k];
    } else {
      at := SoleMatch(props[..last], key);
      assert forall k :: 0 <= k < last ==> props[..last][k] == props[k];
    }
  }

  lemma {:induction false} NoMatch(props: seq<Property>, key: string)
    requires Matching(props, key) == []
    ensures forall k :: 0 <= k < |props| ==> KeyText(props[k]) != Some(key)
  {
    if props != [] {
      NoMatch(props[..|props| - 1], key);
    }
  }

  lemma {:induction false} ElementIsListed(p: Program, elements: seq<Expr>, x: Expr, items: seq<Value>, depth: nat)
    requires x in elements && !x.Spread? && Lists(p, elements, items, depth)
    ensures exists k :: 0 <= k < |items| && Evaluates(p, x, items[k], depth)
    decreases |elements|
  {
    var rest, last := elements[..|elements| - 1], elements[|elements| - 1];
    var n :| 0 <= n <= |items| && Lists(p, rest, items[..n], depth) &&
             (last.Spread? || (n == |items| - 1 && Evaluates(p, last, items[n], depth)));
    if x != last {
      assert x in rest;
      ElementIsListed(p, rest, x, items[..n], depth);
      var k :| 0 <= k < n && Evaluates(p, x, items[..n][k], depth);
      assert Evaluates(p, x, items[k], depth);
    }
  }

  /** Options whose `transformations` list holds the value of the file's one exported `gateRegistration`. */
  ghost predicate CarriesGate(p: Program, v: Value) {
    && IsRealGate(p)
    && v.Record? && TRANSFORMATIONS_KEY in v.fields && v.fields[TRANSFORMATIONS_KEY].List?
    && var items := v.fields[TRANSFORMATIONS_KEY].items;
       exists k, d: nat :: 0 <= k < |items| && Evaluates(p, Ident(GATE_NAME), items[k], d)
  }

  /** A gated Host's options, evaluated, list the file's own exported gate among their transformations. */
  lemma GatedHostCarriesGate(p: Program, args: seq<Expr>, v: Value, depth: nat)
    requires IsGatedHost(args, p) && Evaluates(p, args[1], v, depth)
    ensures CarriesGate(p, v)
  {
    var props := args[1].props;
    var transformations := SoleTransformations(props).value;
    var at := SoleMatch(props, TRANSFORMATIONS_KEY);
    LaterPropertiesKeepKey(p, props, TRANSFORMATIONS_KEY, at, v.fields, depth - 1);
    ElementIsListed(p, transformations.elements, Ident(GATE_NAME), v.fields[TRANSFORMATIONS_KEY].items, depth - 2);
  }

  // ---- Whole programs ----

  lemma {:induction false} WithinIsScanned(n: Expr, e: Expr)
    requires n.New? && Within(n, e)
    ensures n in News(e)
    decreases e
  {
    if n != e {
      var c :| c in Parts(e) && Within(n, c);
      WithinIsScanned(n, c);
      PartIsScanned(n, c, Parts(e), e);
    }
  }

  lemma {:induction false} PartIsScanned(n: Expr, c: Expr, es: seq<Expr>, whole: Expr)
    requires forall x :: x in es ==> x < whole
    requires c in es && n in News(c)
    ensures n in NewsOf(es, whole)
    decreases |es|
  {
    assert es[0] in es && forall x :: x in es[1..] ==> x in es;
    if c != es[0] {
      PartIsScanned(n, c, es[1..], whole);
    }
  }

  lemma {:induction false} ExpressionIsScanned(n: Expr, es: seq<Expr>, k: nat)
    requires k < |es| && n.New? && Within(n, es[k])
    ensures n in AllNews(es)
  {
    if k == |es| - 1 {
      WithinIsScanned(n, es[k]);
    } else {
      ExpressionIsScanned(n, es[..|es| - 1], k);
    }
  }

  /** The scan reports nothing. */
  ghost predicate Accepted(p: Program) {
    var news := AllNews(p.expressions);
    && (forall n :: n in news ==> n.New?)
    && (forall v :: !IsNewViolation(v, news, p) && !IsHostViolation(v, Hosts(news, p), p))
  }

  predicate IsFine(n: Expr, p: Program)
    requires n.New?
  {
    match Classify(n.callee, p)
    case Allowed => true
    case Host => IsGatedHost(n.args, p)
    case Route => IsGatedRoute(n.args, p)
    case _ => false
  }

  lemma AcceptedNewIsFine(p: Program, n: Expr)
    requires Accepted(p) && n.New? && Occurs(p, n)
    ensures IsFine(n, p) && |Hosts(AllNews(p.expressions), p)| == EXPECTED_HOST_COUNT
    ensures Classify(n.callee, p) == Host ==> n in Hosts(AllNews(p.expressions), p)
  {
    hide Classify, IsGatedHost, IsGatedRoute;
    var news := AllNews(p.expressions);
    var hosts := Hosts(news, p);
    var k :| 0 <= k < |p.expressions| && Within(n, p.expressions[k]);
    ExpressionIsScanned(n, p.expressions, k);
    assert !IsNewViolation(Violation(RouteGate, Some(n)), news, p);
    assert !IsNewViolation(Violation(Forbidden, Some(n)), news, p);
    assert !IsNewViolation(Violation(Unresolved, Some(n)), news, p);
    assert !IsHostViolation(Violation(HostGate, Some(n)), hosts, p);
    assert !IsHostViolation(Violation(HostCount, None), hosts, p);
    assert !IsHostViolation(Violation(HostCount, Some(hosts[0])), hosts, p);
  }

  /**
   Gating soundness: in a program the scan accepts, whatever a `new` anywhere in it constructs is an allowed member;
   there are exactly two Hosts, each with the gate among its transformations; and every route's network id, as the
   props evaluate, came from a call of `verified`.
   */
  lemma AcceptedProgramIsGated(p: Program, n: Expr, constructed: Value, depth: nat)
    requires Accepted(p) && n.New? && Occurs(p, n)
    requires Evaluates(p, n.callee, constructed, depth)
    ensures constructed.Export? && constructed.member in AllowedMembers(constructed.package)
    ensures |Hosts(AllNews(p.expressions), p)| == EXPECTED_HOST_COUNT
    ensures constructed == Export(HOST_MODULE, "Host") ==>
              && n in Hosts(AllNews(p.expressions), p)
              && |n.args| >= 2
              && forall v, d: nat :: Evaluates(p, n.args[1], v, d) ==> CarriesGate(p, v)
    ensures constructed == Export(ROUTE_MODULE, ROUTE_MEMBER) ==>
              && |n.args| >= 2
              && forall v, d: nat :: Evaluates(p, n.args[1], v, d) ==>
                   v.Record? && NETWORK_ID_KEY in v.fields && FromVerified(v.fields[NETWORK_ID_KEY])
  {
    AcceptedNewIsFine(p, n);
    ResolutionIsSound(p, n.callee, {}, constructed, depth);
    hide Evaluates, IsGatedHost, IsGatedRoute;
    if Classify(n.callee, p) == Host {
      HostArguments(p, n.args);
      forall v, d: nat | Evaluates(p, n.args[1], v, d)
        ensures CarriesGate(p, v)
      {
        GatedHostCarriesGate(p, n.args, v, d);
      }
    } else if Classify(n.callee, p) == Route {
      RouteArguments(p, n.args);
      forall v, d: nat | Evaluates(p, n.args[1], v, d)
        ensures v.Record? && NETWORK_ID_KEY in v.fields && FromVerified(v.fields[NETWORK_ID_KEY])
      {
        GatedRouteIsVerified(p, n.args, v, d);
      }
    }
  }

  lemma HostArguments(p: Program, args: seq<Expr>)
    requires IsGatedHost(args, p)
    ensures |args| >= 2 && IsRealGate(p)
  {
  }

  lemma RouteArguments(p: Program, args: seq<Expr>)
    requires IsGatedRoute(args, p)
    ensures |args| >= 2
  {
  }
}
