/** The gates of the scan from the syntax alone: exactly which routes and Hosts are taken for gated, and that every `new` is looked at. */
module TenantGates {
  import opened Common
  import opened TenantAst
  import opened TenantScan
  import opened TenantSoundness
  import opened TenantComplete

  // ---- Keys ----

  /** The property's key is written out, and is this text. */
  predicate HasKey(prop: Property, key: string) {
    || (prop.Assign? && prop.name.Plain? && prop.name.text == key)
    || (prop.Shorthand? && prop.variable == key)
    || (prop.Method? && prop.name.Plain? && prop.name.text == key)
  }

  predicate IsPlain(prop: Property) {
    prop.Shorthand? || ((prop.Assign? || prop.Method?) && prop.name.Plain?)
  }

  lemma KeyTextIsTheKey(prop: Property, key: string)
    ensures KeyText(prop) == Some(key) <==> HasKey(prop, key)
    ensures KeyText(prop).Some? <==> IsPlain(prop)
  {
  }

  // ---- Routes ----

  /** The value is a call of `verified` with one argument, under any `.apply(...)` calls and wrappers. */
  predicate CallsVerified(e: Expr)
    decreases e
  {
    match e
    case Wrapped(inner) => CallsVerified(inner)
    case Call(Ident(name), args) => name == "verified" && |args| == 1
    case Call(Access(target, key, _), _) => key == "apply" && CallsVerified(target)
    case _ => false
  }

  lemma {:induction false} UnwrapKeepsVerified(e: Expr)
    ensures CallsVerified(Unwrap(e)) == CallsVerified(e) && StripApplies(Unwrap(e)) == StripApplies(e)
    ensures Unwrap(Unwrap(e)) == Unwrap(e)
    decreases e
  {
    if e.Wrapped? {
      UnwrapKeepsVerified(e.inner);
    }
  }

  lemma {:induction false} StrippedIsVerified(e: Expr)
    ensures CallsVerified(e) <==> var c := StripApplies(e); c.Call? && c.callee == Ident("verified") && |c.args| == 1
    decreases Unwrap(e)
  {
    UnwrapKeepsVerified(e);
    var c := Unwrap(e);
    if c.Call? && c.callee.Access? && c.callee.key == "apply" {
      StrippedIsVerified(c.callee.target);
    }
  }

  /** The forms of a declaration that the scan can follow. */
  predicate IsFollowable(d: Declaration) {
    match d
    case NamespaceImport(_, package, typeOnly) => !typeOnly && IsFollowed(package)
    case ImportSpecifier(_, _, package, typeOnly) => !typeOnly && IsFollowed(package)
    case Variable(name, init, isConst, single, _) => name.Some? && init.Some? && isConst && single
    case Element(name, key, plain, source, isConst, single) => name.Some? && key.Some? && plain && source.Some? && isConst && single
    case Other(_) => false
  }

  lemma {:induction false} CountedOnceIsAlone(p: Program, name: string)
    ensures Count(p.declarations, name) == 1 <==> exists d: nat :: DeclaresAlone(p, name, d)
  {
    if Count(p.declarations, name) == 1 {
      var d := CountedIsDeclared(p.declarations, name);
      OnceIsAlone(p, name, d);
    }
    if d: nat :| DeclaresAlone(p, name, d) {
      AloneIsTheBinding(p.declarations, name, d);
    }
  }

  lemma {:induction false} CountedIsDeclared(ds: seq<Declaration>, name: string) returns (d: nat)
    requires Count(ds, name) > 0
    ensures d < |ds| && NameOf(ds[d]) == Some(name)
  {
    if NameOf(ds[|ds| - 1]) == Some(name) {
      d := |ds| - 1;
    } else {
      d := CountedIsDeclared(ds[..|ds| - 1], name);
    }
  }

  /** `verified` is declared once in the file, in a form that can be followed. */
  ghost predicate VerifiedIsBound(p: Program) {
    exists d: nat :: DeclaresAlone(p, "verified", d) && IsFollowable(p.declarations[d])
  }

  lemma VerifyCallIsExact(p: Program, e: Expr)
    ensures IsVerifyCall(StripApplies(e), p) <==> CallsVerified(e) && VerifiedIsBound(p)
  {
    StrippedIsVerified(e);
    CountedOnceIsAlone(p, "verified");
    if d: nat :| DeclaresAlone(p, "verified", d) {
      AloneIsTheBinding(p.declarations, "verified", d);
      assert forall k: nat :: DeclaresAlone(p, "verified", k) ==> k == d;
    }
  }

  /** The literal's `networkId`: the one property of that key, assigned, no spread after it and every other key written out. */
  predicate NetworkIdAt(props: seq<Property>, at: nat) {
    && at < |props| && props[at].Assign? && HasKey(props[at], "networkId")
    && (forall k :: 0 <= k < |props| && k != at ==> !HasKey(props[k], "networkId"))
    && (forall k :: at < k < |props| ==> !props[k].Spreading?)
    && (forall k :: 0 <= k < |props| ==> props[k].Spreading? || IsPlain(props[k]))
  }

  lemma {:induction false} OnePosition(props: seq<Property>, key: string, at: nat)
    requires at < |props| && KeyText(props[at]) == Some(key)
    requires forall k :: 0 <= k < |props| && k != at ==> KeyText(props[k]) != Some(key)
    ensures Positions(props, key) == [at]
  {
    hide KeyText;
    var last := |props| - 1;
    if at == last {
      NoPosition(props[..last], key);
    } else {
      OnePosition(props[..last], key, at);
    }
  }

  lemma {:induction false} NoPosition(props: seq<Property>, key: string)
    requires forall k :: 0 <= k < |props| ==> KeyText(props[k]) != Some(key)
    ensures Positions(props, key) == []
  {
    if props != [] {
      NoPosition(props[..|props| - 1], key);
    }
  }

  lemma {:induction false} PositionsIncrease(props: seq<Property>, key: string)
    ensures forall j, k :: 0 <= j < k < |Positions(props, key)| ==> Positions(props, key)[j] < Positions(props, key)[k]
  {
    if props != [] {
      PositionsIncrease(props[..|props| - 1], key);
    }
  }

  /** A position alone among the positions is the only property of its key. */
  lemma SolePosition(props: seq<Property>, key: string)
    ensures |Positions(props, key)| == 1 <==>
            exists at: nat :: at < |props| && HasKey(props[at], key) && forall k :: 0 <= k < |props| && k != at ==> !HasKey(props[k], key)
    ensures |Positions(props, key)| == 1 ==>
              var at := Positions(props, key)[0];
              HasKey(props[at], key) && forall k :: 0 <= k < |props| && k != at ==> !HasKey(props[k], key)
  {
    PositionsAreExact(props, key);
    forall k | 0 <= k < |props|
      ensures KeyText(props[k]) == Some(key) <==> HasKey(props[k], key)
    {
      KeyTextIsTheKey(props[k], key);
    }
    hide KeyText, HasKey;
    var positions := Positions(props, key);
    if |positions| == 1 {
      var at := positions[0];
      assert at in positions;
      forall k | 0 <= k < |props| && k != at
        ensures KeyText(props[k]) != Some(key)
      {
        assert positions == [at];
        assert k !in [at];
      }
    }
    if at: nat :| at < |props| && HasKey(props[at], key) && forall k :: 0 <= k < |props| && k != at ==> !HasKey(props[k], key) {
      OnePosition(props, key, at);
    }
  }

  predicate NoSpreads(args: seq<Expr>) {
    forall k :: 0 <= k < |args| ==> !args[k].Spread?
  }

  /** A route is taken for gated exactly when its props are a literal whose `networkId` calls the file's own `verified`. */
  lemma GatedRouteIsExact(p: Program, args: seq<Expr>)
    ensures IsGatedRoute(args, p) <==>
            && NoSpreads(args) && |args| >= 2 && args[1].Object? && VerifiedIsBound(p)
            && exists at: nat :: NetworkIdAt(args[1].props, at) && CallsVerified(args[1].props[at].value)
  {
    if |args| >= 2 && args[1].Object? {
      var props := args[1].props;
      SolePosition(props, "networkId");
      forall k | 0 <= k < |props|
        ensures KeyText(props[k]).Some? <==> IsPlain(props[k])
      {
        KeyTextIsTheKey(props[k], "");
      }
      forall k | 0 <= k < |props| && props[k].Assign?
        ensures IsVerifyCall(StripApplies(props[k].value), p) <==> CallsVerified(props[k].value) && VerifiedIsBound(p)
      {
        VerifyCallIsExact(p, props[k].value);
      }
      hide KeyText, HasKey, IsPlain, StripApplies, IsVerifyCall, CallsVerified, VerifiedIsBound, Positions;
      var positions := Positions(props, "networkId");
      if IsGatedRoute(args, p) {
        assert NetworkIdAt(props, positions[0]);
      }
      if at: nat :| NetworkIdAt(props, at) && CallsVerified(props[at].value) {
        assert |positions| == 1 && positions[0] == at;
      }
    }
  }

  // ---- Hosts ----

  /** The gate is the one declaration of its name, a top-level exported `const` alone in its list. */
  ghost predicate GateIsDeclared(p: Program) {
    exists d: nat :: DeclaresAlone(p, "gateRegistration", d) && p.declarations[d].Variable? && p.declarations[d].isConst &&
                     p.declarations[d].single && p.declarations[d].exportedTopLevel
  }

  lemma RealGateIsExact(p: Program)
    ensures IsRealGate(p) <==> GateIsDeclared(p)
  {
    CountedOnceIsAlone(p, "gateRegistration");
    if IsRealGate(p) {
      var d: nat :| d < |p.declarations| && NameOf(p.declarations[d]) == Some(GATE_NAME) && p.declarations[d].Variable? &&
                    p.declarations[d].isConst && p.declarations[d].single && p.declarations[d].exportedTopLevel;
      OnceIsAlone(p, GATE_NAME, d);
    }
  }

  /** The literal's `transformations`: the one property of that key, assigned under a plain name, every key written out. */
  predicate TransformationsAt(props: seq<Property>, at: nat) {
    && at < |props| && props[at].Assign? && HasKey(props[at], "transformations") && props[at].name.identifier
    && (forall k :: 0 <= k < |props| && k != at ==> !HasKey(props[k], "transformations"))
    && (forall k :: 0 <= k < |props| ==> IsPlain(props[k]))
  }

  lemma {:induction false} MatchingIsPositions(props: seq<Property>, key: string)
    ensures |Matching(props, key)| == |Positions(props, key)|
    ensures forall j :: 0 <= j < |Matching(props, key)| ==> Matching(props, key)[j] == props[Positions(props, key)[j]]
  {
    if props != [] {
      MatchingIsPositions(props[..|props| - 1], key);
    }
  }

  lemma SoleTransformationsIsExact(props: seq<Property>, value: Expr)
    ensures SoleTransformations(props) == Some(value) <==> exists at: nat :: TransformationsAt(props, at) && props[at].value == value
  {
    SolePosition(props, "transformations");
    MatchingIsPositions(props, "transformations");
    forall k | 0 <= k < |props|
      ensures KeyText(props[k]).Some? <==> IsPlain(props[k])
      ensures HasKey(props[k], "transformations") && props[k].Assign? ==> props[k].name.Plain?
    {
      KeyTextIsTheKey(props[k], "");
    }
    hide KeyText, HasKey, IsPlain, Positions, Matching;
    if SoleTransformations(props) == Some(value) {
      assert TransformationsAt(props, Positions(props, "transformations")[0]);
    }
    if at: nat :| TransformationsAt(props, at) && props[at].value == value {
      assert Positions(props, "transformations")[0] == at;
    }
  }

  /** A Host is taken for gated exactly when its options are a literal whose `transformations` list names the file's own exported gate. */
  lemma GatedHostIsExact(p: Program, args: seq<Expr>)
    ensures IsGatedHost(args, p) <==>
            && NoSpreads(args) && |args| >= 2 && args[1].Object? && GateIsDeclared(p)
            && exists at: nat :: TransformationsAt(args[1].props, at) && args[1].props[at].value.Array? &&
                                 Ident("gateRegistration") in args[1].props[at].value.elements
  {
    RealGateIsExact(p);
    if |args| >= 2 && args[1].Object? {
      var props := args[1].props;
      hide SoleTransformations, TransformationsAt, GateIsDeclared, IsRealGate;
      if SoleTransformations(props).Some? {
        SoleTransformationsIsExact(props, SoleTransformations(props).value);
      }
      forall at: nat | TransformationsAt(props, at)
        ensures at < |props| && props[at].Assign? && SoleTransformations(props) == Some(props[at].value)
      {
        TransformationsAreAssigned(props, at);
        SoleTransformationsIsExact(props, props[at].value);
      }
    }
  }

  lemma TransformationsAreAssigned(props: seq<Property>, at: nat)
    requires TransformationsAt(props, at)
    ensures at < |props| && props[at].Assign?
  {
  }

  // ---- Every `new` ----

  /** Nothing inside an expression is left out: each of its operands is among its parts. */
  lemma PartsAreAllOperands(e: Expr, c: Expr)
    ensures match e
            case Access(target, _, _) => target in Parts(e)
            case Index(target, argument, _) => target in Parts(e) && argument in Parts(e)
            case Wrapped(inner) => inner in Parts(e)
            case Spread(inner) => inner in Parts(e)
            case Call(callee, args) => callee in Parts(e) && (c in args ==> c in Parts(e))
            case New(callee, args) => callee in Parts(e) && (c in args ==> c in Parts(e))
            case Array(elements) => c in elements ==> c in Parts(e)
            case Opaque(parts) => c in parts ==> c in Parts(e)
            case Object(props) => (exists k :: 0 <= k < |props| && InProperty(props[k], c)) ==> c in Parts(e)
            case _ => true
  {
    if e.Object? {
      PropertiesHoldTheirParts(e.props, c);
    }
  }

  /** An expression written in a property: its value or its body's, its computed key, or what it spreads. */
  predicate InProperty(prop: Property, c: Expr) {
    match prop
    case Assign(name, value) => c == value || (name.Computed? && c == name.expr)
    case Method(name, parts) => c in parts || (name.Computed? && c == name.expr)
    case Spreading(source) => c == source
    case Shorthand(_) => false
  }

  lemma {:induction false} PropertiesHoldTheirParts(props: seq<Property>, c: Expr)
    ensures (exists k :: 0 <= k < |props| && InProperty(props[k], c)) ==> c in PropertiesParts(props)
  {
    if k :| 0 <= k < |props| && InProperty(props[k], c) {
      if k > 0 {
        assert props[1..][k - 1] == props[k];
        PropertiesHoldTheirParts(props[1..], c);
      }
    }
  }

  lemma {:induction false} NewsAreWithin(n: Expr, e: Expr)
    requires n in News(e)
    ensures n.New? && Within(n, e)
    decreases e, 0
  {
    if !(e.New? && n == e) {
      var c := NewsOfAreWithin(n, Parts(e), e);
    }
  }

  lemma {:induction false} NewsOfAreWithin(n: Expr, es: seq<Expr>, whole: Expr) returns (c: Expr)
    requires forall x :: x in es ==> x < whole
    requires n in NewsOf(es, whole)
    ensures n.New? && c in es && Within(n, c)
    decreases whole, 0, |es|
  {
    assert es[0] in es && forall x :: x in es[1..] ==> x in es;
    if n in News(es[0]) {
      NewsAreWithin(n, es[0]);
      c := es[0];
    } else {
      c := NewsOfAreWithin(n, es[1..], whole);
    }
  }

  /** What is scanned is exactly the `new` expressions that occur in the program, at any depth. */
  lemma {:induction false} ScannedIsExact(p: Program, n: Expr)
    ensures n in AllNews(p.expressions) <==> n.New? && Occurs(p, n)
  {
    if n.New? && Occurs(p, n) {
      var k :| 0 <= k < |p.expressions| && Within(n, p.expressions[k]);
      ExpressionIsScanned(n, p.expressions, k);
    }
    if n in AllNews(p.expressions) {
      var k := ScannedIsWithin(n, p.expressions);
    }
  }

  lemma {:induction false} ScannedIsWithin(n: Expr, es: seq<Expr>) returns (k: nat)
    requires n in AllNews(es)
    ensures k < |es| && n.New? && Within(n, es[k])
  {
    k := |es| - 1;
    if n in News(es[k]) {
      NewsAreWithin(n, es[k]);
    } else {
      k := ScannedIsWithin(n, es[..k]);
    }
  }

  /** The Hosts are counted as often as they are constructed. */
  lemma {:induction false} HostsAreCounted(news: seq<Expr>, p: Program, n: Expr)
    requires forall x :: x in news ==> x.New?
    ensures multiset(Hosts(news, p))[n] == if n.New? && Classify(n.callee, p) == Host then multiset(news)[n] else 0
  {
    hide Classify;
    if news != [] {
      var init, last := news[..|news| - 1], news[|news| - 1];
      HostsAreCounted(init, p, n);
      var own := if Classify(last.callee, p) == Host then [last] else [];
      assert Hosts(news, p) == Hosts(init, p) + own;
      hide Hosts;
      assert news == init + [last] && last in news;
      assert multiset(news) == multiset(init) + multiset{last};
      assert multiset(Hosts(init, p) + own) == multiset(Hosts(init, p)) + multiset(own);
    }
  }

  // ---- The report ----

  /** The node introduces the name: an import, a variable, a destructured element or any other declaration of it. */
  predicate Introduces(d: Declaration, name: string) {
    || (d.NamespaceImport? && d.name == name)
    || (d.ImportSpecifier? && d.name == name)
    || (d.Variable? && d.variable == Some(name))
    || (d.Element? && d.element == Some(name))
    || (d.Other? && d.other == Some(name))
  }

  /** A name with a second declaration of any kind, a parameter that shadows it included, resolves to nothing. */
  lemma TwiceDeclaredIsUnresolved(p: Program, name: string, i: nat, j: nat)
    requires i < j < |p.declarations| && Introduces(p.declarations[i], name) && Introduces(p.declarations[j], name)
    ensures ResolveExpression(Ident(name), p, {}).None?
  {
    var value := ResolveExpression(Ident(name), p, {});
    if value.Some? {
      ResolvesWhatIsDenoted(p, Ident(name), value.value);
    }
  }

  /** A name with one declaration of any kind, and no other, is declared alone. */
  lemma IntroducedOnceIsAlone(p: Program, name: string, d: nat)
    ensures DeclaresAlone(p, name, d) <==>
            && d < |p.declarations| && Introduces(p.declarations[d], name)
            && forall k :: 0 <= k < |p.declarations| && k != d ==> !Introduces(p.declarations[k], name)
  {
    forall k | 0 <= k < |p.declarations|
      ensures NameOf(p.declarations[k]) == Some(name) <==> Introduces(p.declarations[k], name)
    {
      NameIsIntroduced(p.declarations[k], name);
    }
    hide NameOf, Introduces;
  }

  lemma NameIsIntroduced(d: Declaration, name: string)
    ensures NameOf(d) == Some(name) <==> Introduces(d, name)
  {
  }

  /** A `new` somewhere in the file whose callee denotes the member. */
  ghost predicate Constructs(p: Program, n: Expr, package: string, member: string) {
    n.New? && Occurs(p, n) && DenotesMember(p, n.callee, package, member)
  }

  /** What is reported of one `new`, by what its callee denotes. */
  lemma NewReportIsExact(p: Program, n: Expr)
    requires forall x :: x in AllNews(p.expressions) ==> x.New?
    ensures IsNewViolation(Violation(Forbidden, Some(n)), AllNews(p.expressions), p) <==>
            exists package, member :: Constructs(p, n, package, member) && !MayConstruct(package, member)
    ensures IsNewViolation(Violation(Unresolved, Some(n)), AllNews(p.expressions), p) <==>
            n.New? && Occurs(p, n) && forall package, member :: !DenotesMember(p, n.callee, package, member)
    ensures IsNewViolation(Violation(RouteGate, Some(n)), AllNews(p.expressions), p) <==>
            Constructs(p, n, "@pulumi/hcloud", "NetworkRoute") && !IsGatedRoute(n.args, p)
  {
    hide Classify, IsGatedRoute, MayConstruct, Occurs, DenotesMember;
    ScannedIsExact(p, n);
    if n.New? {
      ConstructionIsWhatIsDenoted(p, n.callee);
    }
    if package, member :| Constructs(p, n, package, member) && !MayConstruct(package, member) {
      assert DenotesMember(p, n.callee, package, member) && !MayConstruct(package, member);
    }
    if package, member :| n.New? && Occurs(p, n) && DenotesMember(p, n.callee, package, member) && !MayConstruct(package, member) {
      assert Constructs(p, n, package, member);
    }
  }

  /** What is reported of the Hosts: none at all, each one when there are not two, and each that is not gated. */
  lemma HostReportIsExact(p: Program, n: Expr)
    requires forall x :: x in AllNews(p.expressions) ==> x.New?
    ensures var hosts := Hosts(AllNews(p.expressions), p);
            && (IsHostViolation(Violation(HostCount, None), hosts, p) <==> forall x :: !Constructs(p, x, "@branchleft/hetzner-host", "Host"))
            && (IsHostViolation(Violation(HostCount, Some(n)), hosts, p) <==>
                Constructs(p, n, "@branchleft/hetzner-host", "Host") && |hosts| != 2)
            && (IsHostViolation(Violation(HostGate, Some(n)), hosts, p) <==>
                Constructs(p, n, "@branchleft/hetzner-host", "Host") && !IsGatedHost(n.args, p))
  {
    hide Classify, IsGatedHost, Occurs, DenotesMember, Hosts;
    var hosts := Hosts(AllNews(p.expressions), p);
    forall x
      ensures x in hosts <==> Constructs(p, x, "@branchleft/hetzner-host", "Host")
    {
      ScannedIsExact(p, x);
      if x.New? {
        ConstructionIsWhatIsDenoted(p, x.callee);
      }
    }
    if hosts != [] {
      assert hosts[0] in hosts;
    }
  }
}
