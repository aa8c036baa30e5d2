/** The static scan of hetzner/tenants.structure.scan.ts: what it resolves, classifies and reports. */
module TenantScan {
  import opened Common
  import opened TenantAst

  const HOST_MODULE := "@branchleft/hetzner-host"
  const ROUTE_MODULE := "@pulumi/hcloud"
  const ROUTE_MEMBER := "NetworkRoute"
  const VERIFY_NAME := "verified"
  const NETWORK_ID_KEY := "networkId"
  const GATE_NAME := "gateRegistration"
  const TRANSFORMATIONS_KEY := "transformations"
  const EXPECTED_HOST_COUNT := 2

  predicate RecognisedModule(package: string) {
    package in ["@pulumi/hcloud", "@pulumi/pulumi", "@branchleft/hetzner-host"]
  }

  /** The members `new` may construct, by module. */
  function AllowedMembers(package: string): set<string> {
    if package == "@pulumi/hcloud" then {"Network", "NetworkSubnet", "NetworkRoute"}
    else if package == "@pulumi/pulumi" then {"Config", "StackReference"}
    else if package == "@branchleft/hetzner-host" then {"Host"}
    else {}
  }

  // ---- The declaration index ----

  datatype ModuleValue = NamespaceValue(package: string) | MemberValue(package: string, member: string)

  datatype Binding = Imported(value: ModuleValue) | Alias(init: Expr) | Destructured(source: Expr, key: string)

  /** The binding a declaring node gives its name, when the scan can follow it. */
  function BindingFor(d: Declaration): Option<Binding> {
    match d
    case NamespaceImport(_, package, typeOnly) =>
      if !typeOnly && RecognisedModule(package) then Some(Imported(NamespaceValue(package))) else None
    case ImportSpecifier(name, property, package, typeOnly) =>
      if !typeOnly && RecognisedModule(package) then Some(Imported(MemberValue(package, property.GetOr(name)))) else None
    case Variable(variable, init, isConst, single, _) =>
      if variable.Some? && init.Some? && isConst && single then Some(Alias(init.value)) else None
    case Element(element, key, plain, source, isConst, single) =>
      if element.Some? && key.Some? && plain && source.Some? && isConst && single
      then Some(Destructured(source.value, key.value)) else None
    case Other(_) => None
  }

  /** How many nodes declare a name. */
  function Count(ds: seq<Declaration>, name: string): nat {
    if ds == [] then 0
    else Count(ds[..|ds| - 1], name) + (if NameOf(ds[|ds| - 1]) == Some(name) then 1 else 0)
  }

  /** The binding of a name: the last one recorded. */
  function BindingOf(ds: seq<Declaration>, name: string): Option<Binding> {
    if ds == [] then None
    else
      var last := ds[|ds| - 1];
      if NameOf(last) == Some(name) && BindingFor(last).Some? then BindingFor(last)
      else BindingOf(ds[..|ds| - 1], name)
  }

  /** The index as the walk fills it. */
  class DeclarationIndex {
    var declarations: map<string, seq<Declaration>>
    var bindings: map<string, Binding>

    ghost predicate Holds(ds: seq<Declaration>)
      reads this
    {
      && (forall name :: (if name in declarations then |declarations[name]| else 0) == Count(ds, name))
      && (forall name :: BindingOf(ds, name) == if name in bindings then Some(bindings[name]) else None)
    }

    constructor (ds: seq<Declaration>)
      ensures Holds(ds)
    {
      declarations, bindings := map[], map[];
      new;
      for k := 0 to |ds|
        invariant Holds(ds[..k])
      {
        var d := ds[k];
        assert ds[..k + 1][..k] == ds[..k];
        var name := NameOf(d);
        if name.Some? {
          var before := if name.value in declarations then declarations[name.value] else [];
          declarations := declarations[name.value := before + [d]];
          var binding := BindingFor(d);
          if binding.Some? {
            bindings := bindings[name.value := binding.value];
          }
        }
      }
      assert ds[..|ds|] == ds;
    }
  }

  // ---- Resolution ----

  function Unwrap(e: Expr): (r: Expr)
    ensures !r.Wrapped? && (r == e || r < e) && Depth(r) <= Depth(e)
  {
    if e.Wrapped? then Unwrap(e.inner) else e
  }

  /** How far `Unwrap` and member accesses can descend into an expression. */
  function Depth(e: Expr): nat {
    match e
    case Wrapped(inner) => 1 + Depth(inner)
    case Access(target, _, _) => 1 + Depth(target)
    case Index(target, _, _) => 1 + Depth(target)
    case _ => 0
  }

  /** The loop that strips parentheses and type assertions. */
  method StripWrappers(expression: Expr) returns (current: Expr)
    ensures current == Unwrap(expression)
  {
    current := expression;
    while current.Wrapped?
      invariant Unwrap(current) == Unwrap(expression)
      decreases current
    {
      current := current.inner;
    }
  }

  datatype MemberAccess = MemberAccess(target: Expr, key: string)

  function MemberAccessOf(e: Expr): (r: Option<MemberAccess>)
    ensures r.Some? ==> Depth(r.value.target) < Depth(e)
  {
    match e
    case Access(target, key, false) => Some(MemberAccess(target, key))
    case Index(target, Text(key), false) => Some(MemberAccess(target, key))
    case _ => None
  }

  ghost function Names(p: Program): set<string> {
    set d | 0 <= d < |p.declarations| && NameOf(p.declarations[d]).Some? :: NameOf(p.declarations[d]).value
  }

  lemma {:induction false} BoundNameIsDeclared(ds: seq<Declaration>, name: string)
    requires BindingOf(ds, name).Some?
    ensures exists d :: 0 <= d < |ds| && NameOf(ds[d]) == Some(name) && BindingFor(ds[d]) == BindingOf(ds, name)
  {
    var last := |ds| - 1;
    if NameOf(ds[last]) == Some(name) && BindingFor(ds[last]).Some? {
    } else {
      BoundNameIsDeclared(ds[..last], name);
      var d :| 0 <= d < last && NameOf(ds[..last][d]) == Some(name) && BindingFor(ds[..last][d]) == BindingOf(ds[..last], name);
      assert ds[d] == ds[..last][d];
    }
  }

  function ResolveMember(access: MemberAccess, p: Program, seen: set<string>): Option<ModuleValue>
    decreases Names(p) - seen, Depth(access.target), 2
  {
    var owner := ResolveExpression(access.target, p, seen);
    if owner.Some? && owner.value.NamespaceValue? then Some(MemberValue(owner.value.package, access.key)) else None
  }

  function ResolveBinding(binding: Binding, p: Program, seen: set<string>): Option<ModuleValue>
    decreases Names(p) - seen, BindingDepth(binding), 3
  {
    match binding
    case Imported(value) => Some(value)
    case Alias(init) => ResolveExpression(init, p, seen)
    case Destructured(source, key) => ResolveMember(MemberAccess(source, key), p, seen)
  }

  function BindingDepth(binding: Binding): nat {
    match binding
    case Imported(_) => 0
    case Alias(init) => Depth(init)
    case Destructured(source, _) => Depth(source)
  }

  /** A name resolves through its one declaration, and never through itself: unseen names run out. */
  function ResolveIdentifier(name: string, p: Program, seen: set<string>): Option<ModuleValue>
    decreases Names(p) - seen, 0, 0
  {
    var binding := BindingOf(p.declarations, name);
    if name in seen || Count(p.declarations, name) != 1 || binding.None? then None
    else
      (BoundNameIsDeclared(p.declarations, name);
       assert name in Names(p) - seen;
       ResolveBinding(binding.value, p, seen + {name}))
  }

  function ResolveExpression(e: Expr, p: Program, seen: set<string>): Option<ModuleValue>
    decreases Names(p) - seen, Depth(e), 1
  {
    var inner := Unwrap(e);
    if inner.Ident? then ResolveIdentifier(inner.name, p, seen)
    else
      var access := MemberAccessOf(inner);
      if access.None? then None else ResolveMember(access.value, p, seen)
  }

  // ---- Constructions ----

  datatype Construction = Allowed | Host | Route | ForbiddenConstructor | UnresolvedConstructor

  function Classify(callee: Expr, p: Program): Construction {
    var value := ResolveExpression(callee, p, {});
    if value.None? || !value.value.MemberValue? then UnresolvedConstructor
    else if value.value.member !in AllowedMembers(value.value.package) then ForbiddenConstructor
    else if value.value.package == ROUTE_MODULE && value.value.member == ROUTE_MEMBER then Route
    else if value.value.package == HOST_MODULE then Host
    else Allowed
  }

  /** The text of a property's key; a spread or a computed key has none. */
  function KeyText(prop: Property): Option<string> {
    match prop
    case Assign(Plain(text, _), _) => Some(text)
    case Shorthand(variable) => Some(variable)
    case Method(Plain(text, _), _) => Some(text)
    case _ => None
  }

  // ---- Gated hosts ----

  /** The value of the one `transformations: ...` property, when every key of the options is plain. */
  function SoleTransformations(props: seq<Property>): Option<Expr> {
    if exists k :: 0 <= k < |props| && KeyText(props[k]).None? then None
    else
      var matching := Matching(props, TRANSFORMATIONS_KEY);
      if |matching| == 1 && matching[0].Assign? && matching[0].name.Plain? && matching[0].name.identifier
      then Some(matching[0].value) else None
  }

  function Matching(props: seq<Property>, key: string): seq<Property> {
    if props == [] then []
    else
      Matching(props[..|props| - 1], key) +
      (if KeyText(props[|props| - 1]) == Some(key) then [props[|props| - 1]] else [])
  }

  /** The gate is declared once in the file, as a top-level exported `const`. */
  predicate IsRealGate(p: Program) {
    && Count(p.declarations, GATE_NAME) == 1
    && exists d :: 0 <= d < |p.declarations| && NameOf(p.declarations[d]) == Some(GATE_NAME) &&
                   p.declarations[d].Variable? && p.declarations[d].isConst && p.declarations[d].single &&
                   p.declarations[d].exportedTopLevel
  }

  predicate IsGatedHost(args: seq<Expr>, p: Program) {
    && (forall k :: 0 <= k < |args| ==> !args[k].Spread?)
    && |args| >= 2 && args[1].Object?
    && var transformations := SoleTransformations(args[1].props);
       && transformations.Some? && transformations.value.Array?
       && Ident(GATE_NAME) in transformations.value.elements
       && IsRealGate(p)
  }

  // ---- Gated routes ----

  /** The places of the `networkId` keys. */
  function Positions(props: seq<Property>, key: string): (r: seq<nat>)
    ensures forall k :: 0 <= k < |r| ==> r[k] < |props|
  {
    if props == [] then []
    else
      var last := |props| - 1;
      Positions(props[..last], key) + (if KeyText(props[last]) == Some(key) then [last] else [])
  }

  /** What is left of an expression after its outer `.apply(...)` calls and wrappers are taken off. */
  function StripApplies(e: Expr): Expr
    decreases Unwrap(e)
  {
    var current := Unwrap(e);
    if current.Call? && current.callee.Access? && current.callee.key == "apply" then StripApplies(current.callee.target)
    else current
  }

  predicate IsVerifyCall(e: Expr, p: Program) {
    && e.Call? && e.callee == Ident(VERIFY_NAME) && |e.args| == 1
    && Count(p.declarations, VERIFY_NAME) == 1
    && BindingOf(p.declarations, VERIFY_NAME).Some?
  }

  /** One `networkId`, from a call of `verified`, that no later spread and no computed key can replace. */
  predicate IsGatedRoute(args: seq<Expr>, p: Program) {
    && (forall k :: 0 <= k < |args| ==> !args[k].Spread?)
    && |args| >= 2 && args[1].Object?
    && var props := args[1].props;
       var positions := Positions(props, NETWORK_ID_KEY);
       && |positions| == 1
       && props[positions[0]].Assign?
       && (forall k :: positions[0] < k < |props| ==> !props[k].Spreading?)
       && (forall k :: 0 <= k < |props| && !props[k].Spreading? ==> KeyText(props[k]).Some?)
       && IsVerifyCall(StripApplies(props[positions[0]].value), p)
  }

  /** The loop that looks under `.apply(...)` calls. */
  method LookUnderApplies(initializer: Expr) returns (current: Expr)
    ensures current == StripApplies(initializer)
  {
    current := StripWrappers(initializer);
    while current.Call? && current.callee.Access? && current.callee.key == "apply"
      invariant current == Unwrap(current) && StripApplies(current) == StripApplies(initializer)
      decreases current
    {
      current := StripWrappers(current.callee.target);
    }
  }

  // ---- The scan ----

  /** Every `new` in an expression, outermost first, in the order a walk meets them. */
  function News(e: Expr): seq<Expr>
    decreases e, 0
  {
    (if e.New? then [e] else []) + NewsOf(Parts(e), e)
  }

  function NewsOf(es: seq<Expr>, whole: Expr): seq<Expr>
    requires forall c :: c in es ==> c < whole
    decreases whole, 0, |es|
  {
    if es == [] then []
    else
      assert es[0] in es && forall c :: c in es[1..] ==> c in es;
      News(es[0]) + NewsOf(es[1..], whole)
  }

  function AllNews(es: seq<Expr>): seq<Expr> {
    if es == [] then [] else AllNews(es[..|es| - 1]) + News(es[|es| - 1])
  }

  /** The `new` expressions of a list that construct a Host. */
  function Hosts(news: seq<Expr>, p: Program): (r: seq<Expr>)
    requires forall n :: n in news ==> n.New?
    ensures forall n :: n in r <==> n in news && Classify(n.callee, p) == Host
  {
    if news == [] then []
    else
      var last := news[|news| - 1];
      Hosts(news[..|news| - 1], p) + (if Classify(last.callee, p) == Host then [last] else [])
  }

  lemma {:induction false} NewsAreNew(e: Expr)
    ensures forall n :: n in News(e) ==> n.New?
    decreases e, 0
  {
    NewsOfAreNew(Parts(e), e);
  }

  lemma {:induction false} NewsOfAreNew(es: seq<Expr>, whole: Expr)
    requires forall c :: c in es ==> c < whole
    ensures forall n :: n in NewsOf(es, whole) ==> n.New?
    decreases whole, 0, |es|
  {
    if es != [] {
      assert es[0] in es && forall c :: c in es[1..] ==> c in es;
      NewsAreNew(es[0]);
      NewsOfAreNew(es[1..], whole);
    }
  }

  lemma {:induction false} AllNewsAreNew(es: seq<Expr>)
    ensures forall n :: n in AllNews(es) ==> n.New?
  {
    if es != [] {
      AllNewsAreNew(es[..|es| - 1]);
      NewsAreNew(es[|es| - 1]);
    }
  }

  datatype ReasonCode = Forbidden | Unresolved | HostCount | HostGate | RouteGate

  /** One reported violation: a reason, and the `new` it is about (none when no Host is found at all). */
  datatype Violation = Violation(code: ReasonCode, node: Option<Expr>)

  /** A violation of one `new` that is not a Host. */
  predicate IsNewViolation(v: Violation, news: seq<Expr>, p: Program)
    requires forall n :: n in news ==> n.New?
  {
    && v.node.Some? && v.node.value in news
    && var n := v.node.value;
       match v.code
       case Forbidden => Classify(n.callee, p) == ForbiddenConstructor
       case Unresolved => Classify(n.callee, p) == UnresolvedConstructor
       case RouteGate => Classify(n.callee, p) == Route && !IsGatedRoute(n.args, p)
       case _ => false
  }

  /** A violation of the Hosts: their number, or one without its gate. */
  predicate IsHostViolation(v: Violation, hosts: seq<Expr>, p: Program)
    requires forall n :: n in hosts ==> n.New?
  {
    match v
    case Violation(HostCount, None) => |hosts| == 0
    case Violation(HostCount, Some(n)) => n in hosts && |hosts| != EXPECTED_HOST_COUNT
    case Violation(HostGate, Some(n)) => n in hosts && !IsGatedHost(n.args, p)
    case _ => false
  }

  method DescribeHostViolations(hosts: seq<Expr>, p: Program) returns (messages: seq<Violation>)
    requires forall n :: n in hosts ==> n.New?
    ensures forall v :: v in messages <==> IsHostViolation(v, hosts, p)
  {
    hide IsGatedHost;
    messages := [];
    if |hosts| == 0 {
      messages := [Violation(HostCount, None)];
    } else if |hosts| != EXPECTED_HOST_COUNT {
      messages := seq(|hosts|, k requires 0 <= k < |hosts| => Violation(HostCount, Some(hosts[k])));
      forall n | n in hosts
        ensures Violation(HostCount, Some(n)) in messages
      {
        var k :| 0 <= k < |hosts| && hosts[k] == n;
        assert messages[k] == Violation(HostCount, Some(n));
      }
    }
    ghost var counted := messages;
    for k := 0 to |hosts|
      invariant forall v :: v in messages <==>
                  v in counted || (v.code.HostGate? && v.node.Some? && v.node.value in hosts[..k] && IsHostViolation(v, hosts, p))
    {
      assert hosts[k] in hosts && hosts[..k + 1] == hosts[..k] + [hosts[k]];
      if !IsGatedHost(hosts[k].args, p) {
        messages := messages + [Violation(HostGate, Some(hosts[k]))];
      }
    }
    assert hosts[..|hosts|] == hosts;
  }

  /** The loop over every `new`: what is wrong with each, and the Hosts among them. */
  method ScanNews(news: seq<Expr>, p: Program) returns (messages: seq<Violation>, hosts: seq<Expr>)
    requires forall n :: n in news ==> n.New?
    ensures forall v :: v in messages <==> IsNewViolation(v, news, p)
    ensures hosts == Hosts(news, p)
  {
    hide IsGatedRoute, Classify;
    messages, hosts := [], [];
    for k := 0 to |news|
      invariant hosts == Hosts(news[..k], p)
      invariant forall v :: v in messages <==> IsNewViolation(v, news[..k], p)
    {
      var node := news[k];
      assert node in news && news[..k + 1] == news[..k] + [node] && news[..k + 1][..k] == news[..k];
      match Classify(node.callee, p) {
        case Host =>
          hosts := hosts + [node];
        case Route =>
          if !IsGatedRoute(node.args, p) {
            messages := messages + [Violation(RouteGate, Some(node))];
          }
        case ForbiddenConstructor =>
          messages := messages + [Violation(Forbidden, Some(node))];
        case UnresolvedConstructor =>
          messages := messages + [Violation(Unresolved, Some(node))];
        case Allowed =>
      }
    }
    assert news[..|news|] == news;
  }

  /** The scan: exactly the violations of the program are reported. */
  method ScanTenantsSource(p: Program) returns (messages: seq<Violation>)
    ensures forall n :: n in AllNews(p.expressions) ==> n.New?
    ensures forall v :: v in messages <==>
              || IsNewViolation(v, AllNews(p.expressions), p)
              || IsHostViolation(v, Hosts(AllNews(p.expressions), p), p)
  {
    AllNewsAreNew(p.expressions);
    var fromNews, hosts := ScanNews(AllNews(p.expressions), p);
    var fromHosts := DescribeHostViolations(hosts, p);
    messages := fromNews + fromHosts;
  }
}
