/** A program the scan accepts, so that what is proved of accepted programs is about something. */
module TenantExample {
  import opened Common
  import opened TenantAst
  import opened TenantScan
  import opened TenantSoundness

  const HOST_IMPORT := ImportSpecifier("Host", None, HOST_MODULE, false)
  const ROUTE_IMPORT := ImportSpecifier(ROUTE_MEMBER, None, ROUTE_MODULE, false)
  const GATE := Variable(Some(GATE_NAME), Some(Opaque([])), true, true, true)
  const VERIFIER := Variable(Some(VERIFY_NAME), Some(Opaque([])), true, true, false)

  function Declarations(): seq<Declaration> {
    [HOST_IMPORT, ROUTE_IMPORT, GATE, VERIFIER]
  }

  function HostOptions(): seq<Property> {
    [Assign(Plain(TRANSFORMATIONS_KEY, true), Array([Ident(GATE_NAME)]))]
  }

  function RouteProps(): seq<Property> {
    [Assign(Plain(NETWORK_ID_KEY, true), Call(Ident(VERIFY_NAME), [Text("network")]))]
  }

  function NewHost(name: string): Expr {
    New(Ident("Host"), [Text(name), Object(HostOptions())])
  }

  function NewRoute(): Expr {
    New(Ident(ROUTE_MEMBER), [Text("route"), Object(RouteProps())])
  }

  function Example(): Program {
    Program(Declarations(), [NewHost("edge1"), NewHost("mx1"), NewRoute()])
  }

  lemma DeclarationsByName(name: string)
    ensures var ds := Declarations();
            Count(ds, name) == (if name == "Host" then 1 else 0) + (if name == ROUTE_MEMBER then 1 else 0) +
                               (if name == GATE_NAME then 1 else 0) + (if name == VERIFY_NAME then 1 else 0)
    ensures var ds := Declarations();
            BindingOf(ds, name) ==
            if name == VERIFY_NAME then BindingFor(VERIFIER) else if name == GATE_NAME then BindingFor(GATE)
            else if name == ROUTE_MEMBER then BindingFor(ROUTE_IMPORT) else if name == "Host" then BindingFor(HOST_IMPORT) else None
  {
    var one, two, three := [HOST_IMPORT], [HOST_IMPORT, ROUTE_IMPORT], [HOST_IMPORT, ROUTE_IMPORT, GATE];
    OneMore([], HOST_IMPORT, name);
    OneMore(one, ROUTE_IMPORT, name);
    OneMore(two, GATE, name);
    OneMore(three, VERIFIER, name);
    assert [] + [HOST_IMPORT] == one && one + [ROUTE_IMPORT] == two && two + [GATE] == three && three + [VERIFIER] == Declarations();
  }

  lemma OneMore(ds: seq<Declaration>, d: Declaration, name: string)
    ensures Count(ds + [d], name) == Count(ds, name) + if NameOf(d) == Some(name) then 1 else 0
    ensures BindingOf(ds + [d], name) == if NameOf(d) == Some(name) && BindingFor(d).Some? then BindingFor(d) else BindingOf(ds, name)
  {
    assert (ds + [d])[..|ds|] == ds;
  }

  lemma Constructors()
    ensures Classify(Ident("Host"), Example()) == Host && Classify(Ident(ROUTE_MEMBER), Example()) == Route
  {
    hide Count, BindingOf;
    DeclarationsByName("Host");
    DeclarationsByName(ROUTE_MEMBER);
    assert ResolveExpression(Ident("Host"), Example(), {}) == Some(MemberValue(HOST_MODULE, "Host"));
    assert ResolveExpression(Ident(ROUTE_MEMBER), Example(), {}) == Some(MemberValue(ROUTE_MODULE, ROUTE_MEMBER));
  }

  lemma HostIsGated(name: string)
    ensures IsGatedHost(NewHost(name).args, Example())
  {
    hide Count, BindingOf;
    DeclarationsByName(GATE_NAME);
    var options := HostOptions();
    assert options[..0] == [] && Matching(options, TRANSFORMATIONS_KEY) == options;
    assert SoleTransformations(options) == Some(Array([Ident(GATE_NAME)]));
    assert Example().declarations[2] == GATE;
  }

  lemma RouteIsGated()
    ensures IsGatedRoute(NewRoute().args, Example())
  {
    hide Count, BindingOf;
    DeclarationsByName(VERIFY_NAME);
    var props := RouteProps();
    assert props[..0] == [] && Positions(props, NETWORK_ID_KEY) == [0];
    assert StripApplies(props[0].value) == props[0].value;
  }

  lemma {:induction false} NoNewInside(es: seq<Expr>, whole: Expr)
    requires forall c :: c in es ==> c < whole && News(c) == []
    ensures NewsOf(es, whole) == []
  {
    hide News;
    if es != [] {
      assert forall c :: c in es[1..] ==> c in es;
      NoNewInside(es[1..], whole);
    }
  }

  /** An expression with no `new` among its parts holds no other than itself. */
  lemma NewsOfWhole(e: Expr)
    requires forall c :: c in Parts(e) ==> News(c) == []
    ensures News(e) == if e.New? then [e] else []
  {
    NoNewInside(Parts(e), e);
  }

  lemma NewsOfCall(callee: string, text: string, name: string, value: Expr)
    requires forall c :: c in Parts(value) ==> News(c) == []
    requires !value.New?
    ensures var e := New(Ident(callee), [Text(text), Object([Assign(Plain(name, true), value)])]);
            News(e) == [e]
  {
    var props := [Assign(Plain(name, true), value)];
    NewsOfWhole(value);
    assert props[1..] == [] && PropertiesParts(props) == [value];
    NewsOfWhole(Object(props));
    NewsOfWhole(Text(text));
    NewsOfWhole(Ident(callee));
    NewsOfWhole(New(Ident(callee), [Text(text), Object(props)]));
  }

  lemma NewsOfThree(a: Expr, b: Expr, c: Expr)
    requires News(a) == [a] && News(b) == [b] && News(c) == [c]
    ensures AllNews([a, b, c]) == [a, b, c]
  {
    hide News;
    var es := [a, b, c];
    assert es[..2] == [a, b] && es[..2][..1] == [a] && es[..2][..1][..0] == [];
    assert AllNews(es[..2][..1]) == [a] && AllNews(es[..2]) == [a, b];
  }

  lemma NewsOfExample()
    ensures AllNews(Example().expressions) == [NewHost("edge1"), NewHost("mx1"), NewRoute()]
  {
    NewsOfWhole(Ident(GATE_NAME));
    NewsOfWhole(Ident(VERIFY_NAME));
    NewsOfWhole(Text("network"));
    hide News, AllNews;
    NewsOfCall("Host", "edge1", TRANSFORMATIONS_KEY, Array([Ident(GATE_NAME)]));
    NewsOfCall("Host", "mx1", TRANSFORMATIONS_KEY, Array([Ident(GATE_NAME)]));
    NewsOfCall(ROUTE_MEMBER, "route", NETWORK_ID_KEY, Call(Ident(VERIFY_NAME), [Text("network")]));
    NewsOfThree(NewHost("edge1"), NewHost("mx1"), NewRoute());
  }

  lemma HostsOfExample()
    ensures Hosts([NewHost("edge1"), NewHost("mx1"), NewRoute()], Example()) == [NewHost("edge1"), NewHost("mx1")]
  {
    Constructors();
    hide Classify, Example, HostOptions, RouteProps;
    var news := [NewHost("edge1"), NewHost("mx1"), NewRoute()];
    assert news[..2] == [NewHost("edge1"), NewHost("mx1")] && news[..2][..1] == [NewHost("edge1")] && news[..2][..1][..0] == [];
    assert Hosts(news[..2][..1], Example()) == [NewHost("edge1")];
    assert Hosts(news[..2], Example()) == [NewHost("edge1"), NewHost("mx1")];
  }

  /** Two gated Hosts and a gated route are accepted. */
  lemma ExampleIsAccepted()
    ensures Accepted(Example())
  {
    NewsOfExample();
    HostsOfExample();
    Constructors();
    HostIsGated("edge1");
    HostIsGated("mx1");
    RouteIsGated();
    hide Classify, IsGatedHost, IsGatedRoute, AllNews, Hosts, Example, HostOptions, RouteProps;
  }
}
