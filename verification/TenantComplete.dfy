/**
 The scan from the declarations alone: what an expression denotes, said of the declaring nodes without the index, and
 that the scan finds exactly that. So no construction the file makes of an allowed member is reported.
 */
module TenantComplete {
  import opened Common
  import opened TenantAst
  import opened TenantScan
  import opened TenantSoundness
  import opened TenantFollow

  // ---- What an expression denotes ----

  /** `d` is the only node that declares the name. */
  predicate DeclaresAlone(p: Program, name: string, d: nat) {
    && d < |p.declarations| && NameOf(p.declarations[d]) == Some(name)
    && forall k :: 0 <= k < |p.declarations| && k != d ==> NameOf(p.declarations[k]) != Some(name)
  }

  /** The modules whose imports are followed. */
  predicate IsFollowed(package: string) {
    package == "@pulumi/hcloud" || package == "@pulumi/pulumi" || package == "@branchleft/hetzner-host"
  }

  /** The expression denotes the module or the member, through names declared once, at most `depth` declarations deep. */
  ghost predicate Denotes(p: Program, e: Expr, m: ModuleValue, depth: nat)
    decreases depth, 0, e
  {
    match e
    case Ident(name) => depth > 0 && exists d: nat :: DeclaresAlone(p, name, d) && Binds(p, p.declarations[d], m, depth - 1)
    case Wrapped(inner) => Denotes(p, inner, m, depth)
    case Access(target, key, optional) =>
      !optional && m.MemberValue? && m.member == key && Denotes(p, target, NamespaceValue(m.package), depth)
    case Index(target, argument, optional) =>
      !optional && argument.Text? && m.MemberValue? && m.member == argument.value &&
      Denotes(p, target, NamespaceValue(m.package), depth)
    case _ => false
  }

  /** The declaration binds its name to the module or the member: a value import, a `const` alias or a plain destructured element. */
  ghost predicate Binds(p: Program, d: Declaration, m: ModuleValue, depth: nat)
    decreases depth, 1, d
  {
    match d
    case NamespaceImport(_, package, typeOnly) => !typeOnly && IsFollowed(package) && m == NamespaceValue(package)
    case ImportSpecifier(name, property, package, typeOnly) =>
      !typeOnly && IsFollowed(package) && m == MemberValue(package, if property.Some? then property.value else name)
    case Variable(_, init, isConst, single, _) => init.Some? && isConst && single && Denotes(p, init.value, m, depth)
    case Element(_, key, plain, source, isConst, single) =>
      key.Some? && plain && source.Some? && isConst && single &&
      m.MemberValue? && m.member == key.value && Denotes(p, source.value, NamespaceValue(m.package), depth)
    case Other(_) => false
  }

  /** The expression denotes the module or the member, at some depth. */
  ghost predicate MayDenote(p: Program, e: Expr, m: ModuleValue) {
    exists depth: nat :: Denotes(p, e, m, depth)
  }

  lemma {:induction false} NeverDeclared(ds: seq<Declaration>, name: string)
    requires forall k :: 0 <= k < |ds| ==> NameOf(ds[k]) != Some(name)
    ensures Count(ds, name) == 0 && BindingOf(ds, name).None?
  {
    if ds != [] {
      NeverDeclared(ds[..|ds| - 1], name);
    }
  }

  /** A name declared by one node is counted once, and its binding is that node's. */
  lemma {:induction false} AloneIsTheBinding(ds: seq<Declaration>, name: string, d: nat)
    requires d < |ds| && NameOf(ds[d]) == Some(name)
    requires forall k :: 0 <= k < |ds| && k != d ==> NameOf(ds[k]) != Some(name)
    ensures Count(ds, name) == 1 && BindingOf(ds, name) == BindingFor(ds[d])
  {
    hide BindingFor;
    var init := ds[..|ds| - 1];
    if d == |ds| - 1 {
      NeverDeclared(init, name);
    } else {
      AloneIsTheBinding(init, name, d);
    }
  }

  /** A name that is counted once is declared by one node. */
  lemma OnceIsAlone(p: Program, name: string, d: nat)
    requires Count(p.declarations, name) == 1 && d < |p.declarations| && NameOf(p.declarations[d]) == Some(name)
    ensures DeclaresAlone(p, name, d)
  {
    forall k | 0 <= k < |p.declarations| && k != d
      ensures NameOf(p.declarations[k]) != Some(name)
    {
      if NameOf(p.declarations[k]) == Some(name) {
        TwoDeclarationsCount(p.declarations, name, if d < k then d else k, if d < k then k else d);
      }
    }
  }

  lemma {:induction false} DenotesDeeper(p: Program, e: Expr, m: ModuleValue, depth: nat, more: nat)
    requires Denotes(p, e, m, depth) && depth <= more
    ensures Denotes(p, e, m, more)
    decreases depth, 0, e
  {
    match e
    case Ident(name) =>
      var d: nat :| DeclaresAlone(p, name, d) && Binds(p, p.declarations[d], m, depth - 1);
      BindsDeeper(p, p.declarations[d], m, depth - 1, more - 1);
    case Wrapped(inner) => DenotesDeeper(p, inner, m, depth, more);
    case Access(target, _, _) => DenotesDeeper(p, target, NamespaceValue(m.package), depth, more);
    case Index(target, _, _) => DenotesDeeper(p, target, NamespaceValue(m.package), depth, more);
    case _ =>
  }

  lemma {:induction false} BindsDeeper(p: Program, d: Declaration, m: ModuleValue, depth: nat, more: nat)
    requires Binds(p, d, m, depth) && depth <= more
    ensures Binds(p, d, m, more)
    decreases depth, 1, d
  {
    match d
    case Variable(_, init, _, _, _) => DenotesDeeper(p, init.value, m, depth, more);
    case Element(_, _, _, source, _, _) => DenotesDeeper(p, source.value, NamespaceValue(m.package), depth, more);
    case _ =>
  }

  lemma {:induction false} DenotedIsFollowed(p: Program, e: Expr, m: ModuleValue, depth: nat) returns (steps: nat)
    requires Denotes(p, e, m, depth)
    ensures Follow(p, e, steps) == Some(m)
    decreases depth, 0, e
  {
    steps := 1;
    match e
    case Ident(name) =>
      var d: nat :| DeclaresAlone(p, name, d) && Binds(p, p.declarations[d], m, depth - 1);
      AloneIsTheBinding(p.declarations, name, d);
      steps := BoundIsFollowed(p, name, d, m, depth - 1);
    case Wrapped(inner) =>
      steps := DenotedIsFollowed(p, inner, m, depth);
      steps := steps + 1;
    case Access(target, _, _) =>
      steps := DenotedIsFollowed(p, target, NamespaceValue(m.package), depth);
      steps := steps + 1;
    case Index(target, _, _) =>
      steps := DenotedIsFollowed(p, target, NamespaceValue(m.package), depth);
      steps := steps + 1;
    case _ =>
  }

  lemma {:induction false} BoundIsFollowed(p: Program, name: string, d: nat, m: ModuleValue, depth: nat) returns (steps: nat)
    requires d < |p.declarations| && Binds(p, p.declarations[d], m, depth) && NameOf(p.declarations[d]) == Some(name)
    requires Count(p.declarations, name) == 1 && BindingOf(p.declarations, name) == BindingFor(p.declarations[d])
    ensures Follow(p, Ident(name), steps) == Some(m)
    decreases depth, 1, p.declarations[d]
  {
    steps := 1;
    match p.declarations[d]
    case Variable(_, init, _, _, _) =>
      steps := DenotedIsFollowed(p, init.value, m, depth);
      steps := steps + 1;
    case Element(_, _, _, source, _, _) =>
      steps := DenotedIsFollowed(p, source.value, NamespaceValue(m.package), depth);
      steps := steps + 1;
    case _ =>
  }

  lemma {:induction false} FollowedIsDenoted(p: Program, e: Expr, m: ModuleValue, steps: nat)
    requires Follow(p, e, steps) == Some(m)
    ensures Denotes(p, e, m, steps)
    decreases steps
  {
    match e
    case Ident(name) =>
      BoundNameIsDeclared(p.declarations, name);
      var d: nat :| d < |p.declarations| && NameOf(p.declarations[d]) == Some(name) &&
                    BindingFor(p.declarations[d]) == BindingOf(p.declarations, name);
      OnceIsAlone(p, name, d);
      match p.declarations[d] {
        case Variable(_, init, _, _, _) => FollowedIsDenoted(p, init.value, m, steps - 1);
        case Element(_, _, _, source, _, _) => FollowedIsDenoted(p, source.value, NamespaceValue(m.package), steps - 1);
        case _ =>
      }
      assert Binds(p, p.declarations[d], m, steps - 1);
    case Wrapped(inner) =>
      FollowedIsDenoted(p, inner, m, steps - 1);
      DenotesDeeper(p, inner, m, steps - 1, steps);
    case Access(target, _, _) =>
      FollowedIsDenoted(p, target, NamespaceValue(m.package), steps - 1);
      DenotesDeeper(p, target, NamespaceValue(m.package), steps - 1, steps);
    case Index(target, _, _) =>
      FollowedIsDenoted(p, target, NamespaceValue(m.package), steps - 1);
      DenotesDeeper(p, target, NamespaceValue(m.package), steps - 1, steps);
    case _ =>
  }

  /**
   Resolution is complete, from the declarations: the scan resolves an expression to a module or a member exactly when
   the declaring nodes make it denote that, cyclic aliases and all.
   */
  lemma ResolvesWhatIsDenoted(p: Program, e: Expr, m: ModuleValue)
    ensures ResolveExpression(e, p, {}) == Some(m) <==> MayDenote(p, e, m)
  {
    ResolutionIsExact(p, e, m);
    if steps: nat :| Follow(p, e, steps) == Some(m) {
      FollowedIsDenoted(p, e, m, steps);
    }
    if MayDenote(p, e, m) {
      var depth: nat :| Denotes(p, e, m, depth);
      var steps := DenotedIsFollowed(p, e, m, depth);
      assert Follow(p, e, steps) == Some(m);
    }
  }

  // ---- What is constructed ----

  /** The members the file may construct. */
  predicate MayConstruct(package: string, member: string) {
    || (package == "@pulumi/hcloud" && (member == "Network" || member == "NetworkSubnet" || member == "NetworkRoute"))
    || (package == "@pulumi/pulumi" && (member == "Config" || member == "StackReference"))
    || (package == "@branchleft/hetzner-host" && member == "Host")
  }

  ghost predicate DenotesMember(p: Program, callee: Expr, package: string, member: string) {
    MayDenote(p, callee, MemberValue(package, member))
  }

  /** A construction is classified by what its callee denotes: nothing the file may not construct is let by, and nothing it may is reported. */
  lemma ConstructionIsWhatIsDenoted(p: Program, callee: Expr)
    ensures Classify(callee, p) == UnresolvedConstructor <==> forall package, member :: !DenotesMember(p, callee, package, member)
    ensures Classify(callee, p) == ForbiddenConstructor <==>
            exists package, member :: DenotesMember(p, callee, package, member) && !MayConstruct(package, member)
    ensures Classify(callee, p) == Host <==> DenotesMember(p, callee, "@branchleft/hetzner-host", "Host")
    ensures Classify(callee, p) == Route <==> DenotesMember(p, callee, "@pulumi/hcloud", "NetworkRoute")
  {
    forall package, member
      ensures DenotesMember(p, callee, package, member) <==> ResolveExpression(callee, p, {}) == Some(MemberValue(package, member))
    {
      ResolvesWhatIsDenoted(p, callee, MemberValue(package, member));
    }
    hide ResolveExpression, DenotesMember;
    var value := ResolveExpression(callee, p, {});
    if value.Some? && value.value.MemberValue? {
      assert DenotesMember(p, callee, value.value.package, value.value.member);
    }
  }

  /** No `new` of a member the file may construct is reported forbidden or unresolved, whatever the imports and aliases it goes through. */
  lemma AllowedNewIsNotReported(p: Program, n: Expr, package: string, member: string, news: seq<Expr>)
    requires n.New? && DenotesMember(p, n.callee, package, member) && MayConstruct(package, member)
    requires forall x :: x in news ==> x.New?
    ensures !IsNewViolation(Violation(Forbidden, Some(n)), news, p) && !IsNewViolation(Violation(Unresolved, Some(n)), news, p)
  {
    ConstructionIsWhatIsDenoted(p, n.callee);
    hide DenotesMember, Classify;
    if Classify(n.callee, p) == ForbiddenConstructor {
      var other, another :| DenotesMember(p, n.callee, other, another) && !MayConstruct(other, another);
      DenotesOneMember(p, n.callee, package, member, other, another);
    }
  }

  lemma DenotesOneMember(p: Program, callee: Expr, package: string, member: string, other: string, another: string)
    requires DenotesMember(p, callee, package, member) && DenotesMember(p, callee, other, another)
    ensures package == other && member == another
  {
    ResolvesWhatIsDenoted(p, callee, MemberValue(package, member));
    ResolvesWhatIsDenoted(p, callee, MemberValue(other, another));
  }

  // ---- The forms that can be followed ----

  /** A name declared once resolves as its declaration says, and a member of a namespace import by either access. */
  lemma NameResolvesAsDeclared(p: Program, name: string, d: nat, m: ModuleValue)
    requires DeclaresAlone(p, name, d)
    ensures ResolveExpression(Ident(name), p, {}) == Some(m) <==> MayBind(p, p.declarations[d], m)
    ensures forall key, package :: m == NamespaceValue(package) && MayBind(p, p.declarations[d], m) ==>
              && ResolveExpression(Access(Ident(name), key, false), p, {}) == Some(MemberValue(package, key))
              && ResolveExpression(Index(Ident(name), Text(key), false), p, {}) == Some(MemberValue(package, key))
  {
    hide ResolveExpression;
    ResolvesWhatIsDenoted(p, Ident(name), m);
    NameDenotesItsBinding(p, name, d, m);
    forall key, package | m == NamespaceValue(package) && MayBind(p, p.declarations[d], m)
      ensures ResolveExpression(Access(Ident(name), key, false), p, {}) == Some(MemberValue(package, key))
      ensures ResolveExpression(Index(Ident(name), Text(key), false), p, {}) == Some(MemberValue(package, key))
    {
      var depth: nat :| Denotes(p, Ident(name), m, depth);
      assert Denotes(p, Access(Ident(name), key, false), MemberValue(package, key), depth);
      assert Denotes(p, Index(Ident(name), Text(key), false), MemberValue(package, key), depth);
      ResolvesWhatIsDenoted(p, Access(Ident(name), key, false), MemberValue(package, key));
      ResolvesWhatIsDenoted(p, Index(Ident(name), Text(key), false), MemberValue(package, key));
    }
  }

  ghost predicate MayBind(p: Program, d: Declaration, m: ModuleValue) {
    exists depth: nat :: Binds(p, d, m, depth)
  }

  /** What a declaration of each kind binds its name to. */
  lemma BindingOfEachKind(p: Program, d: Declaration, m: ModuleValue)
    ensures match d
            case NamespaceImport(_, package, typeOnly) => MayBind(p, d, m) <==> !typeOnly && IsFollowed(package) && m == NamespaceValue(package)
            case ImportSpecifier(name, property, package, typeOnly) =>
              MayBind(p, d, m) <==> !typeOnly && IsFollowed(package) && m == MemberValue(package, property.GetOr(name))
            case Variable(_, init, isConst, single, _) => MayBind(p, d, m) <==> init.Some? && isConst && single && MayDenote(p, init.value, m)
            case Element(_, key, plain, source, isConst, single) =>
              MayBind(p, d, m) <==>
              key.Some? && plain && source.Some? && isConst && single &&
              m.MemberValue? && m.member == key.value && MayDenote(p, source.value, NamespaceValue(m.package))
            case Other(_) => !MayBind(p, d, m)
  {
    if MayBind(p, d, m) {
      var depth: nat :| Binds(p, d, m, depth);
      if d.Variable? {
        assert Denotes(p, d.init.value, m, depth);
      } else if d.Element? {
        assert Denotes(p, d.source.value, NamespaceValue(m.package), depth);
      }
    }
    if d.Variable? && d.init.Some? && MayDenote(p, d.init.value, m) {
      var depth: nat :| Denotes(p, d.init.value, m, depth);
      assert d.isConst && d.single ==> Binds(p, d, m, depth);
    }
    if d.Element? && d.source.Some? && m.MemberValue? && MayDenote(p, d.source.value, NamespaceValue(m.package)) {
      var depth: nat :| Denotes(p, d.source.value, NamespaceValue(m.package), depth);
      assert d.key == Some(m.member) && d.plain && d.isConst && d.single ==> Binds(p, d, m, depth);
    }
    assert d.NamespaceImport? && !d.typeOnly && IsFollowed(d.package) && m == NamespaceValue(d.package) ==> Binds(p, d, m, 0);
    assert d.ImportSpecifier? && !d.typeOnly && IsFollowed(d.package) && m == MemberValue(d.package, d.property.GetOr(d.name)) ==> Binds(p, d, m, 0);
  }

  lemma NameDenotesItsBinding(p: Program, name: string, d: nat, m: ModuleValue)
    requires DeclaresAlone(p, name, d)
    ensures MayDenote(p, Ident(name), m) <==> MayBind(p, p.declarations[d], m)
  {
    if MayDenote(p, Ident(name), m) {
      var depth: nat :| Denotes(p, Ident(name), m, depth);
      var k: nat :| DeclaresAlone(p, name, k) && Binds(p, p.declarations[k], m, depth - 1);
      assert k == d;
    }
    if MayBind(p, p.declarations[d], m) {
      var depth: nat :| Binds(p, p.declarations[d], m, depth);
      assert Denotes(p, Ident(name), m, depth + 1);
    }
  }
}
