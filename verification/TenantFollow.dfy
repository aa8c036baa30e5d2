/**
 Resolution is complete: the `seen` names cut only circular aliases. `Follow` reads an expression through its
 bindings with no such guard, only a bound on the steps; whatever it reaches with some bound, the scan resolves.
 */
module TenantFollow {
  import opened Common
  import opened TenantAst
  import opened TenantScan

  function Member(owner: Option<ModuleValue>, key: string): Option<ModuleValue> {
    if owner.Some? && owner.value.NamespaceValue? then Some(MemberValue(owner.value.package, key)) else None
  }

  function Follow(p: Program, e: Expr, steps: nat): Option<ModuleValue>
    decreases steps
  {
    if steps == 0 then None
    else
      match e
      case Wrapped(inner) => Follow(p, inner, steps - 1)
      case Ident(name) =>
        if Count(p.declarations, name) != 1 then None
        else
          (match BindingOf(p.declarations, name)
           case None => None
           case Some(Imported(value)) => Some(value)
           case Some(Alias(init)) => Follow(p, init, steps - 1)
           case Some(Destructured(source, key)) => Member(Follow(p, source, steps - 1), key))
      case Access(target, key, false) => Member(Follow(p, target, steps - 1), key)
      case Index(target, Text(key), false) => Member(Follow(p, target, steps - 1), key)
      case _ => None
  }

  lemma {:induction false} MoreStepsAgree(p: Program, e: Expr, steps: nat)
    requires Follow(p, e, steps).Some?
    ensures Follow(p, e, steps + 1) == Follow(p, e, steps)
    decreases steps
  {
    match e {
      case Wrapped(inner) => MoreStepsAgree(p, inner, steps - 1);
      case Ident(name) =>
        match BindingOf(p.declarations, name) {
          case Some(Alias(init)) => MoreStepsAgree(p, init, steps - 1);
          case Some(Destructured(source, _)) => MoreStepsAgree(p, source, steps - 1);
          case _ =>
        }
      case Access(target, _, _) => MoreStepsAgree(p, target, steps - 1);
      case Index(target, _, _) => MoreStepsAgree(p, target, steps - 1);
      case _ =>
    }
  }

  /** No name of `seen` can be followed to a value within `steps`. */
  ghost predicate NoneFollowed(p: Program, seen: set<string>, steps: nat) {
    forall name, k: nat :: name in seen && k <= steps ==> Follow(p, Ident(name), k).None?
  }

  lemma {:induction false} FollowedIsResolved(p: Program, e: Expr, seen: set<string>, steps: nat)
    requires Follow(p, e, steps).Some? && NoneFollowed(p, seen, steps)
    ensures ResolveExpression(e, p, seen) == Follow(p, e, steps)
    decreases steps
  {
    match e {
      case Wrapped(inner) =>
        FollowedIsResolved(p, inner, seen, steps - 1);
      case Access(target, _, _) =>
        FollowedIsResolved(p, target, seen, steps - 1);
      case Index(target, _, _) =>
        FollowedIsResolved(p, target, seen, steps - 1);
      case Ident(name) =>
        if Follow(p, e, steps - 1).Some? {
          MoreStepsAgree(p, e, steps - 1);
          FollowedIsResolved(p, e, seen, steps - 1);
        } else {
          FailsBelow(p, e, steps - 1);
          BoundNameIsDeclared(p.declarations, name);
          assert ResolveExpression(e, p, seen) == ResolveIdentifier(name, p, seen);
          assert ResolveIdentifier(name, p, seen) == ResolveBinding(BindingOf(p.declarations, name).value, p, seen + {name});
          match BindingOf(p.declarations, name) {
            case Some(Alias(init)) => FollowedIsResolved(p, init, seen + {name}, steps - 1);
            case Some(Destructured(source, _)) => FollowedIsResolved(p, source, seen + {name}, steps - 1);
            case _ =>
          }
        }
      case _ =>
    }
  }

  lemma {:induction false} FailsBelow(p: Program, e: Expr, steps: nat)
    requires Follow(p, e, steps).None?
    ensures forall k: nat :: k <= steps ==> Follow(p, e, k).None?
    decreases steps
  {
    if steps > 0 {
      if Follow(p, e, steps - 1).Some? {
        MoreStepsAgree(p, e, steps - 1);
      }
      FailsBelow(p, e, steps - 1);
    }
  }

  lemma {:induction false} ResolvedIsFollowed(p: Program, e: Expr, seen: set<string>) returns (steps: nat)
    requires ResolveExpression(e, p, seen).Some?
    ensures Follow(p, e, steps) == ResolveExpression(e, p, seen)
    decreases Names(p) - seen, Depth(e), e
  {
    match e {
      case Wrapped(inner) =>
        steps := ResolvedIsFollowed(p, inner, seen);
        steps := steps + 1;
      case Access(target, _, _) =>
        steps := ResolvedIsFollowed(p, target, seen);
        steps := steps + 1;
      case Index(target, _, _) =>
        steps := ResolvedIsFollowed(p, target, seen);
        steps := steps + 1;
      case Ident(name) =>
        assert ResolveExpression(e, p, seen) == ResolveIdentifier(name, p, seen);
        BoundNameIsDeclared(p.declarations, name);
        assert name in Names(p) - seen;
        assert ResolveIdentifier(name, p, seen) == ResolveBinding(BindingOf(p.declarations, name).value, p, seen + {name});
        match BindingOf(p.declarations, name) {
          case Some(Alias(init)) => steps := ResolvedIsFollowed(p, init, seen + {name});
          case Some(Destructured(source, _)) => steps := ResolvedIsFollowed(p, source, seen + {name});
          case Some(Imported(_)) => steps := 0;
        }
        steps := steps + 1;
    }
  }

  /** The scan resolves an expression exactly when following its bindings reaches a module or a member, and to that. */
  lemma ResolutionIsExact(p: Program, e: Expr, m: ModuleValue)
    ensures ResolveExpression(e, p, {}) == Some(m) <==> exists steps: nat :: Follow(p, e, steps) == Some(m)
  {
    if ResolveExpression(e, p, {}) == Some(m) {
      var steps := ResolvedIsFollowed(p, e, {});
    }
    if steps: nat :| Follow(p, e, steps) == Some(m) {
      FollowedIsResolved(p, e, {}, steps);
    }
  }
}
