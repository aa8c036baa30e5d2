/** Bounded filling against recursive expansion: where the two agree, and where they do not. */
module BootstrapExpansion {
  import opened Common
  import opened BootstrapFill

  datatype Piece = Lit(text: string) | Ref(name: string)

  function RenderPiece(p: Piece): string {
    if p.Lit? then p.text else Reference(p.name)
  }

  function Render(ps: seq<Piece>): string {
    if ps == [] then "" else RenderPiece(ps[0]) + Render(ps[1..])
  }

  /** A text cut into its references and the literal text between them. */
  function Tokens(s: string): (ps: seq<Piece>)
    ensures forall p :: p in ps && p.Ref? ==> IsName(p.name)
    decreases |s|
  {
    if s == "" then []
    else
      var name := ReferenceAt(s);
      if name.Some? then [Ref(name.value)] + Tokens(s[|Reference(name.value)|..])
      else
        WithChar(s[0], Tokens(s[1..]))
  }

  /** Pieces with one more literal character before them. */
  function WithChar(c: char, rest: seq<Piece>): (ps: seq<Piece>)
    ensures (forall p :: p in rest && p.Ref? ==> IsName(p.name)) ==> forall p :: p in ps && p.Ref? ==> IsName(p.name)
  {
    if rest != [] && rest[0].Lit? then [Lit([c] + rest[0].text)] + rest[1..] else [Lit([c])] + rest
  }

  lemma {:induction false} TokensTile(s: string)
    ensures Render(Tokens(s)) == s
    decreases |s|
  {
    hide ReferenceAt, WithChar, Render;
    if s == "" {
      RenderOfNothing();
    } else {
      var name := ReferenceAt(s);
      if name.Some? {
        var after := s[|Reference(name.value)|..];
        TokensTile(after);
        RenderOfFirst(Ref(name.value), Tokens(after));
      } else {
        TokensTile(s[1..]);
        RenderWithChar(s[0], Tokens(s[1..]));
      }
    }
  }

  lemma RenderOfNothing()
    ensures Render([]) == ""
  {
  }

  lemma RenderOfFirst(first: Piece, rest: seq<Piece>)
    ensures Render([first] + rest) == RenderPiece(first) + Render(rest)
  {
    assert ([first] + rest)[1..] == rest;
  }

  lemma RenderWithChar(c: char, rest: seq<Piece>)
    ensures Render(WithChar(c, rest)) == [c] + Render(rest)
  {
    hide Render;
    if rest != [] && rest[0].Lit? {
      var tail := rest[1..];
      assert rest == [rest[0]] + tail;
      RenderOfFirst(rest[0], tail);
      RenderOfFirst(Lit([c] + rest[0].text), tail);
      assert [c] + (rest[0].text + Render(tail)) == ([c] + rest[0].text) + Render(tail);
    } else {
      RenderOfFirst(Lit([c]), rest);
    }
  }

  /** Recursive expansion, at most `depth` references deep, of every reference to its variable's own expansion. */
  function Expand(ps: seq<Piece>, vars: Variables, depth: nat): Option<string>
    decreases depth, |ps|
  {
    if ps == [] then Some("")
    else
      var head := ExpandPiece(ps[0], vars, depth);
      var rest := Expand(ps[1..], vars, depth);
      if head.Some? && rest.Some? then Some(head.value + rest.value) else None
  }

  function ExpandPiece(p: Piece, vars: Variables, depth: nat): Option<string>
    decreases depth, 0
  {
    if p.Lit? then Some(p.text)
    else if depth == 0 || Named(p.name, vars).Err? then None
    else Expand(Tokens(Named(p.name, vars).value), vars, depth - 1)
  }

  // ---- One round, on pieces ----

  predicate AllNamed(ps: seq<Piece>, vars: Variables) {
    forall k :: 0 <= k < |ps| && ps[k].Ref? ==> Named(ps[k].name, vars).Ok?
  }

  function SubPieces(ps: seq<Piece>, vars: Variables): seq<Piece>
    requires AllNamed(ps, vars)
  {
    if ps == [] then []
    else
      var tail := ps[1..];
      assert forall k :: 0 <= k < |tail| ==> tail[k] == ps[k + 1];
      (if ps[0].Lit? then [ps[0]] else Tokens(Named(ps[0].name, vars).value)) + SubPieces(tail, vars)
  }

  lemma {:induction false} RenderOfSum(a: seq<Piece>, b: seq<Piece>)
    ensures Render(a + b) == Render(a) + Render(b)
  {
    hide RenderPiece;
    if a == [] {
      assert a + b == b;
    } else {
      RenderOfSum(a[1..], b);
      assert (a + b)[1..] == a[1..] + b;
      assert RenderPiece(a[0]) + (Render(a[1..]) + Render(b)) == (RenderPiece(a[0]) + Render(a[1..])) + Render(b);
    }
  }

  lemma {:induction false} ExpandOfSum(a: seq<Piece>, b: seq<Piece>, vars: Variables, depth: nat)
    ensures var x, y := Expand(a, vars, depth), Expand(b, vars, depth);
            Expand(a + b, vars, depth) == if x.Some? && y.Some? then Some(x.value + y.value) else None
    decreases |a|
  {
    hide ExpandPiece;
    if a == [] {
      assert a + b == b;
      var y := Expand(b, vars, depth);
      if y.Some? {
        assert "" + y.value == y.value;
      }
    } else {
      ExpandOfSum(a[1..], b, vars, depth);
      assert (a + b)[1..] == a[1..] + b && (a + b)[0] == a[0];
      var head, x, y := ExpandPiece(a[0], vars, depth), Expand(a[1..], vars, depth), Expand(b, vars, depth);
      if head.Some? && x.Some? && y.Some? {
        assert head.value + (x.value + y.value) == (head.value + x.value) + y.value;
      }
    }
  }

  lemma {:induction false} NameRunOfName(name: string, rest: string)
    requires IsName(name) && rest != "" && !IsNameChar(rest[0])
    ensures NameRun(name + rest) == |name|
  {
    if |name| == 1 {
      assert (name + rest)[1..] == rest;
    } else {
      NameRunOfName(name[1..], rest);
      assert (name + rest)[1..] == name[1..] + rest;
    }
  }

  /** A rendered reference is read back, whatever follows it. */
  lemma ReferenceIsRead(name: string, rest: string)
    requires IsName(name)
    ensures ReferenceAt(Reference(name) + rest) == Some(name)
  {
    var s := Reference(name) + rest;
    assert s[3..] == name + (" }}" + rest);
    NameRunOfName(name, " }}" + rest);
    assert s[3..3 + |name|] == name;
    assert s[3 + |name|..] == " }}" + rest;
  }

  /** One round of filling replaces a text's references and nothing else; it is refused when one has no text. */
  lemma {:induction false} SubReplacesTokens(s: string, vars: Variables)
    ensures Sub(s, vars).Ok? <==> AllNamed(Tokens(s), vars)
    ensures AllNamed(Tokens(s), vars) ==> Sub(s, vars) == Ok(Render(SubPieces(Tokens(s), vars)))
    decreases |s|
  {
    hide ReferenceAt, WithChar, AllNamed, Render;
    if s == "" {
      NothingNamed(vars);
    } else {
      var name := ReferenceAt(s);
      if name.Some? {
        var after := s[|Reference(name.value)|..];
        SubReplacesTokens(after, vars);
        RoundOfFirst(Ref(name.value), Tokens(after), vars);
      } else {
        SubReplacesTokens(s[1..], vars);
        RoundOfChar(s[0], Tokens(s[1..]), vars);
      }
    }
  }

  lemma NothingNamed(vars: Variables)
    ensures AllNamed([], vars) && Render(SubPieces([], vars)) == ""
  {
  }

  lemma RoundOfChar(c: char, rest: seq<Piece>, vars: Variables)
    ensures AllNamed(WithChar(c, rest), vars) <==> AllNamed(rest, vars)
    ensures AllNamed(rest, vars) ==> Render(SubPieces(WithChar(c, rest), vars)) == [c] + Render(SubPieces(rest, vars))
  {
    hide AllNamed, SubPieces, Render;
    if rest != [] && rest[0].Lit? {
      assert rest == [rest[0]] + rest[1..];
      RoundOfFirst(rest[0], rest[1..], vars);
      RoundOfFirst(Lit([c] + rest[0].text), rest[1..], vars);
      if AllNamed(rest, vars) {
        var tail := Render(SubPieces(rest[1..], vars));
        assert [c] + (rest[0].text + tail) == ([c] + rest[0].text) + tail;
      }
    } else {
      RoundOfFirst(Lit([c]), rest, vars);
    }
  }

  /** What one round makes of a list's first piece and of the rest. */
  lemma RoundOfFirst(first: Piece, rest: seq<Piece>, vars: Variables)
    ensures AllNamed([first] + rest, vars) <==> (first.Ref? ==> Named(first.name, vars).Ok?) && AllNamed(rest, vars)
    ensures AllNamed([first] + rest, vars) ==>
              Render(SubPieces([first] + rest, vars)) ==
              (if first.Lit? then first.text else Named(first.name, vars).value) + Render(SubPieces(rest, vars))
  {
    var ps := [first] + rest;
    assert ps[0] == first && ps[1..] == rest && forall k :: 0 <= k < |rest| ==> ps[k + 1] == rest[k];
    if AllNamed(ps, vars) {
      var head := if first.Lit? then [first] else Tokens(Named(first.name, vars).value);
      RenderOfSum(head, SubPieces(rest, vars));
      if first.Lit? {
        assert head[1..] == [] && first.text + "" == first.text;
      } else {
        TokensTile(Named(first.name, vars).value);
      }
    }
  }

  /** Expanding after one round needs one level less. */
  lemma {:induction false} ExpandAfterRound(ps: seq<Piece>, vars: Variables, depth: nat)
    requires depth > 0
    ensures AllNamed(ps, vars) ==> Expand(ps, vars, depth) == Expand(SubPieces(ps, vars), vars, depth - 1)
    ensures !AllNamed(ps, vars) ==> Expand(ps, vars, depth).None?
  {
    if ps != [] {
      var tail := ps[1..];
      assert forall k :: 0 <= k < |tail| ==> tail[k] == ps[k + 1];
      ExpandAfterRound(tail, vars, depth);
      assert AllNamed(ps, vars) <==> (ps[0].Ref? ==> Named(ps[0].name, vars).Ok?) && AllNamed(tail, vars);
      if AllNamed(ps, vars) {
        var head := if ps[0].Lit? then [ps[0]] else Tokens(Named(ps[0].name, vars).value);
        ExpandOfSum(head, SubPieces(tail, vars), vars, depth - 1);
        LiteralExpands(ps[0], vars, depth - 1);
      }
    }
  }

  lemma LiteralExpands(p: Piece, vars: Variables, depth: nat)
    ensures p.Lit? ==> Expand([p], vars, depth) == Some(p.text)
  {
    assert [p][1..] == [];
    if p.Lit? {
      assert p.text + "" == p.text;
    }
  }

  // ---- Reading a rendered text again ----

  lemma ReferenceOpens(s: string)
    ensures ReferenceAt(s).Some? ==> |s| > 2 && s[0] == '{' && s[1] == '{' && s[2] == ' '
  {
    if ReferenceAt(s).Some? {
      assert s[0] == "{{ "[0] && s[1] == "{{ "[1] && s[2] == "{{ "[2];
    }
  }

  lemma OnlyTwoBraces(name: string)
    requires IsName(name)
    ensures forall i :: 2 <= i < |Reference(name)| ==> Reference(name)[i] != '{'
  {
    forall i | 2 <= i < |Reference(name)|
      ensures Reference(name)[i] != '{'
    {
      assert Reference(name)[i] == if i == 2 then ' ' else if i < 3 + |name| then name[i - 3] else " }}"[i - 3 - |name|];
    }
  }

  lemma ReferenceIsShort(m: string, text: string, next: string)
    requires IsName(m) && text != "" && |next| > 1 && next[0] == '{' && next[1] == '{'
    requires Reference(m) <= text + next
    ensures Reference(m) <= text
  {
    var r, s := Reference(m), text + next;
    OnlyTwoBraces(m);
    assert forall i :: 0 <= i < |r| ==> r[i] == s[i];
    assert s[|text|] == '{' && s[|text| + 1] == '{';
    assert |text| <= |r| ==> text == s[..|text|] == r[..|text|];
  }

  /** A reference that starts before another ends before it: what follows a text decides nothing about where it starts one. */
  lemma ReferencesAreApart(text: string, name: string, rest: string)
    requires text != "" && IsName(name)
    ensures ReferenceAt(text + (Reference(name) + rest)) == ReferenceAt(text)
  {
    hide ReferenceAt;
    var next := Reference(name) + rest;
    var s := text + next;
    if ReferenceAt(text).Some? {
      var m := ReferenceAt(text).value;
      ReferenceIsRead(m, text[|Reference(m)|..] + next);
      assert s == Reference(m) + (text[|Reference(m)|..] + next);
    } else if ReferenceAt(s).Some? {
      var m := ReferenceAt(s).value;
      ReferenceIsShort(m, text, next);
      assert text == Reference(m) + text[|Reference(m)|..];
      ReferenceIsRead(m, text[|Reference(m)|..]);
    }
  }

  /** A reference in a text is read back as itself, and cuts what stands before it from what stands after. */
  lemma {:induction false} TokensAround(text: string, name: string, rest: string)
    requires IsName(name)
    ensures Tokens(text + (Reference(name) + rest)) == Tokens(text) + ([Ref(name)] + Tokens(rest))
    decreases |text|
  {
    hide ReferenceAt, IsName, WithChar;
    var next, after := Reference(name) + rest, [Ref(name)] + Tokens(rest);
    if text == "" {
      ReferenceIsRead(name, rest);
      assert text + next == next && next[|Reference(name)|..] == rest;
      assert [] + after == after;
    } else {
      ReferencesAreApart(text, name, rest);
      var s, first := text + next, ReferenceAt(text);
      if first.Some? {
        var left := text[|Reference(first.value)|..];
        TokensAround(left, name, rest);
        assert s[|Reference(first.value)|..] == left + next;
        assert [Ref(first.value)] + (Tokens(left) + after) == [Ref(first.value)] + Tokens(left) + after;
      } else {
        TokensAround(text[1..], name, rest);
        assert s[1..] == text[1..] + next && s[0] == text[0];
        WithCharBefore(text[0], Tokens(text[1..]), name, Tokens(rest));
      }
    }
  }

  lemma WithCharBefore(c: char, ps: seq<Piece>, name: string, rest: seq<Piece>)
    ensures WithChar(c, ps + ([Ref(name)] + rest)) == WithChar(c, ps) + ([Ref(name)] + rest)
  {
    var after := [Ref(name)] + rest;
    if ps == [] {
      assert ps + after == after;
    } else if ps[0].Lit? {
      assert (ps + after)[1..] == ps[1..] + after && (ps + after)[0] == ps[0];
      var first := [Lit([c] + ps[0].text)];
      assert first + (ps[1..] + after) == (first + ps[1..]) + after;
    } else {
      assert (ps + after)[0] == ps[0];
      assert [Lit([c])] + (ps + after) == ([Lit([c])] + ps) + after;
    }
  }

  lemma MarkInPart(before: string, text: string, after: string)
    requires HasMark(text)
    ensures HasMark(before + text + after)
  {
    var i :| 0 <= i < |text| - 1 && text[i] == '{' && text[i + 1] in ['{', '%', '#'];
    var s := before + text + after;
    assert s[|before| + i] == '{' && s[|before| + i + 1] in ['{', '%', '#'];
  }

  lemma PlainExpands(text: string, vars: Variables, depth: nat)
    requires !HasMark(text)
    ensures Expand(Tokens(text), vars, depth) == Some(text)
  {
    if text != "" {
      PlainTokens(text);
      LiteralExpands(Lit(text), vars, depth);
    }
  }

  /**
   Reading a rendered text again keeps its references, so it expands only if its pieces do; and to the same, unless the
   expansion holds a template. `before` is literal text already passed over.
   */
  lemma {:induction false} RenderedExpandsTheSame(before: string, ps: seq<Piece>, vars: Variables, depth: nat)
    requires AllNames(ps)
    ensures var pieces, again := Expand(ps, vars, depth), Expand(Tokens(before + Render(ps)), vars, depth);
            && (pieces.None? ==> again.None?)
            && (pieces.Some? && !HasMark(before + pieces.value) ==> again == Some(before + pieces.value))
    decreases |ps|
  {
    hide ReferenceAt, HasMark, Tokens;
    if ps == [] {
      assert before + "" == before;
      if !HasMark(before) {
        PlainExpands(before, vars, depth);
      }
    } else {
      var tail := ps[1..];
      assert forall k :: 0 <= k < |tail| ==> tail[k] == ps[k + 1];
      var x := Expand(tail, vars, depth);
      if ps[0].Lit? {
        RenderedExpandsTheSame(before + ps[0].text, tail, vars, depth);
        assert before + (ps[0].text + Render(tail)) == before + ps[0].text + Render(tail);
        if x.Some? {
          assert before + (ps[0].text + x.value) == before + ps[0].text + x.value;
        }
      } else {
        RenderedExpandsTheSame("", tail, vars, depth);
        assert "" + Render(tail) == Render(tail);
        TokensAround(before, ps[0].name, Render(tail));
        assert Tokens(before) + ([ps[0]] + Tokens(Render(tail))) == Tokens(before) + [ps[0]] + Tokens(Render(tail));
        ExpandAround(before, ps[0], tail, vars, depth);
      }
    }
  }

  predicate AllNames(ps: seq<Piece>) {
    forall k :: 0 <= k < |ps| && ps[k].Ref? ==> IsName(ps[k].name)
  }

  lemma ExpandAround(before: string, ref: Piece, tail: seq<Piece>, vars: Variables, depth: nat)
    requires var x, y := Expand(tail, vars, depth), Expand(Tokens(Render(tail)), vars, depth);
             (x.None? ==> y.None?) && (x.Some? && !HasMark("" + x.value) ==> y == Some("" + x.value))
    ensures var e, x := ExpandPiece(ref, vars, depth), Expand(tail, vars, depth);
            var again := Expand(Tokens(before) + [ref] + Tokens(Render(tail)), vars, depth);
            && (e.None? || x.None? ==> again.None?)
            && (e.Some? && x.Some? && !HasMark(before + (e.value + x.value)) ==> again == Some(before + (e.value + x.value)))
  {
    hide HasMark, Tokens, ExpandPiece, Expand, Render;
    var e, x := ExpandPiece(ref, vars, depth), Expand(tail, vars, depth);
    ExpandOfSum(Tokens(before) + [ref], Tokens(Render(tail)), vars, depth);
    ExpandOfSum(Tokens(before), [ref], vars, depth);
    ExpandOfOne(ref, vars, depth);
    if e.Some? && x.Some? && !HasMark(before + (e.value + x.value)) {
      MarkFreeParts(before, e.value, x.value);
      PlainExpands(before, vars, depth);
      assert "" + x.value == x.value;
      assert before + (e.value + x.value) == (before + e.value) + x.value;
    }
  }

  lemma MarkFreeParts(before: string, middle: string, after: string)
    requires !HasMark(before + (middle + after))
    ensures !HasMark(before) && !HasMark(after)
  {
    hide HasMark;
    var s := before + (middle + after);
    assert "" + before + (middle + after) == s == (before + middle) + after + "";
    if HasMark(before) {
      MarkInPart("", before, middle + after);
    }
    if HasMark(after) {
      MarkInPart(before + middle, after, "");
    }
  }

  lemma ExpandOfOne(p: Piece, vars: Variables, depth: nat)
    ensures Expand([p], vars, depth) == ExpandPiece(p, vars, depth)
  {
    hide ExpandPiece;
    assert [p][1..] == [];
    var e := ExpandPiece(p, vars, depth);
    if e.Some? {
      assert e.value + "" == e.value;
    }
  }

  /** With no level to go, a text expands exactly when it holds no reference, and then to itself. */
  lemma {:induction false} NoLevelLeft(s: string, vars: Variables)
    ensures Expand(Tokens(s), vars, 0).None? ==> HasMark(s)
    ensures Expand(Tokens(s), vars, 0).Some? ==> Expand(Tokens(s), vars, 0).value == s
  {
    TokensTile(s);
    RefIsMark(Tokens(s), vars, "");
    assert "" + s == s;
  }

  lemma {:induction false} RefIsMark(ps: seq<Piece>, vars: Variables, before: string)
    requires AllNames(ps)
    ensures Expand(ps, vars, 0).None? ==> HasMark(before + Render(ps))
    ensures Expand(ps, vars, 0).Some? ==> Expand(ps, vars, 0).value == Render(ps)
    decreases |ps|
  {
    hide HasMark;
    if ps != [] {
      RefIsMark(ps[1..], vars, before + RenderPiece(ps[0]));
      assert before + (RenderPiece(ps[0]) + Render(ps[1..])) == before + RenderPiece(ps[0]) + Render(ps[1..]);
      if ps[0].Ref? {
        ReferenceIsRead(ps[0].name, "");
        assert Reference(ps[0].name) + "" == Reference(ps[0].name);
        ReferenceIsMark(Reference(ps[0].name));
        MarkInPart(before, Reference(ps[0].name), Render(ps[1..]));
      }
    }
  }

  lemma {:induction false} SubPiecesAreNamed(ps: seq<Piece>, vars: Variables)
    requires AllNames(ps) && AllNamed(ps, vars)
    ensures AllNames(SubPieces(ps, vars))
  {
    if ps != [] {
      SubPiecesAreNamed(ps[1..], vars);
    }
  }

  // ---- The main results ----

  /** `filled` is what filling must come to beside an expansion: an error without one, and the expansion when it holds no template. */
  predicate Agree(filled: Result<string, Error>, expansion: Option<string>) {
    if expansion.None? then filled.Err? else filled == Ok(expansion.value) <==> !HasMark(expansion.value)
  }

  lemma {:induction false} RoundsAreLevels(s: string, vars: Variables, n: nat)
    ensures Agree(FilledIn(s, vars, n), Expand(Tokens(s), vars, n))
    decreases n
  {
    hide HasMark, Sub, Tokens, AllNamed, Expand;
    if n == 0 {
      NoLevelLeft(s, vars);
    } else {
      SubReplacesTokens(s, vars);
      ExpandAfterRound(Tokens(s), vars, n);
      if AllNamed(Tokens(s), vars) {
        var ps := SubPieces(Tokens(s), vars);
        SubPiecesAreNamed(Tokens(s), vars);
        RenderedExpandsTheSame("", ps, vars, n - 1);
        assert "" + Render(ps) == Render(ps);
        RoundsAreLevels(Render(ps), vars, n - 1);
        FilledHasNoMark(Render(ps), vars, n - 1);
        var e := Expand(ps, vars, n - 1);
        if e.Some? {
          assert "" + e.value == e.value;
        }
      }
    }
  }

  lemma FilledHasNoMark(s: string, vars: Variables, n: nat)
    ensures FilledIn(s, vars, n).Ok? ==> !HasMark(FilledIn(s, vars, n).value)
  {
  }

  /**
   Bounded filling against recursive expansion, for every text and all variables: where three levels do not expand the
   text (a deeper chain, a cycle, a name with no text), filling refuses it; where they do, filling gives the expansion
   if and only if the expansion holds no template.
   */
  lemma FillIsExpansion(s: string, vars: Variables)
    ensures var expansion := Expand(Tokens(s), vars, FILL_DEPTH);
            && (expansion.None? ==> Filled(s, vars).Err?)
            && (expansion.Some? ==> (Filled(s, vars) == Ok(expansion.value) <==> !HasMark(expansion.value)))
  {
    hide HasMark, Tokens, Expand, Rounds;
    RoundsAreLevels(s, vars, FILL_DEPTH);
  }

  /** The bound changes no result: an expansion that needs fewer levels is the same with more. */
  lemma {:induction false} ExpansionIsStable(ps: seq<Piece>, vars: Variables, depth: nat, more: nat)
    requires Expand(ps, vars, depth).Some? && depth <= more
    ensures Expand(ps, vars, more) == Expand(ps, vars, depth)
    decreases depth, |ps|
  {
    if ps != [] {
      ExpansionIsStable(ps[1..], vars, depth, more);
      if ps[0].Ref? {
        ExpansionIsStable(Tokens(Named(ps[0].name, vars).value), vars, depth - 1, more - 1);
      }
    }
  }

  predicate Mentions(ps: seq<Piece>, names: set<string>) {
    exists k :: 0 <= k < |ps| && ps[k].Ref? && ps[k].name in names
  }

  /** Every name of the set that has a text leads to another name of the set: the set holds a cycle, or a name with no text. */
  predicate NeverEnds(names: set<string>, vars: Variables) {
    forall name :: name in names && Named(name, vars).Ok? ==> Mentions(Tokens(Named(name, vars).value), names)
  }

  /** A text that leads into a cycle has no expansion, however deep one looks. */
  lemma {:induction false} CyclesNeverExpand(ps: seq<Piece>, vars: Variables, names: set<string>, depth: nat)
    requires NeverEnds(names, vars) && Mentions(ps, names)
    ensures Expand(ps, vars, depth).None?
    decreases depth, |ps|
  {
    if ps[0].Ref? && ps[0].name in names {
      if depth > 0 && Named(ps[0].name, vars).Ok? {
        CyclesNeverExpand(Tokens(Named(ps[0].name, vars).value), vars, names, depth - 1);
      }
    } else {
      var k :| 0 <= k < |ps| && ps[k].Ref? && ps[k].name in names;
      assert ps[1..][k - 1] == ps[k];
      CyclesNeverExpand(ps[1..], vars, names, depth);
    }
  }

  /** Filling refuses every text that leads into a cycle. */
  lemma CyclesAreRefused(s: string, vars: Variables, names: set<string>)
    requires NeverEnds(names, vars) && Mentions(Tokens(s), names)
    ensures Filled(s, vars).Err?
  {
    CyclesNeverExpand(Tokens(s), vars, names, FILL_DEPTH);
    FillIsExpansion(s, vars);
  }

  lemma SubOfReference(name: string, vars: Variables)
    requires IsName(name) && Named(name, vars).Ok?
    ensures Sub(Reference(name), vars) == Named(name, vars)
    ensures Tokens(Reference(name)) == [Ref(name)]
  {
    var s := Reference(name);
    assert s == s + "" && s[|s|..] == "";
    ReferenceIsRead(name, "");
    assert Named(name, vars).value + "" == Named(name, vars).value;
  }

  /**
   Why the expansion must hold no template: where `a` is set to the text `{ b }}` and `b` to `x`, the text `{{{ a }}` is filled with
   `x`, through a reference that no text holds. Recursive expansion gives the text `{{ b }}`.
   */
  lemma SeamIsReadAsReference(a: string, b: string, x: string, vars: Variables)
    requires IsName(a) && IsName(b) && !HasMark(x)
    requires Named(a, vars) == Ok(Reference(b)[1..]) && Named(b, vars) == Ok(x)
    ensures Filled("{" + Reference(a), vars) == Ok(x)
    ensures Expand(Tokens("{" + Reference(a)), vars, FILL_DEPTH) == Some(Reference(b))
  {
    hide ReferenceAt, Named, HasMark, IsName;
    var s := "{" + Reference(a);
    assert s[1..] == Reference(a) && s[0] == '{' && s[2] == '{';
    ReferenceOpens(s);
    SubOfReference(a, vars);
    SubOfReference(b, vars);
    var once := Reference(b);
    assert once == ['{'] + once[1..];
    assert Sub(s, vars) == Ok(once);
    SubOfPlain(x, vars);
    assert Rounds(s, vars, 3) == Rounds(once, vars, 2) == Rounds(x, vars, 1) == Ok(x);
    SeamValueIsPlain(b);
    PlainTokens(once[1..]);
    assert [Lit("{")] + [Ref(a)] == [Lit("{"), Ref(a)];
    TwoPieces("{", a, once[1..], vars);
  }

  lemma SeamValueIsPlain(b: string)
    requires IsName(b)
    ensures !HasMark(Reference(b)[1..])
  {
    var value := Reference(b)[1..];
    assert value == "{ " + b + " }}";
    assert forall i :: 0 < i < |value| ==> value[i] != '{';
    assert value[0 + 1] == ' ';
  }

  lemma TwoPieces(text: string, name: string, value: string, vars: Variables)
    requires Named(name, vars) == Ok(value) && Tokens(value) == [Lit(value)]
    ensures Expand([Lit(text), Ref(name)], vars, FILL_DEPTH) == Some(text + value)
  {
    hide Tokens, Named;
    LiteralExpands(Lit(value), vars, 2);
    assert ExpandPiece(Ref(name), vars, 3) == Some(value);
    assert [Ref(name)][1..] == [] && [Lit(text), Ref(name)][1..] == [Ref(name)];
    assert value + "" == value;
    assert Expand([Ref(name)], vars, 3) == Some(value);
  }

  /** Text without a template is one literal. */
  lemma {:induction false} PlainTokens(s: string)
    requires s != "" && !HasMark(s)
    ensures Tokens(s) == [Lit(s)]
  {
    if ReferenceAt(s).Some? {
      ReferenceIsMark(s);
    }
    if |s| > 1 {
      if HasMark(s[1..]) {
        MarkInTail(s);
      }
      PlainTokens(s[1..]);
      assert s == [s[0]] + s[1..] && [Lit(s[1..])][1..] == [];
    } else {
      assert s[1..] == "" && s == [s[0]] && Tokens(s[1..]) == [];
    }
  }
}
