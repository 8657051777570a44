/** Substitution in formulas: replacing one variable by a term
    (`substitute(v, t)`) and applying a map simultaneously (`substitute(s)`),
    with renaming of a quantified variable that a replacement term would
    capture (quantifier.h, quantifier.cpp, atom.cpp, not.cpp,
    binary_connective.h, and.cpp, or.cpp, imp.cpp, iff.cpp).

    The source draws fresh names `uv0`, `uv1`, ... from one process-wide
    counter; here the counter is threaded through explicitly. Of the two
    operands of a binary connective the left one is substituted first. */
module Substitutions {
  import opened Names
  import opened Terms
  import opened Formulas
  import opened Revisions

  /** Prefix of the fresh names drawn by `getUniqueVarName`. */
  const FreshPrefix: string := "uv"

  /** The variables of the terms a map sends its keys to. */
  function RangeVars(s: Substitution): set<Name>
  {
    set y, z | y in s && z in Terms.Vars(s[y]) :: z
  }

  /** The entries of a map whose term contains `x`. */
  function Capturing(s: Substitution, x: Name): (r: Substitution)
    ensures r.Keys <= s.Keys
    ensures forall y :: y in r <==> y in s && x in Terms.Vars(s[y])
  {
    map y | y in s && x in Terms.Vars(s[y]) :: s[y]
  }

  /** Names a renamed quantified variable must avoid in `substitute(v, t)`. As
      written: the variables of the whole quantified formula and of `t`. The
      corrected version also avoids `v` itself. */
  function PairAvoid(rev: Revision, f: Formula, v: Name, t: Term): set<Name>
  {
    match rev
    case AsWritten => AllVars(f) + Terms.Vars(t)
    case Corrected => AllVars(f) + Terms.Vars(t) + {v}
  }

  /** Names a renamed quantified variable must avoid in `substitute(s)` at a
      quantifier with body `body`, given the surviving map `s`. As written: the
      variables of the body and of the capturing terms only. The corrected
      version avoids the variables of every term of the map and its keys. */
  function MapAvoid(rev: Revision, body: Formula, s: Substitution, x: Name): set<Name>
  {
    match rev
    case AsWritten => AllVars(body) + RangeVars(Capturing(s, x))
    case Corrected => AllVars(body) + RangeVars(s) + s.Keys
  }

  /** `f[v := t]`, drawing fresh names from counter `c`; returns the result and
      the advanced counter. A quantifier binding `v` is left alone; one whose
      variable occurs in `t` is renamed to a fresh variable first. */
  function Substitute(rev: Revision, f: Formula, v: Name, t: Term, c: nat): (r: (Formula, nat))
    ensures Complexity(r.0) == Complexity(f)
    ensures r.1 >= c
    decreases Complexity(f), 0
  {
    match f
    case True => (f, c)
    case False => (f, c)
    case Atom(p, ts) => (Atom(p, SubstTerms(ts, v, t)), c)
    case Not(g) =>
      var (g', c1) := Substitute(rev, g, v, t, c);
      (Not(g'), c1)
    case Binary(k, a, b) =>
      var (a', c1) := Substitute(rev, a, v, t, c);
      var (b', c2) := Substitute(rev, b, v, t, c1);
      (Binary(k, a', b'), c2)
    case Quantified(q, x, body) =>
      if v == x then (f, c)
      else if x in Terms.Vars(t) then
        var (u, c1) := Fresh(FreshPrefix, PairAvoid(rev, f, v, t), c);
        var (b1, c2) := Substitute(rev, body, x, Var(u), c1);
        var (b2, c3) := Substitute(rev, b1, v, t, c2);
        (Quantified(q, u, b2), c3)
      else
        var (b1, c1) := Substitute(rev, body, v, t, c);
        (Quantified(q, x, b1), c1)
  }

  /** `substitute(s)`, drawing fresh names from counter `c`. At a quantifier the
      entry for its own variable is dropped; if nothing is left the quantifier is
      returned unchanged; if a remaining term contains the quantified variable,
      that variable is first renamed to a fresh one. */
  function MapSubstitute(rev: Revision, f: Formula, s: Substitution, c: nat): (r: (Formula, nat))
    ensures Complexity(r.0) == Complexity(f)
    ensures r.1 >= c
    decreases Complexity(f)
  {
    match f
    case True => (f, c)
    case False => (f, c)
    case Atom(p, ts) => (Atom(p, ApplyTerms(s, ts)), c)
    case Not(g) =>
      var (g', c1) := MapSubstitute(rev, g, s, c);
      (Not(g'), c1)
    case Binary(k, a, b) =>
      var (a', c1) := MapSubstitute(rev, a, s, c);
      var (b', c2) := MapSubstitute(rev, b, s, c1);
      (Binary(k, a', b'), c2)
    case Quantified(q, x, body) =>
      var rest := s - {x};
      if rest == map[] then (f, c)
      else if Capturing(rest, x) != map[] then
        var (u, c1) := Fresh(FreshPrefix, MapAvoid(rev, body, rest, x), c);
        var (b1, c2) := Substitute(rev, body, x, Var(u), c1);
        var (b2, c3) := MapSubstitute(rev, b1, rest, c2);
        (Quantified(q, u, b2), c3)
      else
        var (b1, c1) := MapSubstitute(rev, body, rest, c);
        (Quantified(q, x, b1), c1)
  }

  // ---------------------------------------------------------------------
  // Lemmas
  // ---------------------------------------------------------------------

  /** The variables of an atom's terms after replacing `v` by `t`. */
  lemma AtomSubstVars(ts: seq<Term>, v: Name, t: Term)
    ensures TermsVars(SubstTerms(ts, v, t)) == if v in TermsVars(ts) then (TermsVars(ts) - {v}) + Terms.Vars(t) else TermsVars(ts)
  {
    SubstVars(Fn("", ts), v, t);
  }

  /** The variables of an atom's terms after applying a map. */
  lemma AtomApplyVars(s: Substitution, ts: seq<Term>)
    ensures TermsVars(ApplyTerms(s, ts)) == Image(TermsVars(ts), s)
  {
    ApplyVars(s, Fn("", ts));
  }

  /** Capture-avoiding substitution law: `v` stops being free and the
      variables of `t` become free exactly when `v` was free. */
  lemma {:induction false} SubstituteFreeVars(f: Formula, v: Name, t: Term, c: nat)
    ensures FreeVars(Substitute(Corrected, f, v, t, c).0)
         == if v in FreeVars(f) then (FreeVars(f) - {v}) + Terms.Vars(t) else FreeVars(f)
    decreases Complexity(f), 1
  {
    match f
    case True =>
    case False =>
    case Atom(p, ts) => AtomSubstVars(ts, v, t);
    case Not(g) => SubstituteFreeVars(g, v, t, c);
    case Binary(k, a, b) =>
      var (a', c1) := Substitute(Corrected, a, v, t, c);
      SubstituteFreeVars(a, v, t, c);
      SubstituteFreeVars(b, v, t, c1);
    case Quantified(q, x, body) =>
      if v == x {
      } else if x in Terms.Vars(t) {
        SubstituteFreeVarsRenamed(q, x, body, v, t, c);
      } else {
        SubstituteFreeVars(body, v, t, c);
      }
  }

  /** `SubstituteFreeVars` for a quantifier whose bound variable occurs in
      `t` and is renamed first. */
  lemma {:induction false} SubstituteFreeVarsRenamed(q: Quantifier, x: Name, body: Formula, v: Name, t: Term, c: nat)
    requires v != x && x in Terms.Vars(t)
    ensures var f := Quantified(q, x, body);
      FreeVars(Substitute(Corrected, f, v, t, c).0)
         == if v in FreeVars(f) then (FreeVars(f) - {v}) + Terms.Vars(t) else FreeVars(f)
    decreases Complexity(Quantified(q, x, body)), 0
  {
    var f := Quantified(q, x, body);
    var (u, c1) := Fresh(FreshPrefix, PairAvoid(Corrected, f, v, t), c);
    var (b1, c2) := Substitute(Corrected, body, x, Var(u), c1);
    FreeVarsWithinFlagged(body);
    assert u !in FreeVars(body) && u != v && u !in Terms.Vars(t);
    SubstituteFreeVars(body, x, Var(u), c1);
    SubstituteFreeVars(b1, v, t, c2);
    FreeAfterRename(FreeVars(body), x, u, v, Terms.Vars(t), FreeVars(b1),
                    FreeVars(Substitute(Corrected, b1, v, t, c2).0));
  }

  /** The set reasoning of `SubstituteFreeVarsRenamed`: renaming the bound
      variable `x` to a fresh `u`, substituting for `v` and dropping `u`
      again acts on the free variables other than `x` as the substitution. */
  lemma FreeAfterRename(free: set<Name>, x: Name, u: Name, v: Name, tv: set<Name>,
                        renamed: set<Name>, substituted: set<Name>)
    requires u !in free && u != v && u !in tv && v != x
    requires renamed == if x in free then (free - {x}) + {u} else free
    requires substituted == if v in renamed then (renamed - {v}) + tv else renamed
    ensures substituted - {u} == if v in free - {x} then ((free - {x}) - {v}) + tv else free - {x}
  {
  }

  /** As written, the renamed variable may be `v` itself when `v` does not occur
      in the formula: (V.x)(p(x))[uv0 := f(x)] becomes (V.uv0)(p(f(x))), which
      binds nothing and makes `x` free although the original formula is closed. */
  lemma PairRenameCollision()
    ensures var f := Quantified(Forall, "x", Atom("p", [Var("x")]));
      var t := Fn("f", [Var("x")]);
      var r := Substitute(AsWritten, f, "uv0", t, 0).0;
      && r == Quantified(Forall, "uv0", Atom("p", [t]))
      && FreeVars(f) == {}
      && FreeVars(r) == {"x"}
  {
    var f := Quantified(Forall, "x", Atom("p", [Var("x")]));
    var t := Fn("f", [Var("x")]);
    TermsVarsSingle(Var("x"));
    TermsVarsSingle(t);
    assert AllVars(f) == {"x"};
    assert Candidate(FreshPrefix, 0) == "uv0";
    assert Fresh(FreshPrefix, PairAvoid(AsWritten, f, "uv0", t), 0) == ("uv0", 1);
    assert SubstTerms([Var("x")], "x", Var("uv0")) == [Var("uv0")];
    assert SubstTerms([Var("uv0")], "uv0", t) == [t];
  }

  lemma ImageUnion(a: set<Name>, b: set<Name>, s: Substitution)
    ensures Image(a + b, s) == Image(a, s) + Image(b, s)
  {
  }

  /** Capture-avoiding map law: the free variables of the result are the images
      of the free variables of the formula. */
  lemma {:induction false} MapSubstituteFreeVars(f: Formula, s: Substitution, c: nat)
    ensures FreeVars(MapSubstitute(Corrected, f, s, c).0) == Image(FreeVars(f), s)
    decreases Complexity(f), 1
  {
    match f
    case True =>
    case False =>
    case Atom(p, ts) => AtomApplyVars(s, ts);
    case Not(g) => MapSubstituteFreeVars(g, s, c);
    case Binary(k, a, b) =>
      var (a', c1) := MapSubstitute(Corrected, a, s, c);
      MapSubstituteFreeVars(a, s, c);
      MapSubstituteFreeVars(b, s, c1);
      ImageUnion(FreeVars(a), FreeVars(b), s);
    case Quantified(q, x, body) =>
      var rest := s - {x};
      var outer := FreeVars(body) - {x};
      if rest == map[] {
        forall y | y in outer ensures VarsUnder(s, y) == {y} {
          assert y !in rest;
        }
      } else if Capturing(rest, x) != map[] {
        MapSubstituteFreeVarsRenamed(q, x, body, s, c);
      } else {
        MapSubstituteFreeVarsKept(q, x, body, s, c);
      }
  }

  /** `MapSubstituteFreeVars` for a quantifier whose bound variable a term
      of the map would capture, so that it is renamed first. */
  lemma {:induction false} MapSubstituteFreeVarsRenamed(q: Quantifier, x: Name, body: Formula, s: Substitution, c: nat)
    requires s - {x} != map[] && Capturing(s - {x}, x) != map[]
    ensures FreeVars(MapSubstitute(Corrected, Quantified(q, x, body), s, c).0) == Image(FreeVars(Quantified(q, x, body)), s)
    decreases Complexity(Quantified(q, x, body)), 0
  {
    var rest := s - {x};
    var (u, c1) := Fresh(FreshPrefix, MapAvoid(Corrected, body, rest, x), c);
    var (b1, c2) := Substitute(Corrected, body, x, Var(u), c1);
    FreeVarsWithinFlagged(body);
    SubstituteFreeVars(body, x, Var(u), c1);
    MapSubstituteFreeVars(b1, rest, c2);
    ImageAfterRename(FreeVars(body), x, u, FreeVars(b1), s);
  }

  /** The set reasoning of `MapSubstituteFreeVarsRenamed`: renaming the bound
      variable `x` to a name `u` that the map neither has as a key nor
      introduces, then applying the map without `x` and dropping `u`, gives
      the image of the free variables other than `x`. */
  lemma ImageAfterRename(free: set<Name>, x: Name, u: Name, renamed: set<Name>, s: Substitution)
    requires u !in free && u !in (s - {x}).Keys && u !in RangeVars(s - {x})
    requires renamed == if x in free then (free - {x}) + {u} else free
    ensures Image(renamed, s - {x}) - {u} == Image(free - {x}, s)
  {
    var rest := s - {x};
    assert renamed - {u} == free - {x};
    forall y | y in renamed ensures u in VarsUnder(rest, y) <==> y == u {
      if y in rest {
        assert Terms.Vars(rest[y]) <= RangeVars(rest);
      }
    }
    forall y | y in free - {x} ensures VarsUnder(rest, y) == VarsUnder(s, y) {
    }
  }

  /** `MapSubstituteFreeVars` for a quantifier that nothing captures: the
      map without the bound variable goes inside. */
  lemma {:induction false} MapSubstituteFreeVarsKept(q: Quantifier, x: Name, body: Formula, s: Substitution, c: nat)
    requires s - {x} != map[] && Capturing(s - {x}, x) == map[]
    ensures FreeVars(MapSubstitute(Corrected, Quantified(q, x, body), s, c).0) == Image(FreeVars(Quantified(q, x, body)), s)
    decreases Complexity(Quantified(q, x, body)), 0
  {
    var rest := s - {x};
    var outer := FreeVars(body) - {x};
    MapSubstituteFreeVars(body, rest, c);
    forall y | y in FreeVars(body) ensures x in VarsUnder(rest, y) <==> y == x {
      if y in rest {
        assert y !in Capturing(rest, x);
      }
    }
    forall y | y in outer ensures VarsUnder(rest, y) == VarsUnder(s, y) {
    }
  }

  /** The computation behind `MapRenameCollision`. */
  lemma MapRenameCollisionResult()
    ensures MapSubstitute(AsWritten, Quantified(Forall, "x", Atom("p", [Var("x"), Var("y")])),
                          map["y" := Var("x"), "uv0" := Var("z")], 0)
         == (Quantified(Forall, "uv0", Atom("p", [Var("z"), Var("x")])), 1)
  {
    MapRenameCollisionPick();
    MapRenameCollisionBody();
  }

  /** The body of `MapRenameCollision` after renaming and after the map. */
  lemma MapRenameCollisionBody()
    ensures Substitute(AsWritten, Atom("p", [Var("x"), Var("y")]), "x", Var("uv0"), 1)
         == (Atom("p", [Var("uv0"), Var("y")]), 1)
    ensures ApplyTerms(map["y" := Var("x"), "uv0" := Var("z")], [Var("uv0"), Var("y")]) == [Var("z"), Var("x")]
  {
    assert SubstTerms([Var("x"), Var("y")], "x", Var("uv0")) == [Var("uv0"), Var("y")];
  }

  /** In `MapRenameCollision` the binder `x` is captured and renamed to `uv0`,
      the first candidate, although `uv0` is a key of the map. */
  lemma MapRenameCollisionPick()
    ensures map["y" := Var("x"), "uv0" := Var("z")] - {"x"} == map["y" := Var("x"), "uv0" := Var("z")]
    ensures Capturing(map["y" := Var("x"), "uv0" := Var("z")], "x") != map[]
    ensures Fresh(FreshPrefix, MapAvoid(AsWritten, Atom("p", [Var("x"), Var("y")]),
                                        map["y" := Var("x"), "uv0" := Var("z")], "x"), 0) == ("uv0", 1)
  {
    var s := map["y" := Var("x"), "uv0" := Var("z")];
    TermsVarsPair(Var("x"), Var("y"));
    assert s - {"x"} == s;
    var m := map["y" := Var("x")];
    assert Capturing(s, "x") == m;
    assert "x" in RangeVars(m) by { assert m["y"] == Var("x"); }
    forall z | z in RangeVars(m) ensures z == "x" {
      var y :| y in m && z in Terms.Vars(m[y]);
    }
    assert MapAvoid(AsWritten, Atom("p", [Var("x"), Var("y")]), s, "x") == {"x", "y"};
    assert Candidate(FreshPrefix, 0) == "uv0";
    assert Fresh(FreshPrefix, {"x", "y"}, 0) == ("uv0", 1);
  }

  /** As written, the renamed variable may be a key of the map when that key
      does not occur in the body: (V.x)(p(x, y)) under {y -> x, uv0 -> z}
      becomes (V.uv0)(p(z, x)), so the bound occurrence is replaced by `z`. */
  lemma MapRenameCollision()
    ensures var f := Quantified(Forall, "x", Atom("p", [Var("x"), Var("y")]));
      var s := map["y" := Var("x"), "uv0" := Var("z")];
      var r := MapSubstitute(AsWritten, f, s, 0).0;
      && r == Quantified(Forall, "uv0", Atom("p", [Var("z"), Var("x")]))
      && Image(FreeVars(f), s) == {"x"}
      && FreeVars(r) == {"x", "z"}
  {
    MapRenameCollisionResult();
    MapRenameCollisionImage();
    MapRenameCollisionFree();
  }

  /** The free variables of the formula of `MapRenameCollision` map to `x`. */
  lemma MapRenameCollisionImage()
    ensures Image(FreeVars(Quantified(Forall, "x", Atom("p", [Var("x"), Var("y")]))),
                  map["y" := Var("x"), "uv0" := Var("z")]) == {"x"}
  {
    var s := map["y" := Var("x"), "uv0" := Var("z")];
    TermsVarsPair(Var("x"), Var("y"));
    assert FreeVars(Quantified(Forall, "x", Atom("p", [Var("x"), Var("y")]))) == {"y"};
    assert VarsUnder(s, "y") == {"x"};
  }

  /** The result of `MapRenameCollision` has `z` free as well. */
  lemma MapRenameCollisionFree()
    ensures FreeVars(Quantified(Forall, "uv0", Atom("p", [Var("z"), Var("x")]))) == {"x", "z"}
  {
    TermsVarsPair(Var("z"), Var("x"));
  }

  /** The empty map changes nothing and draws no fresh names. */
  lemma {:induction false} MapSubstituteEmpty(rev: Revision, f: Formula, c: nat)
    ensures MapSubstitute(rev, f, map[], c) == (f, c)
    decreases Complexity(f)
  {
    match f
    case True =>
    case False =>
    case Atom(p, ts) =>
      assert ApplyTerms(map[], ts) == ts;
    case Not(g) => MapSubstituteEmpty(rev, g, c);
    case Binary(k, a, b) =>
      MapSubstituteEmpty(rev, a, c);
      MapSubstituteEmpty(rev, b, c);
    case Quantified(q, x, body) =>
      var e: Substitution := map[];
      assert e - {x} == e;
  }

  /** When no quantifier of `f` binds a variable of `t`, nothing is renamed;
      if moreover `v` is not free, the formula comes back unchanged. */
  lemma {:induction false} SubstituteNotFree(rev: Revision, f: Formula, v: Name, t: Term, c: nat)
    requires Binders(f) !! Terms.Vars(t)
    requires v !in FreeVars(f)
    ensures Substitute(rev, f, v, t, c) == (f, c)
    decreases Complexity(f)
  {
    match f
    case True =>
    case False =>
    case Atom(p, ts) =>
      forall i | 0 <= i < |ts| ensures SubstTerms(ts, v, t)[i] == ts[i] {
        assert v !in Terms.Vars(ts[i]);
      }
      assert SubstTerms(ts, v, t) == ts;
    case Not(g) => SubstituteNotFree(rev, g, v, t, c);
    case Binary(k, a, b) =>
      SubstituteNotFree(rev, a, v, t, c);
      SubstituteNotFree(rev, b, v, t, c);
    case Quantified(q, x, body) =>
      if v != x {
        SubstituteNotFree(rev, body, v, t, c);
      }
  }

  /** Substitution adds no quantifier to a formula that has none. */
  lemma {:induction false} SubstituteQuantifierFree(rev: Revision, f: Formula, v: Name, t: Term, c: nat)
    requires QuantifierFree(f)
    ensures QuantifierFree(Substitute(rev, f, v, t, c).0)
    decreases Complexity(f)
  {
    match f
    case True =>
    case False =>
    case Atom(_, _) =>
    case Not(g) => SubstituteQuantifierFree(rev, g, v, t, c);
    case Binary(k, a, b) =>
      var (a', c1) := Substitute(rev, a, v, t, c);
      SubstituteQuantifierFree(rev, a, v, t, c);
      SubstituteQuantifierFree(rev, b, v, t, c1);
  }

  /** Without quantifiers, renaming `x` to a variable `y` that does not
      occur and renaming it back gives the formula back. */
  lemma {:induction false} SubstituteBack(rev: Revision, f: Formula, x: Name, y: Name, c: nat, d: nat)
    requires QuantifierFree(f) && y !in AllVars(f)
    ensures Substitute(rev, Substitute(rev, f, x, Var(y), c).0, y, Var(x), d).0 == f
    decreases Complexity(f)
  {
    match f
    case True =>
    case False =>
    case Atom(p, ts) =>
      var back := SubstTerms(SubstTerms(ts, x, Var(y)), y, Var(x));
      forall i | 0 <= i < |ts| ensures back[i] == ts[i] {
        SubstBack(ts[i], x, y);
      }
      assert back == ts;
    case Not(g) => SubstituteBack(rev, g, x, y, c, d);
    case Binary(k, a, b) =>
      var (a', c1) := Substitute(rev, a, x, Var(y), c);
      var (a'', d1) := Substitute(rev, a', y, Var(x), d);
      SubstituteBack(rev, a, x, y, c, d);
      SubstituteBack(rev, b, x, y, c1, d1);
  }

  /** The renaming is eager: it happens whenever the replacement term contains
      the quantified variable, even if `v` does not occur at all. So a formula
      in which `v` is not free can still come back changed (alpha-renamed):
      (V.x)(p(y))[z := x] is (V.uv0)(p(y)). */
  lemma EagerRenaming()
    ensures var f := Quantified(Forall, "x", Atom("p", [Var("y")]));
      && "z" !in AllVars(f)
      && Substitute(Corrected, f, "z", Var("x"), 0) == (Quantified(Forall, "uv0", Atom("p", [Var("y")])), 1)
  {
    var f := Quantified(Forall, "x", Atom("p", [Var("y")]));
    TermsVarsSingle(Var("y"));
    assert AllVars(f) == {"y"};
    assert Candidate(FreshPrefix, 0) == "uv0";
    assert Fresh(FreshPrefix, PairAvoid(Corrected, f, "z", Var("x")), 0) == ("uv0", 1);
    assert SubstTerms([Var("y")], "x", Var("uv0")) == [Var("y")];
    assert SubstTerms([Var("y")], "z", Var("x")) == [Var("y")];
  }
}
