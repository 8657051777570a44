/** First-order resolution on a formula in clausal normal form
    (resolution.cpp): grouping (factoring) of unifiable literals inside a
    clause, renaming two clauses apart, resolving complementary literals, and
    the saturation loop that reports whether the empty clause was derived.

    A clause is a sequence of literals (atoms and negated atoms) and a CNF a
    sequence of clauses, edited as the source edits its vectors: new clauses
    are appended and the renamed clause of a pair is overwritten in place.
    Literals are compared structurally. The loops that can run forever carry a
    step bound `fuel`; unification inside resolution is given `rounds`
    rounds. */
module Resolution {
  import opened Wrappers
  import opened Names
  import opened Terms
  import opened Formulas
  import opened Substitutions
  import opened Unification
  import opened Revisions
  import opened Sequences
  import opened Paths

  type Clause = seq<Formula>
  type Cnf = seq<Clause>

  predicate LiteralClause(c: Clause)
  {
    forall l :: l in c ==> IsLiteral(l)
  }

  predicate LiteralCnf(cnf: Cnf)
  {
    forall m :: 0 <= m < |cnf| ==> LiteralClause(cnf[m])
  }

  /** The atom of a literal. */
  function AtomOf(l: Formula): Formula
    requires IsLiteral(l)
  {
    if l.Atom? then l else l.operand
  }

  /** The complementary literal: an atom's negation, a negation's atom. */
  function Opposite(l: Formula): (r: Formula)
    requires IsLiteral(l)
    ensures IsLiteral(r) && r.Atom? != l.Atom? && AtomOf(r) == AtomOf(l)
  {
    if l.Atom? then Not(l) else l.operand
  }

  // ---------------------------------------------------------------------
  // Unifying two atoms
  // ---------------------------------------------------------------------

  /** A map unifies the argument pairs exactly when it makes the argument
      lists equal. */
  lemma ZipUnifies(s: Substitution, a: seq<Term>, b: seq<Term>)
    requires |a| == |b|
    ensures Unifies(s, Zip(a, b)) <==> ApplyTerms(s, a) == ApplyTerms(s, b)
  {
    ArgumentsUnify(s, Pair(Fn("", a), Fn("", b)));
  }

  /** The helper `unify(a1, a2)`: atoms with different symbols are not
      unifiable, otherwise their argument lists are unified pairwise. The
      helper walks the first atom's arguments only and so takes equal arity
      for granted; this model reports atoms of different arity not
      unifiable instead. A unification that needs more than `rounds` rounds
      is reported not unifiable too. */
  function AtomUnify(a: Formula, b: Formula, rounds: nat): (r: Option<Substitution>)
    requires a.Atom? && b.Atom?
    ensures r.Some? ==> a.symbol == b.symbol && ApplyTerms(r.value, a.terms) == ApplyTerms(r.value, b.terms)
  {
    if a.symbol != b.symbol || |a.terms| != |b.terms| then None
    else
      match Unify(Corrected, Zip(a.terms, b.terms), rounds)
      case Unified(s) =>
        ZipUnifies(s, a.terms, b.terms);
        Some(s)
      case _ => None
  }

  /** The unifier of two atoms is most general: any map making the atoms equal
      is an instance of it. */
  lemma AtomUnifyMostGeneral(a: Formula, b: Formula, rounds: nat, s: Substitution, t: Term)
    requires a.Atom? && b.Atom? && AtomUnify(a, b, rounds).Some?
    requires ApplyTerms(s, a.terms) == ApplyTerms(s, b.terms)
    ensures Apply(s, Apply(AtomUnify(a, b, rounds).value, t)) == Apply(s, t)
  {
    ZipUnifies(s, a.terms, b.terms);
    UnifyMostGeneral(Corrected, Zip(a.terms, b.terms), rounds, s, t);
  }

  /** A failure that is not caused by the round bound means no map makes the
      atoms equal. */
  lemma AtomUnifyComplete(a: Formula, b: Formula, rounds: nat, s: Substitution)
    requires a.Atom? && b.Atom? && AtomUnify(a, b, rounds).None?
    requires |a.terms| == |b.terms| ==> !Unify(Corrected, Zip(a.terms, b.terms), rounds).OutOfFuel?
    ensures a.symbol != b.symbol || ApplyTerms(s, a.terms) != ApplyTerms(s, b.terms)
  {
    if a.symbol == b.symbol && |a.terms| == |b.terms| {
      UnifyComplete(Zip(a.terms, b.terms), rounds, s);
      ZipUnifies(s, a.terms, b.terms);
    }
  }

  // ---------------------------------------------------------------------
  // Substitution in literals and clauses
  // ---------------------------------------------------------------------

  /** `l->substitute(s)` on a literal. A literal has no quantifier, so no
      fresh name is drawn and the counter is irrelevant. */
  function SubstLiteral(l: Formula, s: Substitution): (r: Formula)
    requires IsLiteral(l)
    ensures IsLiteral(r) && r.Atom? == l.Atom?
    ensures AtomOf(r) == Atom(AtomOf(l).symbol, ApplyTerms(s, AtomOf(l).terms))
  {
    var a := AtomOf(l);
    var a' := Atom(a.symbol, ApplyTerms(s, a.terms));
    assert MapSubstitute(Corrected, a, s, 0) == (a', 0);
    MapSubstitute(Corrected, l, s, 0).0
  }

  /** Every literal of a clause substituted by `s`. */
  function SubstClause(c: Clause, s: Substitution): (r: Clause)
    requires LiteralClause(c)
    ensures |r| == |c| && LiteralClause(r)
    ensures forall k :: 0 <= k < |c| ==> r[k] == SubstLiteral(c[k], s)
  {
    var r := seq(|c|, k requires 0 <= k < |c| => SubstLiteral(c[k], s));
    assert forall l :: l in r ==> IsLiteral(l) by {
      forall l | l in r ensures IsLiteral(l) {
        var k :| 0 <= k < |r| && r[k] == l;
      }
    }
    r
  }

  /** `l->substitute(v, u)` on a literal, for a variable `u`. */
  function RenameLiteral(l: Formula, v: Name, u: Name): (r: Formula)
    requires IsLiteral(l)
    ensures IsLiteral(r) && r.Atom? == l.Atom?
    ensures AtomOf(r) == Atom(AtomOf(l).symbol, SubstTerms(AtomOf(l).terms, v, Var(u)))
  {
    var a := AtomOf(l);
    var a' := Atom(a.symbol, SubstTerms(a.terms, v, Var(u)));
    assert Substitute(Corrected, a, v, Var(u), 0) == (a', 0);
    Substitute(Corrected, l, v, Var(u), 0).0
  }

  /** The variables of a clause (`getClauseVars`). */
  function ClauseVars(c: Clause): set<Name>
  {
    set l, x | l in c && x in AllVars(l) :: x
  }

  /** The variables of a literal are those of its atom's terms. */
  lemma LiteralVars(l: Formula)
    requires IsLiteral(l)
    ensures AllVars(l) == TermsVars(AtomOf(l).terms)
  {
    if l.Not? {
      assert AllVars(l) == Formulas.Vars(l.operand, false);
    }
  }

  // ---------------------------------------------------------------------
  // Subsumption and tautology tests
  // ---------------------------------------------------------------------

  /** Every literal of `c1` is a literal of `c`. */
  predicate Within(c1: Clause, c: Clause)
  {
    forall l :: l in c1 ==> l in c
  }

  /** The inner loop of `clauseExists`: literals of `c1` from position `i` on
      are searched for in `c`. */
  function WithinFrom(c1: Clause, c: Clause, i: nat): (r: bool)
    requires i <= |c1|
    ensures r <==> forall m :: i <= m < |c1| ==> c1[m] in c
    decreases |c1| - i
  {
    i == |c1| || (c1[i] in c && WithinFrom(c1, c, i + 1))
  }

  /** The outer loop of `clauseExists` from clause `k` on. */
  function ClauseExistsFrom(cnf: Cnf, c: Clause, k: nat): (r: bool)
    requires k <= |cnf|
    ensures r <==> exists m :: k <= m < |cnf| && Within(cnf[m], c)
    decreases |cnf| - k
  {
    if k == |cnf| then false
    else
      var here := WithinFrom(cnf[k], c, 0);
      assert here <==> Within(cnf[k], c) by {
        if !here {
          var m :| 0 <= m < |cnf[k]| && cnf[k][m] !in c;
          assert cnf[k][m] in cnf[k];
        }
      }
      here || ClauseExistsFrom(cnf, c, k + 1)
  }

  /** `clauseExists`: some clause of the CNF has all its literals in `c`, so
      `c` adds no restriction. */
  function ClauseExists(cnf: Cnf, c: Clause): (r: bool)
    ensures r <==> exists c1 :: c1 in cnf && Within(c1, c)
  {
    var r := ClauseExistsFrom(cnf, c, 0);
    assert r ==> exists c1 :: c1 in cnf && Within(c1, c) by {
      if r {
        var m :| 0 <= m < |cnf| && Within(cnf[m], c);
        assert cnf[m] in cnf;
      }
    }
    r
  }

  /** The loop of `clauseTautology` from literal `i` on. */
  function TautologyFrom(c: Clause, i: nat): (r: bool)
    requires LiteralClause(c) && i <= |c|
    ensures r <==> exists m :: i <= m < |c| && Opposite(c[m]) in c
    decreases |c| - i
  {
    if i == |c| then false
    else
      assert c[i] in c;
      Opposite(c[i]) in c || TautologyFrom(c, i + 1)
  }

  /** `clauseTautology`: the clause holds an atom together with its negation. */
  function ClauseTautology(c: Clause): (r: bool)
    requires LiteralClause(c)
    ensures r <==> exists a :: a in c && a.Atom? && Not(a) in c
  {
    var r := TautologyFrom(c, 0);
    assert r ==> exists a :: a in c && a.Atom? && Not(a) in c by {
      if r {
        var m :| 0 <= m < |c| && Opposite(c[m]) in c;
        assert c[m] in c;
        if c[m].Atom? {
          assert Not(c[m]) in c;
        } else {
          assert c[m].operand in c && Not(c[m].operand) == c[m];
        }
      }
    }
    assert (exists a :: a in c && a.Atom? && Not(a) in c) ==> r by {
      if exists a :: a in c && a.Atom? && Not(a) in c {
        var a :| a in c && a.Atom? && Not(a) in c;
        var m :| 0 <= m < |c| && c[m] == a;
        assert Opposite(c[m]) in c;
      }
    }
    r
  }

  // ---------------------------------------------------------------------
  // Grouping (factoring)
  // ---------------------------------------------------------------------

  /** The unifier `tryGroupLiterals` looks for: two atoms, or the atoms of two
      negations; literals of opposite polarity are not tried. */
  function GroupUnifier(li: Formula, lj: Formula, rounds: nat): (r: Option<Substitution>)
    requires IsLiteral(li) && IsLiteral(lj)
    ensures r.Some? ==> li.Atom? == lj.Atom? && SubstLiteral(li, r.value) == SubstLiteral(lj, r.value)
  {
    if li.Atom? && lj.Atom? then AtomUnify(li, lj, rounds)
    else if li.Not? && lj.Not? then AtomUnify(li.operand, lj.operand, rounds)
    else None
  }

  /** The grouped clause: literal `j` removed by swapping it with the last one,
      the rest substituted. */
  function Factor(c: Clause, j: nat, s: Substitution): (r: Clause)
    requires LiteralClause(c) && j < |c|
    ensures |r| == |c| - 1
  {
    SubstClause(RemoveSwap(c, j), s)
  }

  /** `d` is obtained from `c` by grouping two of its literals. */
  predicate IsFactor(c: Clause, d: Clause, rounds: nat)
  {
    && LiteralClause(c)
    && exists a, b :: 0 <= a < b < |c| && GroupUnifier(c[a], c[b], rounds).Some?
         && d == Factor(c, b, GroupUnifier(c[a], c[b], rounds).value)
  }

  /** A clause worth adding: no clause of `prior` subsumes it and it is not a
      tautology. */
  predicate NewClause(prior: Cnf, d: Clause)
  {
    LiteralClause(d) && !ClauseExists(prior, d) && !ClauseTautology(d)
  }

  /** The clauses `after` has beyond `before` are, each in turn, new factors
      of `c`. */
  predicate AppendsFactors(before: Cnf, after: Cnf, c: Clause, rounds: nat)
  {
    forall m :: |before| <= m < |after| ==> NewClause(after[..m], after[m]) && IsFactor(c, after[m], rounds)
  }

  /** Appends `d` when it is new. */
  function AddIfNew(cnf: Cnf, d: Clause): (r: (Cnf, bool))
    requires LiteralClause(d)
  {
    if !ClauseExists(cnf, d) && !ClauseTautology(d) then (cnf + [d], true) else (cnf, false)
  }

  /** The clauses from position `from` on are factors of earlier clauses and
      new when added. */
  predicate FactorsFrom(cnf: Cnf, from: nat, rounds: nat)
  {
    forall m :: from <= m < |cnf| ==>
      NewClause(cnf[..m], cnf[m]) && exists a :: 0 <= a < m && IsFactor(cnf[a], cnf[m], rounds)
  }

  /** The two loops of `tryGroupLiterals` over the literal pairs `i < j` of
      clause `c`, appending to `cnf`. The clause is read by value. */
  function GroupFrom(cnf: Cnf, c: Clause, i: nat, j: nat, rounds: nat): (r: (Cnf, bool))
    requires LiteralCnf(cnf) && LiteralClause(c) && i < j
    ensures LiteralCnf(r.0) && |r.0| >= |cnf| && r.0[..|cnf|] == cnf
    ensures r.1 <==> |r.0| > |cnf|
    decreases |c| - i, |c| - j
  {
    if i >= |c| then (cnf, false)
    else if j >= |c| then GroupFrom(cnf, c, i + 1, i + 2, rounds)
    else
      var (cnf1, r1) := GroupPair(cnf, c, i, j, rounds);
      var (cnf2, r2) := GroupFrom(cnf1, c, i, j + 1, rounds);
      assert cnf2[..|cnf|] == cnf by {
        assert cnf2[..|cnf|] == cnf2[..|cnf1|][..|cnf|];
      }
      (cnf2, r1 || r2)
  }

  /** One iteration of the inner loop of `tryGroupLiterals`. */
  function GroupPair(cnf: Cnf, c: Clause, i: nat, j: nat, rounds: nat): (r: (Cnf, bool))
    requires LiteralCnf(cnf) && LiteralClause(c) && i < j < |c|
    ensures LiteralCnf(r.0) && |r.0| >= |cnf| && r.0[..|cnf|] == cnf
    ensures r.1 <==> |r.0| > |cnf|
  {
    match GroupUnifier(c[i], c[j], rounds)
    case None => (cnf, false)
    case Some(s) => AddIfNew(cnf, Factor(c, j, s))
  }

  /** What one inner iteration appends is a new factor of `c`. */
  lemma GroupPairFactors(cnf: Cnf, c: Clause, i: nat, j: nat, rounds: nat)
    requires LiteralCnf(cnf) && LiteralClause(c) && i < j < |c|
    ensures AppendsFactors(cnf, GroupPair(cnf, c, i, j, rounds).0, c, rounds)
  {
    var r := GroupPair(cnf, c, i, j, rounds).0;
    if |r| > |cnf| {
      var s := GroupUnifier(c[i], c[j], rounds).value;
      assert r == cnf + [Factor(c, j, s)];
      assert r[..|cnf|] == cnf;
      assert IsFactor(c, r[|cnf|], rounds);
    }
  }

  /** Appending factors in two stages appends factors. */
  lemma AppendsFactorsChain(a: Cnf, b: Cnf, d: Cnf, c: Clause, rounds: nat)
    requires |a| <= |b| <= |d| && d[..|b|] == b
    requires AppendsFactors(a, b, c, rounds) && AppendsFactors(b, d, c, rounds)
    ensures AppendsFactors(a, d, c, rounds)
  {
    forall m | |a| <= m < |b| ensures NewClause(d[..m], d[m]) && IsFactor(c, d[m], rounds) {
      assert d[m] == b[m];
      assert d[..m] == d[..|b|][..m];
    }
  }

  /** One step of the inner loop of `tryGroupLiterals`. */
  lemma GroupFromUnfold(cnf: Cnf, c: Clause, i: nat, j: nat, rounds: nat)
    requires LiteralCnf(cnf) && LiteralClause(c) && i < j < |c|
    ensures GroupFrom(cnf, c, i, j, rounds).0 == GroupFrom(GroupPair(cnf, c, i, j, rounds).0, c, i, j + 1, rounds).0
  {
  }

  /** Every clause the loops append is a new factor of `c`. */
  lemma {:induction false} GroupFromFactors(cnf: Cnf, c: Clause, i: nat, j: nat, rounds: nat)
    requires LiteralCnf(cnf) && LiteralClause(c) && i < j
    ensures AppendsFactors(cnf, GroupFrom(cnf, c, i, j, rounds).0, c, rounds)
    decreases |c| - i, |c| - j, 1
  {
    if i >= |c| {
      GroupFromDone(cnf, c, i, j, rounds);
    } else if j >= |c| {
      GroupFromFactors(cnf, c, i + 1, i + 2, rounds);
      GroupFromNextRow(cnf, c, i, j, rounds);
    } else {
      GroupFromStep(cnf, c, i, j, rounds);
    }
  }

  /** Past the last row the loops append nothing. */
  lemma GroupFromDone(cnf: Cnf, c: Clause, i: nat, j: nat, rounds: nat)
    requires LiteralCnf(cnf) && LiteralClause(c) && |c| <= i < j
    ensures AppendsFactors(cnf, GroupFrom(cnf, c, i, j, rounds).0, c, rounds)
  {
    assert GroupFrom(cnf, c, i, j, rounds).0 == cnf;
  }

  /** The end of a row of the inner loop moves to the next `i`. */
  lemma GroupFromNextRow(cnf: Cnf, c: Clause, i: nat, j: nat, rounds: nat)
    requires LiteralCnf(cnf) && LiteralClause(c) && i < |c| <= j
    ensures GroupFrom(cnf, c, i, j, rounds) == GroupFrom(cnf, c, i + 1, i + 2, rounds)
  {
  }

  /** The inductive step of `GroupFromFactors`: one inner iteration followed
      by the rest of the loops. */
  lemma {:induction false} GroupFromStep(cnf: Cnf, c: Clause, i: nat, j: nat, rounds: nat)
    requires LiteralCnf(cnf) && LiteralClause(c) && i < j < |c|
    ensures AppendsFactors(cnf, GroupFrom(cnf, c, i, j, rounds).0, c, rounds)
    decreases |c| - i, |c| - j, 0
  {
    var cnf1 := GroupPair(cnf, c, i, j, rounds).0;
    GroupFromFactors(cnf1, c, i, j + 1, rounds);
    GroupPairFactors(cnf, c, i, j, rounds);
    GroupFromUnfold(cnf, c, i, j, rounds);
    AppendsFactorsChain(cnf, cnf1, GroupFrom(cnf1, c, i, j + 1, rounds).0, c, rounds);
  }

  /** `tryGroupLiterals(cnf, idx)`: appends to the CNF and reports whether it
      appended anything (see `TryGroupLiteralsFactors` for what). */
  function TryGroupLiterals(cnf: Cnf, idx: nat, rounds: nat): (r: (Cnf, bool))
    requires LiteralCnf(cnf) && idx < |cnf|
    ensures LiteralCnf(r.0) && |r.0| >= |cnf| && r.0[..|cnf|] == cnf
    ensures r.1 <==> |r.0| > |cnf|
  {
    GroupFrom(cnf, cnf[idx], 0, 1, rounds)
  }

  /** Every clause `tryGroupLiterals` appends is a new factor of clause `idx`:
      it is not subsumed by a clause before it and is not a tautology. */
  lemma TryGroupLiteralsFactors(cnf: Cnf, idx: nat, rounds: nat)
    requires LiteralCnf(cnf) && idx < |cnf|
    ensures AppendsFactors(cnf, TryGroupLiterals(cnf, idx, rounds).0, cnf[idx], rounds)
  {
    GroupFromFactors(cnf, cnf[idx], 0, 1, rounds);
  }

  /** A factor holds the same literals as the whole clause under the unifier:
      the removed literal coincides with the one it was grouped with. */
  lemma FactorLiterals(c: Clause, i: nat, j: nat, s: Substitution)
    requires LiteralClause(c) && i < j < |c|
    requires SubstLiteral(c[i], s) == SubstLiteral(c[j], s)
    ensures forall l :: l in Factor(c, j, s) <==> l in SubstClause(c, s)
  {
    var rest := RemoveSwap(c, j);
    var f := Factor(c, j, s);
    var whole := SubstClause(c, s);
    forall l | l in f ensures l in whole {
      var k :| 0 <= k < |f| && f[k] == l;
      assert rest[k] in c;
      var m :| 0 <= m < |c| && c[m] == rest[k];
      assert whole[m] == l;
    }
    forall l | l in whole ensures l in f {
      var m :| 0 <= m < |c| && whole[m] == l;
      if m == j {
        assert rest[i] == c[i];
        assert f[i] == l;
      } else if m < |rest| {
        assert rest[m] == c[m];
        assert f[m] == l;
      } else {
        assert rest[j] == c[m];
        assert f[j] == l;
      }
    }
  }

  // ---------------------------------------------------------------------
  // Renaming two clauses apart
  // ---------------------------------------------------------------------

  /** The variable occurrences of a term, left to right. */
  function TermVarSeq(t: Term): (r: seq<Name>)
    ensures forall x :: x in r <==> x in Terms.Vars(t)
  {
    match t
    case Var(x) => [x]
    case Fn(_, args) => TermsVarSeq(args)
  }

  function TermsVarSeq(ts: seq<Term>): (r: seq<Name>)
    ensures forall x :: x in r <==> x in TermsVars(ts)
  {
    if ts == [] then []
    else
      assert TermsVars(ts) == Terms.Vars(ts[0]) + TermsVars(ts[1..]) by {
        forall x | x in TermsVars(ts) ensures x in Terms.Vars(ts[0]) + TermsVars(ts[1..]) {
          var i :| 0 <= i < |ts| && x in Terms.Vars(ts[i]);
          if i > 0 {
            assert ts[1..][i - 1] == ts[i];
          }
        }
        forall x | x in TermsVars(ts[1..]) ensures x in TermsVars(ts) {
          var i :| 0 <= i < |ts[1..]| && x in Terms.Vars(ts[1..][i]);
          assert ts[1..][i] == ts[i + 1];
        }
      }
      TermVarSeq(ts[0]) + TermsVarSeq(ts[1..])
  }

  /** The variables of a clause in order of occurrence. The source iterates
      an unordered set, whose order is unspecified; this is one such order,
      with repetitions, which the renaming loop skips. */
  function ClauseVarSeq(c: Clause): (r: seq<Name>)
    requires LiteralClause(c)
    ensures forall x :: x in r <==> x in ClauseVars(c)
  {
    if c == [] then []
    else
      assert c[0] in c;
      LiteralVars(c[0]);
      assert ClauseVars(c) == AllVars(c[0]) + ClauseVars(c[1..]) by {
        forall x | x in ClauseVars(c) ensures x in AllVars(c[0]) + ClauseVars(c[1..]) {
          var l :| l in c && x in AllVars(l);
          var i :| 0 <= i < |c| && c[i] == l;
          if i > 0 {
            assert c[1..][i - 1] == l;
          }
        }
        forall x | x in ClauseVars(c[1..]) ensures x in ClauseVars(c) {
          var l :| l in c[1..] && x in AllVars(l);
          assert l in c;
        }
      }
      TermsVarSeq(AtomOf(c[0]).terms) + ClauseVarSeq(c[1..])
  }

  /** Variable `v` renamed to `u` in every literal of a clause. */
  function RenameClause(c: Clause, v: Name, u: Name): (r: Clause)
    requires LiteralClause(c)
    ensures |r| == |c| && LiteralClause(r)
    ensures forall k :: 0 <= k < |c| ==> r[k] == RenameLiteral(c[k], v, u)
  {
    var r := seq(|c|, k requires 0 <= k < |c| => RenameLiteral(c[k], v, u));
    assert forall l :: l in r ==> IsLiteral(l) by {
      forall l | l in r ensures IsLiteral(l) {
        var k :| 0 <= k < |r| && r[k] == l;
      }
    }
    r
  }

  /** Renaming `v` to `u` replaces `v` by `u` among the clause's variables. */
  lemma RenameClauseVars(c: Clause, v: Name, u: Name)
    requires LiteralClause(c)
    ensures ClauseVars(RenameClause(c, v, u))
         == if v in ClauseVars(c) then (ClauseVars(c) - {v}) + {u} else ClauseVars(c)
  {
    RenameClauseVarsWithin(c, v, u);
    RenameClauseVarsCover(c, v, u);
  }

  /** The renaming on one literal of the clause. */
  lemma RenameLiteralVarsAt(c: Clause, v: Name, u: Name, k: nat)
    requires LiteralClause(c) && k < |c|
    ensures AllVars(RenameClause(c, v, u)[k])
         == if v in AllVars(c[k]) then (AllVars(c[k]) - {v}) + {u} else AllVars(c[k])
  {
    assert c[k] in c;
    var r := RenameClause(c, v, u);
    LiteralVars(c[k]);
    LiteralVars(r[k]);
    AtomSubstVars(AtomOf(c[k]).terms, v, Var(u));
  }

  lemma RenameClauseVarsWithin(c: Clause, v: Name, u: Name)
    requires LiteralClause(c)
    ensures ClauseVars(RenameClause(c, v, u))
         <= if v in ClauseVars(c) then (ClauseVars(c) - {v}) + {u} else ClauseVars(c)
  {
    var r := RenameClause(c, v, u);
    forall x | x in ClauseVars(r)
      ensures x in (if v in ClauseVars(c) then (ClauseVars(c) - {v}) + {u} else ClauseVars(c))
    {
      var l :| l in r && x in AllVars(l);
      var k :| 0 <= k < |r| && r[k] == l;
      RenameLiteralVarsAt(c, v, u, k);
      assert c[k] in c;
    }
  }

  lemma RenameClauseVarsCover(c: Clause, v: Name, u: Name)
    requires LiteralClause(c)
    ensures ClauseVars(RenameClause(c, v, u))
         >= if v in ClauseVars(c) then (ClauseVars(c) - {v}) + {u} else ClauseVars(c)
  {
    var r := RenameClause(c, v, u);
    forall x | x in (if v in ClauseVars(c) then (ClauseVars(c) - {v}) + {u} else ClauseVars(c))
      ensures x in ClauseVars(r)
    {
      if x == u && v in ClauseVars(c) {
        var l :| l in c && v in AllVars(l);
        var k :| 0 <= k < |c| && c[k] == l;
        RenameLiteralVarsAt(c, v, u, k);
        assert r[k] in r;
      } else {
        var l :| l in c && x in AllVars(l);
        var k :| 0 <= k < |c| && c[k] == l;
        RenameLiteralVarsAt(c, v, u, k);
        assert r[k] in r;
      }
    }
  }

  /** The renaming loop of `tryResolveClauses` from position `k` of the
      variable list `vs` of clause `ci`: a variable that clause `cj` also has
      is renamed there to a name `getUniqueVar` draws, avoiding both clauses.
      A variable the two clauses still share afterwards was shared before and
      is not among those visited. */
  function RenameFrom(ci: Clause, vs: seq<Name>, k: nat, cj: Clause, counter: nat): (r: (Clause, nat))
    requires LiteralClause(cj) && k <= |vs|
    ensures |r.0| == |cj| && LiteralClause(r.0) && r.1 >= counter
    ensures forall x :: x in ClauseVars(r.0) && x in ClauseVars(ci) ==> x in ClauseVars(cj) && x !in vs[k..]
    ensures (forall m :: k <= m < |vs| ==> vs[m] !in ClauseVars(cj)) ==> r == (cj, counter)
    decreases |vs| - k
  {
    if k == |vs| then (cj, counter)
    else
      var v := vs[k];
      SuffixMembers(vs, k);
      if v in ClauseVars(cj) then
        var (u, counter1) := Fresh(FreshPrefix, ClauseVars(ci) + ClauseVars(cj), counter);
        var cj1 := RenameClause(cj, v, u);
        RenameClauseVars(cj, v, u);
        var r := RenameFrom(ci, vs, k + 1, cj1, counter1);
        assert u !in ClauseVars(ci);
        r
      else
        RenameFrom(ci, vs, k + 1, cj, counter)
  }

  /** The suffix from `k` is element `k` followed by the suffix from `k + 1`. */
  lemma SuffixMembers(vs: seq<Name>, k: nat)
    requires k < |vs|
    ensures forall x :: x in vs[k..] <==> x == vs[k] || x in vs[k + 1..]
  {
    assert vs[k..] == [vs[k]] + vs[k + 1..];
  }

  /** The renaming of `tryResolveClauses`: afterwards clause `j` shares no
      variable with clause `i`, and a clause already apart is left as it is.
      Returns the renamed clause and the advanced counter of `getUniqueVar`. */
  function RenameApart(ci: Clause, cj: Clause, counter: nat): (r: (Clause, nat))
    requires LiteralClause(ci) && LiteralClause(cj)
    ensures |r.0| == |cj| && LiteralClause(r.0) && r.1 >= counter
    ensures ClauseVars(r.0) !! ClauseVars(ci)
    ensures ClauseVars(cj) !! ClauseVars(ci) ==> r == (cj, counter)
  {
    var vs := ClauseVarSeq(ci);
    assert vs[0..] == vs;
    RenameFrom(ci, vs, 0, cj, counter)
  }

  // ---------------------------------------------------------------------
  // Resolving two clauses
  // ---------------------------------------------------------------------

  /** The unifier `tryResolveClauses` looks for: an atom against the atom of a
      negation, in either order. Under it the two literals are complementary. */
  function ResolveUnifier(li: Formula, lj: Formula, rounds: nat): (r: Option<Substitution>)
    requires IsLiteral(li) && IsLiteral(lj)
    ensures r.Some? ==> li.Atom? != lj.Atom? && SubstLiteral(li, r.value) == Opposite(SubstLiteral(lj, r.value))
  {
    if li.Atom? && lj.Not? then AtomUnify(li, lj.operand, rounds)
    else if li.Not? && lj.Atom? then AtomUnify(li.operand, lj, rounds)
    else None
  }

  /** Literal `k` of `ci` and literal `l` of `cj` removed by swapping with the
      last one, the rest of `ci` followed by the rest of `cj`, substituted. */
  function Resolvent(ci: Clause, k: nat, cj: Clause, l: nat, s: Substitution): (r: Clause)
    requires LiteralClause(ci) && LiteralClause(cj) && k < |ci| && l < |cj|
    ensures |r| == |ci| + |cj| - 2 && LiteralClause(r)
  {
    SubstClause(RemoveSwap(ci, k), s) + SubstClause(RemoveSwap(cj, l), s)
  }

  /** Removing literal `k` and substituting keeps every other literal of the
      substituted clause, and adds none. */
  lemma RemainderLiterals(c: Clause, k: nat, s: Substitution)
    requires LiteralClause(c) && k < |c|
    ensures forall a :: 0 <= a < |c| && a != k ==> SubstLiteral(c[a], s) in SubstClause(RemoveSwap(c, k), s)
    ensures forall m :: m in SubstClause(RemoveSwap(c, k), s) ==> m in SubstClause(c, s)
  {
    var rest := RemoveSwap(c, k);
    var sr := SubstClause(rest, s);
    forall a | 0 <= a < |c| && a != k ensures SubstLiteral(c[a], s) in sr {
      if a < |rest| {
        assert sr[a] == SubstLiteral(c[a], s);
      } else {
        assert sr[k] == SubstLiteral(c[a], s);
      }
    }
    forall m | m in sr ensures m in SubstClause(c, s) {
      var n :| 0 <= n < |sr| && sr[n] == m;
      assert rest[n] in c;
      var a :| 0 <= a < |c| && c[a] == rest[n];
      assert SubstClause(c, s)[a] == m;
    }
  }

  /** The resolvent holds every other literal of both clauses under the
      unifier, and nothing else. */
  lemma ResolventLiterals(ci: Clause, k: nat, cj: Clause, l: nat, s: Substitution)
    requires LiteralClause(ci) && LiteralClause(cj) && k < |ci| && l < |cj|
    ensures forall a :: 0 <= a < |ci| && a != k ==> SubstLiteral(ci[a], s) in Resolvent(ci, k, cj, l, s)
    ensures forall b :: 0 <= b < |cj| && b != l ==> SubstLiteral(cj[b], s) in Resolvent(ci, k, cj, l, s)
    ensures forall m :: m in Resolvent(ci, k, cj, l, s) ==> m in SubstClause(ci, s) || m in SubstClause(cj, s)
  {
    RemainderLiterals(ci, k, s);
    RemainderLiterals(cj, l, s);
    var si, sj := SubstClause(RemoveSwap(ci, k), s), SubstClause(RemoveSwap(cj, l), s);
    assert Resolvent(ci, k, cj, l, s) == si + sj;
    assert forall m :: m in si + sj <==> m in si || m in sj;
  }

  /** `d` is a resolvent of `ci` and `cj` on some complementary pair. */
  predicate IsResolvent(ci: Clause, cj: Clause, d: Clause, rounds: nat)
  {
    && LiteralClause(ci) && LiteralClause(cj)
    && exists k, l :: 0 <= k < |ci| && 0 <= l < |cj| && ResolveUnifier(ci[k], cj[l], rounds).Some?
         && d == Resolvent(ci, k, cj, l, ResolveUnifier(ci[k], cj[l], rounds).value)
  }

  /** The clauses `after` has beyond `before` are, each in turn, new
      resolvents of `ci` and `cj`. */
  predicate AppendsResolvents(before: Cnf, after: Cnf, ci: Clause, cj: Clause, rounds: nat)
  {
    forall m :: |before| <= m < |after| ==> NewClause(after[..m], after[m]) && IsResolvent(ci, cj, after[m], rounds)
  }

  /** The two loops of `tryResolveClauses` over literal `k` of `ci` and
      literal `l` of `cj`, appending to `cnf`. */
  function ResolveFrom(cnf: Cnf, ci: Clause, cj: Clause, k: nat, l: nat, rounds: nat): (r: (Cnf, bool))
    requires LiteralCnf(cnf) && LiteralClause(ci) && LiteralClause(cj)
    ensures LiteralCnf(r.0) && |r.0| >= |cnf| && r.0[..|cnf|] == cnf
    ensures r.1 <==> |r.0| > |cnf|
    decreases |ci| - k, |cj| - l
  {
    if k >= |ci| then (cnf, false)
    else if l >= |cj| then ResolveFrom(cnf, ci, cj, k + 1, 0, rounds)
    else
      var (cnf1, r1) := ResolvePair(cnf, ci, cj, k, l, rounds);
      var (cnf2, r2) := ResolveFrom(cnf1, ci, cj, k, l + 1, rounds);
      assert cnf2[..|cnf|] == cnf by {
        assert cnf2[..|cnf|] == cnf2[..|cnf1|][..|cnf|];
      }
      (cnf2, r1 || r2)
  }

  /** One iteration of the inner loop of `tryResolveClauses`. */
  function ResolvePair(cnf: Cnf, ci: Clause, cj: Clause, k: nat, l: nat, rounds: nat): (r: (Cnf, bool))
    requires LiteralCnf(cnf) && LiteralClause(ci) && LiteralClause(cj) && k < |ci| && l < |cj|
    ensures LiteralCnf(r.0) && |r.0| >= |cnf| && r.0[..|cnf|] == cnf
    ensures r.1 <==> |r.0| > |cnf|
  {
    match ResolveUnifier(ci[k], cj[l], rounds)
    case None => (cnf, false)
    case Some(s) => AddIfNew(cnf, Resolvent(ci, k, cj, l, s))
  }

  /** What one inner iteration appends is a new resolvent of `ci` and `cj`. */
  lemma ResolvePairResolvents(cnf: Cnf, ci: Clause, cj: Clause, k: nat, l: nat, rounds: nat)
    requires LiteralCnf(cnf) && LiteralClause(ci) && LiteralClause(cj) && k < |ci| && l < |cj|
    ensures AppendsResolvents(cnf, ResolvePair(cnf, ci, cj, k, l, rounds).0, ci, cj, rounds)
  {
    var r := ResolvePair(cnf, ci, cj, k, l, rounds).0;
    if |r| > |cnf| {
      var s := ResolveUnifier(ci[k], cj[l], rounds).value;
      assert r == cnf + [Resolvent(ci, k, cj, l, s)];
      assert r[..|cnf|] == cnf;
      assert IsResolvent(ci, cj, r[|cnf|], rounds);
    }
  }

  /** Appending resolvents in two stages appends resolvents. */
  lemma AppendsResolventsChain(a: Cnf, b: Cnf, d: Cnf, ci: Clause, cj: Clause, rounds: nat)
    requires |a| <= |b| <= |d| && d[..|b|] == b
    requires AppendsResolvents(a, b, ci, cj, rounds) && AppendsResolvents(b, d, ci, cj, rounds)
    ensures AppendsResolvents(a, d, ci, cj, rounds)
  {
    forall m | |a| <= m < |b| ensures NewClause(d[..m], d[m]) && IsResolvent(ci, cj, d[m], rounds) {
      assert d[m] == b[m];
      assert d[..m] == d[..|b|][..m];
    }
  }

  /** One step of the inner loop of `tryResolveClauses`. */
  lemma ResolveFromUnfold(cnf: Cnf, ci: Clause, cj: Clause, k: nat, l: nat, rounds: nat)
    requires LiteralCnf(cnf) && LiteralClause(ci) && LiteralClause(cj) && k < |ci| && l < |cj|
    ensures ResolveFrom(cnf, ci, cj, k, l, rounds).0 == ResolveFrom(ResolvePair(cnf, ci, cj, k, l, rounds).0, ci, cj, k, l + 1, rounds).0
  {
  }

  /** Every clause the loops append is a new resolvent of `ci` and `cj`. */
  lemma {:induction false} ResolveFromResolvents(cnf: Cnf, ci: Clause, cj: Clause, k: nat, l: nat, rounds: nat)
    requires LiteralCnf(cnf) && LiteralClause(ci) && LiteralClause(cj)
    ensures AppendsResolvents(cnf, ResolveFrom(cnf, ci, cj, k, l, rounds).0, ci, cj, rounds)
    decreases |ci| - k, |cj| - l
  {
    if k >= |ci| {
    } else if l >= |cj| {
      ResolveFromResolvents(cnf, ci, cj, k + 1, 0, rounds);
    } else {
      var cnf1 := ResolvePair(cnf, ci, cj, k, l, rounds).0;
      ResolvePairResolvents(cnf, ci, cj, k, l, rounds);
      ResolveFromResolvents(cnf1, ci, cj, k, l + 1, rounds);
      ResolveFromUnfold(cnf, ci, cj, k, l, rounds);
      AppendsResolventsChain(cnf, cnf1, ResolveFrom(cnf1, ci, cj, k, l + 1, rounds).0, ci, cj, rounds);
    }
  }

  /** `tryResolveClauses(cnf, i, j)`: clause `j` is renamed apart from clause
      `i` in place, then resolvents of the two are appended; nothing else
      changes. Returns the CNF, the advanced counter of `getUniqueVar` and
      whether a clause was appended (see `TryResolveResolvents` for what). */
  function TryResolveClauses(cnf: Cnf, i: nat, j: nat, counter: nat, rounds: nat): (r: (Cnf, nat, bool))
    requires LiteralCnf(cnf) && i < j < |cnf|
    ensures LiteralCnf(r.0) && |r.0| >= |cnf| && r.1 >= counter
    ensures forall m :: 0 <= m < |cnf| && m != j ==> r.0[m] == cnf[m]
    ensures |r.0[j]| == |cnf[j]| && ClauseVars(r.0[j]) !! ClauseVars(r.0[i])
    ensures r.2 <==> |r.0| > |cnf|
  {
    var (cj, counter1) := RenameApart(cnf[i], cnf[j], counter);
    var cnf1 := cnf[j := cj];
    var (cnf2, found) := ResolveFrom(cnf1, cnf[i], cj, 0, 0, rounds);
    assert forall m :: 0 <= m < |cnf| ==> cnf2[m] == cnf1[m] by {
      assert cnf2[..|cnf1|] == cnf1;
      forall m | 0 <= m < |cnf| ensures cnf2[m] == cnf1[m] {
        assert cnf2[m] == cnf2[..|cnf1|][m];
      }
    }
    (cnf2, counter1, found)
  }

  /** Every clause `tryResolveClauses` appends is a new resolvent of clause
      `i` and the renamed clause `j`. */
  lemma TryResolveResolvents(cnf: Cnf, i: nat, j: nat, counter: nat, rounds: nat)
    requires LiteralCnf(cnf) && i < j < |cnf|
    ensures var r := TryResolveClauses(cnf, i, j, counter, rounds).0;
      |r| >= |cnf| && AppendsResolvents(cnf, r, r[i], r[j], rounds)
  {
    var cj := RenameApart(cnf[i], cnf[j], counter).0;
    var cnf1 := cnf[j := cj];
    var r := TryResolveClauses(cnf, i, j, counter, rounds).0;
    TryResolveUnfold(cnf, i, j, counter, rounds);
    ResolveFromResolvents(cnf1, cnf[i], cj, 0, 0, rounds);
    assert r[..|cnf1|] == cnf1;
    assert r[i] == r[..|cnf1|][i] == cnf[i];
    assert r[j] == r[..|cnf1|][j] == cj;
  }

  lemma TryResolveUnfold(cnf: Cnf, i: nat, j: nat, counter: nat, rounds: nat)
    requires LiteralCnf(cnf) && i < j < |cnf|
    ensures var cj := RenameApart(cnf[i], cnf[j], counter).0;
      LiteralCnf(cnf[j := cj]) &&
      TryResolveClauses(cnf, i, j, counter, rounds).0 == ResolveFrom(cnf[j := cj], cnf[i], cj, 0, 0, rounds).0
  {
  }

  // ---------------------------------------------------------------------
  // The order in which pairs of clauses are resolved
  // ---------------------------------------------------------------------

  /** 0 + 1 + ... + (n - 1). */
  function Triangle(n: nat): nat
  {
    if n == 0 then 0 else Triangle(n - 1) + (n - 1)
  }

  /** The position of pair (prev, curr) in the order
      (0,1), (0,2), (1,2), (0,3), (1,3), (2,3), ... */
  function Rank(prev: nat, curr: nat): nat
    requires prev < curr
  {
    Triangle(curr) + prev
  }

  /** The cursor step at the end of `resolventFound`'s loop: the next
      earlier clause, or the first clause against the next later one. The
      step keeps `prev < curr` and moves one position along the order. */
  function Advance(prev: nat, curr: nat): (r: (nat, nat))
    requires prev < curr
    ensures r.0 < r.1 && Rank(r.0, r.1) == Rank(prev, curr) + 1
  {
    if prev < curr - 1 then (prev + 1, curr) else (0, curr + 1)
  }

  /** The cursor after `n` steps from its initial position (0, 1). */
  function AdvanceTimes(n: nat): (r: (nat, nat))
    ensures r.0 < r.1
  {
    if n == 0 then (0, 1) else var (p, c) := AdvanceTimes(n - 1); Advance(p, c)
  }

  /** Every pair prev < curr is visited, at step Rank(prev, curr). */
  lemma {:induction false} CursorVisits(prev: nat, curr: nat)
    requires prev < curr
    ensures AdvanceTimes(Rank(prev, curr)) == (prev, curr)
    decreases Rank(prev, curr)
  {
    if prev > 0 {
      CursorVisits(prev - 1, curr);
    } else if curr > 1 {
      CursorVisits(curr - 2, curr - 1);
    }
  }

  /** So each pair is visited at exactly one step. */
  lemma CursorVisitsOnce(p1: nat, c1: nat, p2: nat, c2: nat)
    requires p1 < c1 && p2 < c2 && Rank(p1, c1) == Rank(p2, c2)
    ensures p1 == p2 && c1 == c2
  {
    CursorVisits(p1, c1);
    CursorVisits(p2, c2);
  }

  // ---------------------------------------------------------------------
  // The saturation loop
  // ---------------------------------------------------------------------

  /** The working copy of the CNF and the three indices of `resolution`:
      the first clause not yet grouped, the cursor pair (prev, curr), and the
      counter of `getUniqueVar`. */
  datatype State = State(cnf: Cnf, grouped: nat, prev: nat, curr: nat, counter: nat)

  predicate Valid(st: State)
  {
    LiteralCnf(st.cnf) && st.grouped <= |st.cnf| && st.prev < st.curr
  }

  /** One iteration of `grouping`'s loop: clause `grouped` is grouped. */
  function GroupStep(st: State, rounds: nat): (r: (State, bool))
    requires Valid(st) && st.grouped < |st.cnf|
    ensures Valid(r.0) && r.0.grouped == st.grouped + 1
    ensures r.0.prev == st.prev && r.0.curr == st.curr && r.0.counter == st.counter
    ensures |r.0.cnf| >= |st.cnf| && r.0.cnf[..|st.cnf|] == st.cnf
    ensures r.1 <==> |r.0.cnf| > |st.cnf|
  {
    var (cnf1, g1) := TryGroupLiterals(st.cnf, st.grouped, rounds);
    (st.(cnf := cnf1, grouped := st.grouped + 1), g1)
  }

  /** One iteration of `resolventFound`'s loop: the cursor pair is resolved
      and the cursor advanced. */
  function ResolveStep(st: State, rounds: nat): (r: (State, bool))
    requires Valid(st) && st.curr < |st.cnf|
    ensures Valid(r.0) && r.0.grouped == st.grouped && r.0.counter >= st.counter
    ensures Rank(r.0.prev, r.0.curr) == Rank(st.prev, st.curr) + 1
    ensures |r.0.cnf| >= |st.cnf| && forall m :: 0 <= m < |st.cnf| ==> |r.0.cnf[m]| == |st.cnf[m]|
    ensures r.1 <==> |r.0.cnf| > |st.cnf|
  {
    var (cnf1, counter1, f1) := TryResolveClauses(st.cnf, st.prev, st.curr, st.counter, rounds);
    var (p, c) := Advance(st.prev, st.curr);
    (State(cnf1, st.grouped, p, c, counter1), f1)
  }

  /** `grouping`: groups every clause from `st.grouped` on, including those
      it appends itself, and reports whether it appended any; the clauses
      already present are kept (see `GroupingFactors` for what is appended).
      `None` means more than `fuel` clauses would be visited. */
  function Grouping(st: State, rounds: nat, fuel: nat): (r: Option<(State, bool)>)
    requires Valid(st)
    ensures r.Some? ==> Valid(r.value.0) && r.value.0.grouped == |r.value.0.cnf|
    ensures r.Some? ==> r.value.0.prev == st.prev && r.value.0.curr == st.curr && r.value.0.counter == st.counter
    ensures r.Some? ==> |r.value.0.cnf| >= |st.cnf| && r.value.0.cnf[..|st.cnf|] == st.cnf
    ensures r.Some? ==> (r.value.1 <==> |r.value.0.cnf| > |st.cnf|)
    decreases fuel
  {
    if st.grouped == |st.cnf| then Some((st, false))
    else if fuel == 0 then None
    else
      var (next, g1) := GroupStep(st, rounds);
      match Grouping(next, rounds, fuel - 1)
      case None => None
      case Some((st2, g2)) =>
        assert st2.cnf[..|st.cnf|] == st.cnf by {
          assert st2.cnf[..|st.cnf|] == st2.cnf[..|next.cnf|][..|st.cnf|];
        }
        Some((st2, g1 || g2))
  }

  /** Every clause `grouping` appends is a new factor of an earlier clause. */
  lemma {:induction false} GroupingFactors(st: State, rounds: nat, fuel: nat)
    requires Valid(st) && Grouping(st, rounds, fuel).Some?
    ensures FactorsFrom(Grouping(st, rounds, fuel).value.0.cnf, |st.cnf|, rounds)
    decreases fuel
  {
    if st.grouped < |st.cnf| {
      var next := GroupStep(st, rounds).0;
      GroupingFactors(next, rounds, fuel - 1);
      GroupingNext(st, rounds, fuel);
      TryGroupLiteralsFactors(st.cnf, st.grouped, rounds);
      FactorsFromChain(st.cnf, next.cnf, Grouping(next, rounds, fuel - 1).value.0.cnf, st.grouped, rounds);
    }
  }

  /** One iteration of `grouping` followed by the rest of the loop. */
  lemma GroupingNext(st: State, rounds: nat, fuel: nat)
    requires Valid(st) && Grouping(st, rounds, fuel).Some? && st.grouped < |st.cnf|
    ensures fuel > 0 && Grouping(GroupStep(st, rounds).0, rounds, fuel - 1).Some?
    ensures Grouping(st, rounds, fuel).value.0 == Grouping(GroupStep(st, rounds).0, rounds, fuel - 1).value.0
  {
  }

  /** Factors of clause `g` appended before clauses that are already known
      to be factors of earlier clauses. */
  lemma FactorsFromChain(a: Cnf, b: Cnf, d: Cnf, g: nat, rounds: nat)
    requires g < |a| <= |b| <= |d| && b[..|a|] == a && d[..|b|] == b
    requires AppendsFactors(a, b, a[g], rounds) && FactorsFrom(d, |b|, rounds)
    ensures FactorsFrom(d, |a|, rounds)
  {
    forall m | |a| <= m < |b|
      ensures NewClause(d[..m], d[m]) && exists x :: 0 <= x < m && IsFactor(d[x], d[m], rounds)
    {
      assert d[m] == b[m];
      assert d[..m] == d[..|b|][..m];
      assert d[g] == a[g] by {
        assert d[g] == b[g];
        assert b[g] == b[..|a|][g];
      }
      assert IsFactor(d[g], d[m], rounds);
    }
  }

  /** `resolventFound`: resolves the cursor pair and advances the cursor while
      the later clause exists, including clauses appended on the way. Clauses
      already present keep their length: renaming apart is the only change
      made to them. `None` means more than `fuel` pairs would be visited. */
  function ResolventFound(st: State, rounds: nat, fuel: nat): (r: Option<(State, bool)>)
    requires Valid(st)
    ensures r.Some? ==> Valid(r.value.0) && r.value.0.curr >= |r.value.0.cnf|
    ensures r.Some? ==> r.value.0.grouped == st.grouped && r.value.0.counter >= st.counter
    ensures r.Some? ==> Rank(r.value.0.prev, r.value.0.curr) >= Rank(st.prev, st.curr)
    ensures r.Some? ==> |r.value.0.cnf| >= |st.cnf| && forall m :: 0 <= m < |st.cnf| ==> |r.value.0.cnf[m]| == |st.cnf[m]|
    ensures r.Some? ==> (r.value.1 <==> |r.value.0.cnf| > |st.cnf|)
    decreases fuel
  {
    if st.curr >= |st.cnf| then Some((st, false))
    else if fuel == 0 then None
    else
      var (next, f1) := ResolveStep(st, rounds);
      match ResolventFound(next, rounds, fuel - 1)
      case None => None
      case Some((st2, f2)) =>
        Some((st2, f1 || f2))
  }

  /** `b` arises from `a` by resolving the pair `i < j`: clause `j` is renamed
      apart from clause `i`, every other clause is kept, and what is appended
      are, each in turn, new resolvents of clause `i` and the renamed clause. */
  ghost predicate ResolutionStepOn(a: Cnf, b: Cnf, i: nat, j: nat, rounds: nat)
  {
    && LiteralCnf(a) && i < j < |a| <= |b|
    && (forall m :: 0 <= m < |a| && m != j ==> b[m] == a[m])
    && (exists counter: nat :: b[j] == RenameApart(a[i], a[j], counter).0)
    && AppendsResolvents(a, b, b[i], b[j], rounds)
  }

  /** `b` arises from `a` by resolving some pair of its clauses. */
  ghost predicate ResolutionStep(a: Cnf, b: Cnf, rounds: nat)
  {
    exists i, j :: ResolutionStepOn(a, b, i, j, rounds)
  }

  /** One iteration of `resolventFound` followed by the rest of the loop. */
  lemma ResolventFoundNext(st: State, rounds: nat, fuel: nat)
    requires Valid(st) && ResolventFound(st, rounds, fuel).Some? && st.curr < |st.cnf|
    ensures fuel > 0 && ResolventFound(ResolveStep(st, rounds).0, rounds, fuel - 1).Some?
    ensures ResolventFound(st, rounds, fuel).value.0 == ResolventFound(ResolveStep(st, rounds).0, rounds, fuel - 1).value.0
  {
  }

  /** A run that stops at once returns the CNF it is given. */
  lemma ResolventFoundDone(st: State, rounds: nat, fuel: nat)
    requires Valid(st) && !(st.curr < |st.cnf| && fuel > 0)
    ensures ResolventFound(st, rounds, fuel).Some? ==> ResolventFound(st, rounds, fuel).value.0 == st
  {
  }

  /** One iteration of `resolventFound`'s loop is a resolution step on the
      cursor pair. */
  lemma ResolveStepOn(st: State, rounds: nat)
    requires Valid(st) && st.curr < |st.cnf|
    ensures ResolutionStepOn(st.cnf, ResolveStep(st, rounds).0.cnf, st.prev, st.curr, rounds)
  {
    var a := st.cnf;
    var b := ResolveStep(st, rounds).0.cnf;
    var cj := RenameApart(a[st.prev], a[st.curr], st.counter).0;
    TryResolveResolvents(a, st.prev, st.curr, st.counter, rounds);
    TryResolveUnfold(a, st.prev, st.curr, st.counter, rounds);
    assert b[st.curr] == b[..|a|][st.curr] == cj;
  }

  /** `b` is reached from `a` by at most `n` resolution steps. */
  ghost predicate Derivable(a: Cnf, b: Cnf, rounds: nat, n: nat)
    decreases n
  {
    a == b || (n > 0 && exists m :: ResolutionStep(a, m, rounds) && Derivable(m, b, rounds, n - 1))
  }

  /** Every clause `resolventFound` appends is a new resolvent of two clauses
      present when it is appended: the CNF a finished run returns is reached
      from the one it is given by resolution steps, one per resolved pair. */
  lemma {:induction false} ResolventFoundResolvents(st: State, rounds: nat, fuel: nat)
    requires Valid(st)
    ensures ResolventFound(st, rounds, fuel).Some? ==>
      Derivable(st.cnf, ResolventFound(st, rounds, fuel).value.0.cnf, rounds, fuel)
    decreases fuel, 1
  {
    if st.curr < |st.cnf| && fuel > 0 {
      ResolventFoundResolventsStep(st, rounds, fuel);
    } else {
      ResolventFoundDone(st, rounds, fuel);
    }
  }

  lemma {:induction false} ResolventFoundResolventsStep(st: State, rounds: nat, fuel: nat)
    requires Valid(st) && st.curr < |st.cnf| && fuel > 0
    ensures ResolventFound(st, rounds, fuel).Some? ==>
      Derivable(st.cnf, ResolventFound(st, rounds, fuel).value.0.cnf, rounds, fuel)
    decreases fuel, 0
  {
    var next := ResolveStep(st, rounds).0;
    ResolventFoundResolvents(next, rounds, fuel - 1);
    if ResolventFound(st, rounds, fuel).Some? {
      ResolventFoundNext(st, rounds, fuel);
      DerivableExtend(st, next, ResolventFound(st, rounds, fuel).value.0.cnf, rounds, fuel);
    }
  }

  /** A CNF derivable after one iteration is derivable before it. */
  lemma DerivableExtend(st: State, next: State, c: Cnf, rounds: nat, fuel: nat)
    requires Valid(st) && st.curr < |st.cnf| && next == ResolveStep(st, rounds).0
    requires fuel > 0 && Derivable(next.cnf, c, rounds, fuel - 1)
    ensures Derivable(st.cnf, c, rounds, fuel)
  {
    ResolveStepOn(st, rounds);
    assert ResolutionStep(st.cnf, next.cnf, rounds);
  }

  /** The answer of `resolution`; `Undecided` has no counterpart in the
      source and stands for a run longer than the step bound. */
  datatype Verdict = Satisfiable | Unsatisfiable | Undecided

  /** One move of the saturation loop: a grouping pass that appends new
      factors of earlier clauses, or one resolution step. */
  ghost predicate SaturationStep(a: Cnf, b: Cnf, rounds: nat)
  {
    || (|a| <= |b| && b[..|a|] == a && FactorsFrom(b, |a|, rounds))
    || ResolutionStep(a, b, rounds)
  }

  /** The saturation moves as a step relation. */
  ghost function SaturationMoves(rounds: nat): (Cnf, Cnf) -> bool
  {
    (a: Cnf, b: Cnf) => SaturationStep(a, b, rounds)
  }

  /** `b` is reached from `a` by at most `n` saturation moves. */
  ghost predicate Derives(a: Cnf, b: Cnf, rounds: nat, n: nat)
  {
    Reaches(SaturationMoves(rounds), a, b, n)
  }

  lemma DerivesMove(a: Cnf, b: Cnf, rounds: nat)
    requires SaturationStep(a, b, rounds)
    ensures Derives(a, b, rounds, 1)
  {
    assert SaturationMoves(rounds)(a, b);
    ReachesCons(SaturationMoves(rounds), a, b, b, 1);
  }

  /** Resolution steps are saturation moves. */
  lemma {:induction false} DerivableDerives(a: Cnf, b: Cnf, rounds: nat, n: nat)
    requires Derivable(a, b, rounds, n)
    ensures Derives(a, b, rounds, n)
    decreases n
  {
    if a != b {
      var m :| ResolutionStep(a, m, rounds) && Derivable(m, b, rounds, n - 1);
      DerivableDerives(m, b, rounds, n - 1);
      assert SaturationMoves(rounds)(a, m);
      ReachesCons(SaturationMoves(rounds), a, m, b, n);
    }
  }

  /** One move followed by at most `k <= MoveBound(fuel - 1)` more stays
      within the bound of a round with `fuel`. */
  lemma MoveDerives(a: Cnf, b: Cnf, rounds: nat, fuel: nat, c: Cnf, k: nat)
    requires fuel > 0 && SaturationStep(a, b, rounds) && Derives(b, c, rounds, k) && k <= MoveBound(fuel - 1)
    ensures Derives(a, c, rounds, MoveBound(fuel))
  {
    DerivesMove(a, b, rounds);
    ReachesTrans(SaturationMoves(rounds), a, b, c, 1, k, MoveBound(fuel));
  }

  /** A run of the resolving loop followed by at most
      `k <= MoveBound(fuel - 1)` more moves stays within the bound. */
  lemma ResolvingDerives(a: Cnf, b: Cnf, rounds: nat, fuel: nat, c: Cnf, k: nat)
    requires fuel > 0 && Derivable(a, b, rounds, fuel) && Derives(b, c, rounds, k) && k <= MoveBound(fuel - 1)
    ensures Derives(a, c, rounds, MoveBound(fuel))
  {
    DerivableDerives(a, b, rounds, fuel);
    ReachesTrans(SaturationMoves(rounds), a, b, c, fuel, k, MoveBound(fuel));
  }

  /** A grouping pass is one saturation move. */
  lemma GroupingMove(st: State, rounds: nat, fuel: nat)
    requires Valid(st) && Grouping(st, rounds, fuel).Some?
    ensures SaturationStep(st.cnf, Grouping(st, rounds, fuel).value.0.cnf, rounds)
  {
    GroupingFactors(st, rounds, fuel);
  }

  /** The number of saturation moves a run with `fuel` rounds can make:
      one round of the resolving loop makes at most `fuel` of them, and a
      grouping round one. */
  function MoveBound(fuel: nat): nat
  {
    if fuel == 0 then 0 else fuel + MoveBound(fuel - 1)
  }

  /** The main loop of `resolution`: while grouping or resolution appends a
      clause, stop with "unsatisfiable" once an empty clause is present;
      when a round appends nothing, answer "satisfiable". Returns the answer
      with the final state. A round that appends nothing changes no clause's
      length, so a "satisfiable" answer comes with every clause grouped,
      every pair resolved, and an empty clause only if one was there at the
      start. Whatever the loop stops on is reached from its input by at most
      `MoveBound(fuel)` grouping passes and resolution steps, so an
      "unsatisfiable" answer rests on an empty clause derived from the
      input. */
  function Saturate(st: State, rounds: nat, fuel: nat): (r: (Verdict, State))
    requires Valid(st)
    ensures r.0 == Unsatisfiable ==> [] in r.1.cnf
    ensures r.0 == Satisfiable ==> r.1.grouped == |r.1.cnf| && r.1.curr >= |r.1.cnf|
    ensures r.0 == Satisfiable ==> ([] in r.1.cnf <==> [] in st.cnf)
    ensures Derives(st.cnf, r.1.cnf, rounds, MoveBound(fuel))
    decreases fuel
  {
    if fuel == 0 then (Undecided, st)
    else match Grouping(st, rounds, fuel)
      case None => (Undecided, st)
      case Some((st1, grouped)) =>
        if grouped then
          GroupingMove(st, rounds, fuel);
          if [] in st1.cnf then
            MoveDerives(st.cnf, st1.cnf, rounds, fuel, st1.cnf, 0);
            (Unsatisfiable, st1)
          else
            var r1 := Saturate(st1, rounds, fuel - 1);
            MoveDerives(st.cnf, st1.cnf, rounds, fuel, r1.1.cnf, MoveBound(fuel - 1));
            r1
        else
          assert st1.cnf == st.cnf by {
            assert st1.cnf == st1.cnf[..|st.cnf|];
          }
          match ResolventFound(st1, rounds, fuel)
          case None => (Undecided, st)
          case Some((st2, found)) =>
            ResolventFoundResolvents(st1, rounds, fuel);
            assert [] in st.cnf ==> [] in st2.cnf by {
              if [] in st.cnf {
                var m :| 0 <= m < |st.cnf| && st.cnf[m] == [];
                assert st2.cnf[m] == [];
              }
            }
            if !found then
              assert [] in st2.cnf ==> [] in st.cnf by {
                if [] in st2.cnf {
                  var m :| 0 <= m < |st2.cnf| && st2.cnf[m] == [];
                  assert |st.cnf[m]| == 0;
                }
              }
              ResolvingDerives(st1.cnf, st2.cnf, rounds, fuel, st2.cnf, 0);
              (Satisfiable, st2)
            else if [] in st2.cnf then
              ResolvingDerives(st1.cnf, st2.cnf, rounds, fuel, st2.cnf, 0);
              (Unsatisfiable, st2)
            else
              var r2 := Saturate(st2, rounds, fuel - 1);
              ResolvingDerives(st1.cnf, st2.cnf, rounds, fuel, r2.1.cnf, MoveBound(fuel - 1));
              r2
  }

  /** `resolution(cnf)`: saturates a copy of the CNF from the initial indices.
      As written, an empty clause is only looked for after a round that
      appended something, so an input that already holds one and admits no
      grouping or resolvent is reported satisfiable. The corrected version
      checks the input first. */
  function Resolution(rev: Revision, cnf: Cnf, rounds: nat, fuel: nat): (r: Verdict)
    requires LiteralCnf(cnf)
    ensures rev == Corrected && [] in cnf ==> r == Unsatisfiable
    ensures rev == Corrected && r == Satisfiable ==> [] !in cnf
  {
    var start := State(cnf, 0, 0, 1, 0);
    match rev
    case AsWritten => Saturate(start, rounds, fuel).0
    case Corrected => if [] in cnf then Unsatisfiable else Saturate(start, rounds, fuel).0
  }

  // ---------------------------------------------------------------------
  // Lemmas: the step bound only cuts runs short, and two small runs
  // ---------------------------------------------------------------------

  /** One iteration of `grouping`'s loop. */
  lemma GroupingUnfold(st: State, rounds: nat, fuel: nat)
    requires Valid(st) && st.grouped < |st.cnf| && fuel > 0
    ensures var step := GroupStep(st, rounds);
      var a := Grouping(step.0, rounds, fuel - 1);
      Grouping(st, rounds, fuel) == if a.None? then None else Some((a.value.0, step.1 || a.value.1))
  {
  }

  lemma {:induction false} GroupingFuel(st: State, rounds: nat, fuel: nat, more: nat)
    requires Valid(st) && Grouping(st, rounds, fuel).Some? && more >= fuel
    ensures Grouping(st, rounds, more) == Grouping(st, rounds, fuel)
    decreases fuel
  {
    if st.grouped < |st.cnf| {
      GroupingUnfold(st, rounds, fuel);
      GroupingUnfold(st, rounds, more);
      GroupingFuel(GroupStep(st, rounds).0, rounds, fuel - 1, more - 1);
    }
  }

  /** The two revisions differ only on inputs holding an empty clause. */
  lemma RevisionsAgree(cnf: Cnf, rounds: nat, fuel: nat)
    requires LiteralCnf(cnf) && [] !in cnf
    ensures Resolution(Corrected, cnf, rounds, fuel) == Resolution(AsWritten, cnf, rounds, fuel)
  {
  }

  /** As written, the CNF holding just the empty clause is reported
      satisfiable; corrected, unsatisfiable. */
  lemma EmptyClauseInput(rounds: nat, fuel: nat)
    requires fuel >= 1
    ensures Resolution(AsWritten, [[]], rounds, fuel) == Satisfiable
    ensures Resolution(Corrected, [[]], rounds, fuel) == Unsatisfiable
  {
    var st := State([[]], 0, 0, 1, 0);
    var empty: Clause := [];
    assert GroupFrom([[]], empty, 0, 1, rounds) == ([[]], false);
    assert Grouping(st, rounds, fuel) == Some((st.(grouped := 1), false));
    assert ResolventFound(st.(grouped := 1), rounds, fuel) == Some((st.(grouped := 1), false));
  }

  /** First phase of `ComplementaryUnits`: resolving clause 0 against
      clause 1 appends the empty clause. */
  lemma UnitsResolve(p: Formula)
    requires p == Atom("p", [])
    ensures TryResolveClauses([[p], [Not(p)]], 0, 1, 0, 1) == ([[p], [Not(p)], []], 0, true)
  {
    var cnf: Cnf := [[p], [Not(p)]];
    var empty: Clause := [];
    assert ClauseVars([p]) == {};
    assert RenameApart([p], [Not(p)], 0) == ([Not(p)], 0);
    UnitsResolveFrom(p);
    assert cnf[1 := [Not(p)]] == cnf;
    assert cnf + [empty] == [[p], [Not(p)], []];
  }

  /** The resolving loop over the literals of `[p]` and `[~p]`: the only pair
      gives the empty clause, which is new. */
  lemma UnitsResolveFrom(p: Formula)
    requires p == Atom("p", [])
    ensures ResolveFrom([[p], [Not(p)]], [p], [Not(p)], 0, 0, 1) == ([[p], [Not(p)], []], true)
  {
    var cnf: Cnf := [[p], [Not(p)]];
    var empty: Clause := [];
    UnitsUnifier(p);
    assert Resolvent([p], 0, [Not(p)], 0, map[]) == empty;
    assert !ClauseExists(cnf, empty) by {
      assert cnf[0][0] in cnf[0] && cnf[1][0] in cnf[1];
      assert !Within(cnf[0], empty) && !Within(cnf[1], empty);
    }
    assert ResolveFrom(cnf + [empty], [p], [Not(p)], 0, 1, 1) == (cnf + [empty], false) by {
      assert ResolveFrom(cnf + [empty], [p], [Not(p)], 1, 0, 1) == (cnf + [empty], false);
    }
    assert cnf + [empty] == [[p], [Not(p)], []];
  }

  /** `p` and `~p` resolve under the empty unifier. */
  lemma UnitsUnifier(p: Formula)
    requires p == Atom("p", [])
    ensures ResolveUnifier(p, Not(p), 1) == Some(map[])
  {
    assert Unify(Corrected, Zip([], []), 1) == Unified(map[]) by {
      var z: seq<Pair> := [];
      assert Zip([], []) == z;
      assert Factoring(z) == z;
      assert Round(Corrected, z) == Pass(z, false, false);
    }
  }

  /** Second phase: the empty clause resolves with nothing, and the cursor
      runs off the end. */
  lemma UnitsExhaust(p: Formula)
    requires p == Atom("p", [])
    ensures var st2 := State([[p], [Not(p)], []], 2, 0, 2, 0);
      ResolventFound(st2, 1, 2) == Some((st2.(prev := 0, curr := 3), false))
  {
    var empty: Clause := [];
    var cnf3: Cnf := [[p], [Not(p)], empty];
    var st2 := State(cnf3, 2, 0, 2, 0);
    assert RenameApart([p], empty, 0) == (empty, 0);
    assert RenameApart([Not(p)], empty, 0) == (empty, 0);
    assert cnf3[2 := empty] == cnf3;
    assert ResolveFrom(cnf3, [p], empty, 0, 0, 1) == (cnf3, false);
    assert ResolveFrom(cnf3, [Not(p)], empty, 0, 0, 1) == (cnf3, false);
    assert ResolveStep(st2, 1) == (st2.(prev := 1), false);
    assert ResolveStep(st2.(prev := 1), 1) == (State(cnf3, 2, 0, 3, 0), false);
    assert ResolventFound(st2.(prev := 1), 1, 1) == Some((State(cnf3, 2, 0, 3, 0), false));
  }

  /** Unit clauses have no factors. */
  lemma UnitsGrouping(p: Formula)
    requires p == Atom("p", [])
    ensures var st := State([[p], [Not(p)]], 0, 0, 1, 0);
      Grouping(st, 1, 3) == Some((st.(grouped := 2), false))
  {
    var cnf: Cnf := [[p], [Not(p)]];
    assert GroupFrom(cnf, [p], 0, 1, 1) == (cnf, false);
    assert GroupFrom(cnf, [Not(p)], 0, 1, 1) == (cnf, false);
  }

  /** The unit clauses p and ~p resolve to the empty clause. */
  lemma ComplementaryUnits()
    ensures Resolution(Corrected, [[Atom("p", [])], [Not(Atom("p", []))]], 1, 3) == Unsatisfiable
  {
    UnitsSaturate(Atom("p", []), 3);
  }

  /** `ComplementaryUnits` with the atom and the step bound as parameters,
      so that the run is unfolded one phase at a time. */
  lemma UnitsSaturate(p: Formula, fuel: nat)
    requires p == Atom("p", []) && fuel == 3
    ensures Resolution(Corrected, [[p], [Not(p)]], 1, fuel) == Unsatisfiable
  {
    var cnf: Cnf := [[p], [Not(p)]];
    UnitsGrouping(p);
    UnitsFound(p);
    var cnf3: Cnf := [[p], [Not(p)], []];
    assert [] !in cnf by {
      assert cnf[0] != [] && cnf[1] != [];
    }
    assert [] in cnf3 by {
      assert cnf3[2] == [];
    }
  }

  /** The resolving phase on the unit clauses appends the empty clause. */
  lemma UnitsFound(p: Formula)
    requires p == Atom("p", [])
    ensures ResolventFound(State([[p], [Not(p)]], 2, 0, 1, 0), 1, 3)
         == Some((State([[p], [Not(p)], []], 2, 0, 3, 0), true))
  {
    var st := State([[p], [Not(p)]], 2, 0, 1, 0);
    UnitsResolve(p);
    UnitsExhaust(p);
    var st2 := State([[p], [Not(p)], []], 2, 0, 2, 0);
    assert ResolveStep(st, 1) == (st2, true);
  }
}
