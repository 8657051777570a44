/** Syntactic unification of a list of term pairs by the transformation rules
    factoring, tautology, orientation, decomposition and application
    (unification.cpp). The pair list is a sequence edited in place exactly as
    the source edits its vector: a removed pair is swapped with the last one
    and the last one is dropped. */
module Unification {
  import opened Names
  import opened Terms
  import opened Revisions
  import opened Sequences

  /** An equation `left = right` to be solved (`std::pair<Term, Term>`). */
  datatype Pair = Pair(left: Term, right: Term)

  /** The result of `unify`; `OutOfFuel` has no counterpart in the source and
      stands for a run longer than the round bound the caller allows. */
  datatype Outcome = Unified(subst: Substitution) | NotUnifiable | OutOfFuel

  /** What one pass of a rule leaves behind: the pairs, whether it changed
      anything, and whether it hit a clash (a collision or a cycle). */
  datatype Pass = Pass(pairs: seq<Pair>, changed: bool, clash: bool)

  /** `s` unifies every pair. */
  predicate Unifies(s: Substitution, ps: seq<Pair>)
  {
    forall p :: p in ps ==> Apply(s, p.left) == Apply(s, p.right)
  }

  // ---------------------------------------------------------------------
  // Factoring: drop later copies of a pair
  // ---------------------------------------------------------------------

  /** The inner loop of `factoring` for a fixed `i`: every later pair equal to
      pair `i` is removed. */
  function FactorAgainst(ps: seq<Pair>, i: nat, j: nat): (r: seq<Pair>)
    requires i < j
    requires i < |ps|
    ensures i < |r| <= |ps|
    decreases |ps| - j
  {
    if j >= |ps| then ps
    else if ps[i] == ps[j] then FactorAgainst(RemoveSwap(ps, j), i, j)
    else FactorAgainst(ps, i, j + 1)
  }

  /** A pair before position `j` keeps its place. */
  lemma {:induction false} FactorAgainstKeeps(ps: seq<Pair>, i: nat, j: nat, k: nat)
    requires i < j
    requires i < |ps|
    requires k < j && k < |ps|
    ensures k < |FactorAgainst(ps, i, j)| && FactorAgainst(ps, i, j)[k] == ps[k]
    decreases |ps| - j
  {
    if j >= |ps| {
    } else if ps[i] == ps[j] {
      var ps' := RemoveSwap(ps, j);
      assert ps'[k] == ps[k];
      FactorAgainstKeeps(ps', i, j, k);
    } else {
      FactorAgainstKeeps(ps, i, j + 1, k);
    }
  }

  /** `x` occurs after position `i`. */
  predicate AfterIndex(x: Pair, ps: seq<Pair>, i: nat)
  {
    exists m :: i < m < |ps| && ps[m] == x
  }

  /** Only copies of pair `i` are removed, so the same pairs remain. */
  lemma {:induction false} FactorAgainstElems(ps: seq<Pair>, i: nat, j: nat)
    requires i < j
    requires i < |ps|
    ensures var r := FactorAgainst(ps, i, j);
      forall p :: p in r <==> p in ps
    decreases |ps| - j
  {
    if j >= |ps| {
    } else if ps[i] == ps[j] {
      var ps' := RemoveSwap(ps, j);
      FactorAgainstElems(ps', i, j);
      assert ps'[i] == ps[i];
      assert ps[i] in ps';
      assert forall p :: p in ps' <==> p in ps;
    } else {
      FactorAgainstElems(ps, i, j + 1);
    }
  }

  /** The pairs after position `i` come from after position `i`. */
  lemma {:induction false} FactorAgainstTail(ps: seq<Pair>, i: nat, j: nat)
    requires i < j
    requires i < |ps|
    ensures forall k :: i < k < |FactorAgainst(ps, i, j)| ==> AfterIndex(FactorAgainst(ps, i, j)[k], ps, i)
    decreases |ps| - j
  {
    if j >= |ps| {
      assert forall k :: i < k < |ps| ==> AfterIndex(ps[k], ps, i);
    } else if ps[i] == ps[j] {
      var ps' := RemoveSwap(ps, j);
      FactorAgainstTail(ps', i, j);
      forall x | AfterIndex(x, ps', i) ensures AfterIndex(x, ps, i) {
        var m :| i < m < |ps'| && ps'[m] == x;
        if m == j {
          assert ps[|ps| - 1] == x;
        } else {
          assert ps[m] == x;
        }
      }
      var r := FactorAgainst(ps, i, j);
      assert r == FactorAgainst(ps', i, j);
      forall k | i < k < |r| ensures AfterIndex(r[k], ps, i) {
        assert AfterIndex(r[k], ps', i);
      }
    } else {
      FactorAgainstTail(ps, i, j + 1);
      var r := FactorAgainst(ps, i, j + 1);
      assert FactorAgainst(ps, i, j) == r;
      forall k | i < k < |r| ensures AfterIndex(r[k], ps, i) {
        var x := r[k];
        assert AfterIndex(x, ps, i);
      }
    }
  }

  /** No pair from position `j` on equals pair `i` afterwards. */
  lemma {:induction false} FactorAgainstDistinct(ps: seq<Pair>, i: nat, j: nat)
    requires i < j
    requires i < |ps|
    ensures var r := FactorAgainst(ps, i, j);
      forall k :: j <= k < |r| ==> r[k] != r[i]
    decreases |ps| - j
  {
    if j >= |ps| {
    } else if ps[i] == ps[j] {
      var ps' := RemoveSwap(ps, j);
      assert FactorAgainst(ps, i, j) == FactorAgainst(ps', i, j);
      FactorAgainstDistinct(ps', i, j);
    } else {
      assert FactorAgainst(ps, i, j) == FactorAgainst(ps, i, j + 1);
      FactorAgainstDistinct(ps, i, j + 1);
      FactorAgainstKeeps(ps, i, j + 1, j);
      FactorAgainstKeeps(ps, i, j + 1, i);
    }
  }

  function FactorFrom(ps: seq<Pair>, i: nat): (r: seq<Pair>)
    requires i <= |ps|
    requires forall a, b :: 0 <= a < b < |ps| && a < i ==> ps[a] != ps[b]
    ensures forall p :: p in r <==> p in ps
    ensures forall a, b :: 0 <= a < b < |r| ==> r[a] != r[b]
    decreases |ps| - i
  {
    if i == |ps| then ps
    else
      var ps' := FactorAgainst(ps, i, i + 1);
      FactorAgainstElems(ps, i, i + 1);
      FactorAgainstTail(ps, i, i + 1);
      FactorAgainstDistinct(ps, i, i + 1);
      assert forall a, b :: 0 <= a < b < |ps'| && a < i + 1 ==> ps'[a] != ps'[b] by {
        forall a, b | 0 <= a < b < |ps'| && a < i + 1 ensures ps'[a] != ps'[b] {
          if a < i {
            FactorAgainstKeeps(ps, i, i + 1, a);
            if b <= i {
              FactorAgainstKeeps(ps, i, i + 1, b);
            } else {
              assert AfterIndex(ps'[b], ps, i);
              var m :| i < m < |ps| && ps[m] == ps'[b];
              assert ps[a] != ps[m];
            }
          } else {
            assert a == i && b >= i + 1;
          }
        }
      }
      FactorFrom(ps', i + 1)
  }

  /** `factoring`: keeps one copy of each pair. */
  function Factoring(ps: seq<Pair>): (r: seq<Pair>)
    ensures forall p :: p in r <==> p in ps
    ensures forall a, b :: 0 <= a < b < |r| ==> r[a] != r[b]
  {
    FactorFrom(ps, 0)
  }

  // ---------------------------------------------------------------------
  // Tautology: drop pairs whose two sides are equal
  // ---------------------------------------------------------------------

  predicate Trivial(p: Pair)
  {
    p.left == p.right
  }

  function TautologyFrom(ps: seq<Pair>, i: nat): (r: seq<Pair>)
    requires i <= |ps|
    requires forall k :: 0 <= k < i ==> !Trivial(ps[k])
    ensures forall p :: p in r ==> p in ps
    ensures forall p :: p in ps && !Trivial(p) ==> p in r
    ensures forall p :: p in r ==> !Trivial(p)
    decreases |ps| - i
  {
    if i == |ps| then ps
    else if Trivial(ps[i]) then TautologyFrom(RemoveSwap(ps, i), i)
    else TautologyFrom(ps, i + 1)
  }

  /** `tautology`: removes every pair `t = t`. */
  function Tautology(ps: seq<Pair>): (r: seq<Pair>)
    ensures forall p :: p in r <==> p in ps && !Trivial(p)
  {
    TautologyFrom(ps, 0)
  }

  // ---------------------------------------------------------------------
  // Orientation: put the variable on the left
  // ---------------------------------------------------------------------

  /** A pair `t = x` with `t` not a variable and `x` a variable. */
  predicate Misoriented(p: Pair)
  {
    p.right.Var? && !p.left.Var?
  }

  function Orient(p: Pair): Pair
  {
    if Misoriented(p) then Pair(p.right, p.left) else p
  }

  /** `orientation`: swaps every misoriented pair; reports whether any was. */
  function Orientation(ps: seq<Pair>): (r: Pass)
    ensures |r.pairs| == |ps| && !r.clash
    ensures forall k :: 0 <= k < |ps| ==> r.pairs[k] == Orient(ps[k])
    ensures r.changed <==> exists k :: 0 <= k < |ps| && Misoriented(ps[k])
  {
    Pass(seq(|ps|, k requires 0 <= k < |ps| => Orient(ps[k])),
         exists k :: 0 <= k < |ps| && Misoriented(ps[k]), false)
  }

  // ---------------------------------------------------------------------
  // Decomposition: f(a1..an) = f(b1..bn) becomes a1 = b1, ..., an = bn
  // ---------------------------------------------------------------------

  function Weight(p: Pair): nat
  {
    Size(p.left) + Size(p.right)
  }

  function Total(ps: seq<Pair>): nat
  {
    if ps == [] then 0 else Total(ps[..|ps| - 1]) + Weight(ps[|ps| - 1])
  }

  /** The argument pairs `a[k] = b[k]`. */
  function Zip(a: seq<Term>, b: seq<Term>): (r: seq<Pair>)
    requires |a| == |b|
    ensures |r| == |a|
    ensures forall k :: 0 <= k < |a| ==> r[k] == Pair(a[k], b[k])
  {
    seq(|a|, k requires 0 <= k < |a| => Pair(a[k], b[k]))
  }

  lemma {:induction false} TotalAppend(ps: seq<Pair>, qs: seq<Pair>)
    ensures Total(ps + qs) == Total(ps) + Total(qs)
    decreases |qs|
  {
    if qs == [] {
      assert ps + qs == ps;
    } else {
      var n := |qs| - 1;
      assert (ps + qs)[..|ps + qs| - 1] == ps + qs[..n];
      assert (ps + qs)[|ps + qs| - 1] == qs[n];
      TotalAppend(ps, qs[..n]);
    }
  }

  lemma {:induction false} TotalZip(a: seq<Term>, b: seq<Term>)
    requires |a| == |b|
    ensures Total(Zip(a, b)) == SizeSum(a) + SizeSum(b)
    decreases |a|
  {
    if a != [] {
      assert Zip(a, b) == [Pair(a[0], b[0])] + Zip(a[1..], b[1..]);
      TotalZip(a[1..], b[1..]);
      TotalAppend([Pair(a[0], b[0])], Zip(a[1..], b[1..]));
      assert Total([Pair(a[0], b[0])]) == Size(a[0]) + Size(b[0]);
    }
  }

  lemma {:induction false} TotalUpdate(ps: seq<Pair>, i: nat, v: Pair)
    requires i < |ps|
    ensures Total(ps[i := v]) + Weight(ps[i]) == Total(ps) + Weight(v)
    decreases |ps|
  {
    var n := |ps| - 1;
    if i == n {
      assert ps[i := v][..n] == ps[..n];
    } else {
      assert ps[i := v][..n] == ps[..n][i := v];
      TotalUpdate(ps[..n], i, v);
    }
  }

  lemma TotalRemoveSwap(ps: seq<Pair>, i: nat)
    requires i < |ps|
    ensures Total(RemoveSwap(ps, i)) + Weight(ps[i]) == Total(ps)
  {
    var n := |ps| - 1;
    var u := ps[i := ps[n]];
    TotalUpdate(ps, i, ps[n]);
    assert RemoveSwap(ps, i) == u[..n];
    assert u[n] == ps[n];
    assert Total(u) == Total(u[..n]) + Weight(u[n]);
  }

  /** Two function terms that decomposition can break up: same symbol, same
      number of arguments. Decomposition walks the left term's arguments only
      and so takes equal arity for granted; this model treats a difference in
      arity as a collision. */
  predicate Decomposable(p: Pair)
  {
    p.left.Fn? && p.right.Fn? && p.left.symbol == p.right.symbol && |p.left.args| == |p.right.args|
  }

  /** Two function terms that decomposition reports as a collision. */
  predicate Collides(p: Pair)
  {
    p.left.Fn? && p.right.Fn? && !Decomposable(p)
  }

  /** The pairs that replace a decomposable pair. */
  function Arguments(p: Pair): seq<Pair>
    requires Decomposable(p)
  {
    Zip(p.left.args, p.right.args)
  }

  function DecomposeFrom(ps: seq<Pair>, i: nat, changed: bool): (r: Pass)
    requires i <= |ps|
    decreases Total(ps), |ps| - i
  {
    if i == |ps| then Pass(ps, changed, false)
    else if Collides(ps[i]) then Pass(ps, false, true)
    else if Decomposable(ps[i]) then
      var ps' := RemoveSwap(ps + Arguments(ps[i]), i);
      assert Total(ps') < Total(ps) by {
        TotalRemoveSwap(ps + Arguments(ps[i]), i);
        TotalAppend(ps, Arguments(ps[i]));
        TotalZip(ps[i].left.args, ps[i].right.args);
      }
      DecomposeFrom(ps', i, true)
    else DecomposeFrom(ps, i + 1, changed)
  }

  /** `decomposition`: the pass reports `changed` when it broke up a pair and
      `clash` on a collision. */
  function Decomposition(ps: seq<Pair>): Pass
  {
    DecomposeFrom(ps, 0, false)
  }

  // ---------------------------------------------------------------------
  // Application: eliminate a solved variable from the other pairs
  // ---------------------------------------------------------------------

  /** Some pair other than pair `i` mentions `x`. */
  predicate Mentions(ps: seq<Pair>, i: nat, x: Name)
  {
    exists j :: 0 <= j < |ps| && j != i && (x in Terms.Vars(ps[j].left) || x in Terms.Vars(ps[j].right))
  }

  /** Replaces `x` by `t` on both sides of every pair except pair `i`. */
  function Eliminate(ps: seq<Pair>, i: nat, x: Name, t: Term): (r: seq<Pair>)
    ensures |r| == |ps|
    ensures forall j :: 0 <= j < |ps| && j != i ==> r[j] == Pair(Subst(ps[j].left, x, t), Subst(ps[j].right, x, t))
    ensures i < |ps| ==> r[i] == ps[i]
  {
    seq(|ps|, j requires 0 <= j < |ps| => if j == i then ps[j] else Pair(Subst(ps[j].left, x, t), Subst(ps[j].right, x, t)))
  }

  /** Whether pair `x = t` stops `application` with a cycle. As written: whenever
      `x` occurs in `t`, including `t = x`, which an earlier elimination in the
      same pass can produce. Corrected: only when `t` is a different term. */
  predicate Cycle(rev: Revision, x: Name, t: Term)
  {
    match rev
    case AsWritten => x in Terms.Vars(t)
    case Corrected => x in Terms.Vars(t) && t != Var(x)
  }

  function ApplicationFrom(rev: Revision, ps: seq<Pair>, i: nat, changed: bool): (r: Pass)
    requires i <= |ps|
    decreases |ps| - i
  {
    if i == |ps| then Pass(ps, changed, false)
    else match ps[i].left
      case Fn(_, _) => ApplicationFrom(rev, ps, i + 1, changed)
      case Var(x) =>
        var t := ps[i].right;
        if Cycle(rev, x, t) then Pass(ps, false, true)
        else if x in Terms.Vars(t) then ApplicationFrom(rev, ps, i + 1, changed)
        else ApplicationFrom(rev, Eliminate(ps, i, x, t), i + 1, changed || Mentions(ps, i, x))
  }

  /** `application`: for each pair `x = t` in turn, substitutes `t` for `x` in all
      other pairs; `clash` reports a cycle. */
  function Application(rev: Revision, ps: seq<Pair>): Pass
  {
    ApplicationFrom(rev, ps, 0, false)
  }

  // ---------------------------------------------------------------------
  // The main loop
  // ---------------------------------------------------------------------

  /** One iteration of the `do ... while (repeat)` loop: factoring and tautology,
      then `orientation || decomposition || application`. The source runs
      application even after a collision, but then fails regardless, so a
      collision ends the round here. */
  function Round(rev: Revision, ps: seq<Pair>): Pass
  {
    var ps1 := Tautology(Factoring(ps));
    var o := Orientation(ps1);
    if o.changed then o
    else
      var d := Decomposition(o.pairs);
      if d.clash || d.changed then d
      else Application(rev, d.pairs)
  }

  /** The substitution read off the final pairs: `s[x] = t` for each pair `x = t`
      in order, a later pair for the same variable overwriting an earlier one. */
  function ToSubstitution(ps: seq<Pair>): Substitution
  {
    if ps == [] then map[]
    else
      var m := ToSubstitution(ps[..|ps| - 1]);
      var p := ps[|ps| - 1];
      match p.left
      case Var(x) => m[x := p.right]
      case Fn(_, _) => m
  }

  /** A solved set: every pair is `x = t`, with `x` neither in `t` nor in any
      other pair. */
  predicate Solved(ps: seq<Pair>)
  {
    forall k :: 0 <= k < |ps| ==>
      && ps[k].left.Var?
      && ps[k].left.name !in Terms.Vars(ps[k].right)
      && !Mentions(ps, k, ps[k].left.name)
  }

  /** Up to `fuel` rounds of the loop, then the substitution read off the pairs. */
  function Rounds(rev: Revision, ps: seq<Pair>, fuel: nat): (r: Outcome)
    ensures r.Unified? ==> Unifies(r.subst, ps)
    decreases fuel
  {
    if fuel == 0 then OutOfFuel
    else
      var p := Round(rev, ps);
      if p.clash then NotUnifiable
      else if p.changed then
        var r := Rounds(rev, p.pairs, fuel - 1);
        if r.Unified? then RoundPreserves(rev, ps, r.subst); r else r
      else
        RoundSolved(rev, ps);
        SolvedUnifies(p.pairs);
        RoundPreserves(rev, ps, ToSubstitution(p.pairs));
        Unified(ToSubstitution(p.pairs))
  }

  /** `unify(termPairs)`: a unifier of all pairs if the rules find one. */
  function Unify(rev: Revision, ps: seq<Pair>, fuel: nat): (r: Outcome)
    ensures r.Unified? ==> Unifies(r.subst, ps)
  {
    Rounds(rev, ps, fuel)
  }

  // ---------------------------------------------------------------------
  // Lemmas: every rule keeps the set of unifiers
  // ---------------------------------------------------------------------

  lemma OrientationPreserves(ps: seq<Pair>, s: Substitution)
    ensures Unifies(s, Orientation(ps).pairs) <==> Unifies(s, ps)
  {
    var r := Orientation(ps).pairs;
    if Unifies(s, ps) {
      forall p | p in r ensures Apply(s, p.left) == Apply(s, p.right) {
        var k :| 0 <= k < |r| && r[k] == p;
        assert ps[k] in ps;
      }
    }
    if Unifies(s, r) {
      forall p | p in ps ensures Apply(s, p.left) == Apply(s, p.right) {
        var k :| 0 <= k < |ps| && ps[k] == p;
        assert r[k] in r;
      }
    }
  }

  /** A decomposable pair is unified exactly when its argument pairs are. */
  lemma ArgumentsUnify(s: Substitution, p: Pair)
    requires Decomposable(p)
    ensures Apply(s, p.left) == Apply(s, p.right) <==> Unifies(s, Arguments(p))
  {
    var a, b := p.left.args, p.right.args;
    var zs := Arguments(p);
    if Unifies(s, zs) {
      forall k | 0 <= k < |a| ensures ApplyTerms(s, a)[k] == ApplyTerms(s, b)[k] {
        assert zs[k] in zs;
      }
      assert ApplyTerms(s, a) == ApplyTerms(s, b);
    }
    if Apply(s, p.left) == Apply(s, p.right) {
      forall q | q in zs ensures Apply(s, q.left) == Apply(s, q.right) {
        var k :| 0 <= k < |zs| && zs[k] == q;
        assert ApplyTerms(s, a)[k] == ApplyTerms(s, b)[k];
      }
    }
  }

  /** Two terms that collide have no unifier. */
  lemma CollisionNotUnifiable(s: Substitution, p: Pair)
    requires Collides(p)
    ensures Apply(s, p.left) != Apply(s, p.right)
  {
  }

  /** Replacing pair `i` by pairs with the same unifiers keeps the unifiers. */
  lemma ReplacePreserves(ps: seq<Pair>, i: nat, args: seq<Pair>, s: Substitution)
    requires i < |ps|
    requires Apply(s, ps[i].left) == Apply(s, ps[i].right) <==> Unifies(s, args)
    ensures Unifies(s, RemoveSwap(ps + args, i)) <==> Unifies(s, ps)
  {
    var ps' := RemoveSwap(ps + args, i);
    assert ps[i] in ps;
    assert (ps + args)[i] == ps[i];
    if Unifies(s, ps) {
      forall q | q in ps' ensures Apply(s, q.left) == Apply(s, q.right) {
        assert q in ps + args;
      }
    }
    if Unifies(s, ps') {
      assert Unifies(s, args) by {
        forall q | q in args ensures Apply(s, q.left) == Apply(s, q.right) {
          var m :| 0 <= m < |args| && args[m] == q;
          var k := |ps| + m;
          assert (ps + args)[k] == q;
          if k < |ps'| {
            assert ps'[k] == q;
          } else {
            assert ps'[i] == q;
          }
        }
      }
      forall q | q in ps ensures Apply(s, q.left) == Apply(s, q.right) {
        assert q in ps + args;
      }
    }
  }

  /** Decomposition reduces the total size, so its loop ends. */
  lemma DecomposeShrinks(ps: seq<Pair>, i: nat)
    requires i < |ps| && Decomposable(ps[i])
    ensures Total(RemoveSwap(ps + Arguments(ps[i]), i)) < Total(ps)
  {
    TotalRemoveSwap(ps + Arguments(ps[i]), i);
    TotalAppend(ps, Arguments(ps[i]));
    TotalZip(ps[i].left.args, ps[i].right.args);
  }

  lemma {:induction false} DecomposePreserves(ps: seq<Pair>, i: nat, changed: bool, s: Substitution)
    requires i <= |ps|
    requires !DecomposeFrom(ps, i, changed).clash
    ensures Unifies(s, DecomposeFrom(ps, i, changed).pairs) <==> Unifies(s, ps)
    decreases Total(ps), |ps| - i
  {
    if i < |ps| {
      if Decomposable(ps[i]) {
        var ps' := RemoveSwap(ps + Arguments(ps[i]), i);
        DecomposeShrinks(ps, i);
        DecomposePreserves(ps', i, true, s);
        ArgumentsUnify(s, ps[i]);
        ReplacePreserves(ps, i, Arguments(ps[i]), s);
      } else {
        DecomposePreserves(ps, i + 1, changed, s);
      }
    }
  }

  /** A collision means there is no unifier. */
  lemma {:induction false} DecomposeClash(ps: seq<Pair>, i: nat, changed: bool, s: Substitution)
    requires i <= |ps|
    requires DecomposeFrom(ps, i, changed).clash
    ensures !Unifies(s, ps)
    decreases Total(ps), |ps| - i
  {
    if Collides(ps[i]) {
      CollisionNotUnifiable(s, ps[i]);
      assert ps[i] in ps;
    } else if Decomposable(ps[i]) {
      var ps' := RemoveSwap(ps + Arguments(ps[i]), i);
      DecomposeShrinks(ps, i);
      DecomposeClash(ps', i, true, s);
      ArgumentsUnify(s, ps[i]);
      ReplacePreserves(ps, i, Arguments(ps[i]), s);
    } else {
      DecomposeClash(ps, i + 1, changed, s);
    }
  }

  /** A pass that neither changed anything nor collided left the pairs as they
      were, and none of them (from `i` on) has function terms on both sides. */
  lemma {:induction false} DecomposeStable(ps: seq<Pair>, i: nat)
    requires i <= |ps|
    requires !DecomposeFrom(ps, i, false).changed && !DecomposeFrom(ps, i, false).clash
    ensures DecomposeFrom(ps, i, false).pairs == ps
    ensures forall k :: i <= k < |ps| ==> !(ps[k].left.Fn? && ps[k].right.Fn?)
    decreases |ps| - i
  {
    if i < |ps| {
      if Decomposable(ps[i]) {
        DecomposeChanged(RemoveSwap(ps + Arguments(ps[i]), i), i);
        assert false;
      }
      DecomposeStable(ps, i + 1);
    }
  }

  /** Once a pass has changed something it reports a change or a collision. */
  lemma {:induction false} DecomposeChanged(ps: seq<Pair>, i: nat)
    requires i <= |ps|
    ensures DecomposeFrom(ps, i, true).changed || DecomposeFrom(ps, i, true).clash
    decreases Total(ps), |ps| - i
  {
    if i < |ps| && !Collides(ps[i]) {
      if Decomposable(ps[i]) {
        DecomposeShrinks(ps, i);
        DecomposeChanged(RemoveSwap(ps + Arguments(ps[i]), i), i);
      } else {
        DecomposeChanged(ps, i + 1);
      }
    }
  }

  /** Eliminating a solved variable keeps the unifiers. */
  lemma EliminatePreserves(ps: seq<Pair>, i: nat, x: Name, t: Term, s: Substitution)
    requires i < |ps| && ps[i] == Pair(Var(x), t)
    ensures Unifies(s, Eliminate(ps, i, x, t)) <==> Unifies(s, ps)
  {
    var r := Eliminate(ps, i, x, t);
    assert r[i] in r && ps[i] in ps;
    if Unifies(s, ps) || Unifies(s, r) {
      assert Apply(s, Var(x)) == Apply(s, t);
      forall j | 0 <= j < |ps| && j != i
        ensures Apply(s, r[j].left) == Apply(s, ps[j].left) && Apply(s, r[j].right) == Apply(s, ps[j].right)
      {
        ApplyAfterSubst(s, ps[j].left, x, t);
        ApplyAfterSubst(s, ps[j].right, x, t);
      }
    }
    if Unifies(s, ps) {
      forall q | q in r ensures Apply(s, q.left) == Apply(s, q.right) {
        var j :| 0 <= j < |r| && r[j] == q;
        assert ps[j] in ps;
      }
    }
    if Unifies(s, r) {
      forall q | q in ps ensures Apply(s, q.left) == Apply(s, q.right) {
        var j :| 0 <= j < |ps| && ps[j] == q;
        assert r[j] in r;
      }
    }
  }

  /** Without other mentions of `x`, elimination changes nothing. */
  lemma EliminateUnmentioned(ps: seq<Pair>, i: nat, x: Name, t: Term)
    requires i < |ps| && !Mentions(ps, i, x)
    ensures Eliminate(ps, i, x, t) == ps
  {
    var r := Eliminate(ps, i, x, t);
    forall j | 0 <= j < |ps| ensures r[j] == ps[j] {
    }
  }

  lemma {:induction false} ApplicationPreserves(rev: Revision, ps: seq<Pair>, i: nat, changed: bool, s: Substitution)
    requires i <= |ps|
    ensures !ApplicationFrom(rev, ps, i, changed).clash ==>
      (Unifies(s, ApplicationFrom(rev, ps, i, changed).pairs) <==> Unifies(s, ps))
    ensures rev == Corrected && ApplicationFrom(rev, ps, i, changed).clash ==> !Unifies(s, ps)
    decreases |ps| - i
  {
    if i < |ps| {
      match ps[i].left
      case Fn(_, _) => ApplicationPreserves(rev, ps, i + 1, changed, s);
      case Var(x) =>
        var t := ps[i].right;
        if Cycle(rev, x, t) {
          if rev == Corrected {
            OccursCheck(s, t, x);
            assert ps[i] in ps;
          }
        } else if x in Terms.Vars(t) {
          ApplicationPreserves(rev, ps, i + 1, changed, s);
        } else {
          EliminatePreserves(ps, i, x, t, s);
          ApplicationPreserves(rev, Eliminate(ps, i, x, t), i + 1, changed || Mentions(ps, i, x), s);
        }
    }
  }

  /** A pass that neither changed anything nor found a cycle left the pairs as
      they were; every pair `x = t` from `i` on has no cycle and, unless `x`
      occurs in `t`, `x` occurs in no other pair. */
  lemma {:induction false} ApplicationStable(rev: Revision, ps: seq<Pair>, i: nat)
    requires i <= |ps|
    requires !ApplicationFrom(rev, ps, i, false).changed && !ApplicationFrom(rev, ps, i, false).clash
    ensures ApplicationFrom(rev, ps, i, false).pairs == ps
    ensures forall k :: i <= k < |ps| && ps[k].left.Var? ==>
      && !Cycle(rev, ps[k].left.name, ps[k].right)
      && (ps[k].left.name !in Terms.Vars(ps[k].right) ==> !Mentions(ps, k, ps[k].left.name))
    decreases |ps| - i
  {
    if i < |ps| {
      match ps[i].left
      case Fn(_, _) => ApplicationStable(rev, ps, i + 1);
      case Var(x) =>
        var t := ps[i].right;
        if !Cycle(rev, x, t) {
          if x in Terms.Vars(t) {
            ApplicationStable(rev, ps, i + 1);
          } else {
            if Mentions(ps, i, x) {
              ApplicationChanged(rev, Eliminate(ps, i, x, t), i + 1);
              assert false;
            }
            EliminateUnmentioned(ps, i, x, t);
            ApplicationStable(rev, ps, i + 1);
          }
        }
    }
  }

  /** Once a pass has changed something it reports a change or a cycle. */
  lemma {:induction false} ApplicationChanged(rev: Revision, ps: seq<Pair>, i: nat)
    requires i <= |ps|
    ensures ApplicationFrom(rev, ps, i, true).changed || ApplicationFrom(rev, ps, i, true).clash
    decreases |ps| - i
  {
    if i < |ps| {
      match ps[i].left
      case Fn(_, _) => ApplicationChanged(rev, ps, i + 1);
      case Var(x) =>
        var t := ps[i].right;
        if !Cycle(rev, x, t) {
          if x in Terms.Vars(t) {
            ApplicationChanged(rev, ps, i + 1);
          } else {
            ApplicationChanged(rev, Eliminate(ps, i, x, t), i + 1);
          }
        }
    }
  }

  // ---------------------------------------------------------------------
  // Lemmas: rounds
  // ---------------------------------------------------------------------

  /** A round that does not clash keeps the unifiers. */
  lemma RoundPreserves(rev: Revision, ps: seq<Pair>, s: Substitution)
    requires !Round(rev, ps).clash
    ensures Unifies(s, Round(rev, ps).pairs) <==> Unifies(s, ps)
  {
    var ps1 := Tautology(Factoring(ps));
    assert Unifies(s, ps1) <==> Unifies(s, ps);
    OrientationPreserves(ps1, s);
    var o := Orientation(ps1);
    if !o.changed {
      var d := Decomposition(o.pairs);
      if !d.clash {
        DecomposePreserves(o.pairs, 0, false, s);
      }
      if !d.clash && !d.changed {
        ApplicationPreserves(rev, d.pairs, 0, false, s);
      }
    }
  }

  /** With the corrected cycle test, a clash means there is no unifier. */
  lemma RoundClash(ps: seq<Pair>, s: Substitution)
    requires Round(Corrected, ps).clash
    ensures !Unifies(s, ps)
  {
    var ps1 := Tautology(Factoring(ps));
    assert Unifies(s, ps1) <==> Unifies(s, ps);
    OrientationPreserves(ps1, s);
    var o := Orientation(ps1);
    var d := Decomposition(o.pairs);
    if d.clash {
      DecomposeClash(o.pairs, 0, false, s);
    } else {
      DecomposePreserves(o.pairs, 0, false, s);
      ApplicationPreserves(Corrected, d.pairs, 0, false, s);
    }
  }

  /** A round that neither changes nor clashes ends in solved form. */
  lemma RoundSolved(rev: Revision, ps: seq<Pair>)
    requires !Round(rev, ps).changed && !Round(rev, ps).clash
    ensures Solved(Round(rev, ps).pairs)
  {
    var ps1 := Tautology(Factoring(ps));
    var o := Orientation(ps1);
    assert o.pairs == ps1 by {
      forall k | 0 <= k < |ps1| ensures o.pairs[k] == ps1[k] {
      }
    }
    DecomposeStable(ps1, 0);
    ApplicationStable(rev, ps1, 0);
    forall k | 0 <= k < |ps1|
      ensures ps1[k].left.Var?
      ensures ps1[k].left.name !in Terms.Vars(ps1[k].right)
      ensures !Mentions(ps1, k, ps1[k].left.name)
    {
      assert ps1[k] in ps1;
      assert !Misoriented(ps1[k]);
      assert !Trivial(ps1[k]);
    }
  }

  // ---------------------------------------------------------------------
  // Lemmas: the substitution read off a solved set
  // ---------------------------------------------------------------------

  /** In a solved set, every variable heads exactly one pair. */
  lemma SolvedDistinct(ps: seq<Pair>, k: nat, m: nat)
    requires Solved(ps) && k < |ps| && m < |ps| && k != m
    ensures ps[k].left.name != ps[m].left.name
  {
    assert !Mentions(ps, k, ps[k].left.name);
    assert ps[k].left.name !in Terms.Vars(ps[m].left);
  }

  /** The map sends each head variable of a solved set to its term, and has no
      other keys. */
  lemma {:induction false} ToSubstitutionSolved(ps: seq<Pair>)
    requires Solved(ps)
    ensures forall k :: 0 <= k < |ps| ==> ps[k].left.name in ToSubstitution(ps) && ToSubstitution(ps)[ps[k].left.name] == ps[k].right
    ensures forall y :: y in ToSubstitution(ps) ==> exists k :: 0 <= k < |ps| && ps[k].left == Var(y)
    decreases |ps|
  {
    if ps != [] {
      var n := |ps| - 1;
      var pre := ps[..n];
      assert Solved(pre) by {
        forall k | 0 <= k < |pre| ensures !Mentions(pre, k, pre[k].left.name) {
          assert pre[k] == ps[k];
          assert !Mentions(ps, k, ps[k].left.name);
          assert forall j :: 0 <= j < |pre| ==> pre[j] == ps[j];
        }
      }
      ToSubstitutionSolved(pre);
      forall k | 0 <= k < n ensures ps[k].left.name != ps[n].left.name {
        SolvedDistinct(ps, k, n);
      }
      forall y | y in ToSubstitution(ps) ensures exists k :: 0 <= k < |ps| && ps[k].left == Var(y) {
        if y != ps[n].left.name {
          var k :| 0 <= k < |pre| && pre[k].left == Var(y);
          assert ps[k] == pre[k];
        }
      }
    }
  }

  /** The map read off a solved set unifies it. */
  lemma SolvedUnifies(ps: seq<Pair>)
    requires Solved(ps)
    ensures Unifies(ToSubstitution(ps), ps)
  {
    var s := ToSubstitution(ps);
    ToSubstitutionSolved(ps);
    forall q | q in ps ensures Apply(s, q.left) == Apply(s, q.right) {
      var k :| 0 <= k < |ps| && ps[k] == q;
      forall y | y in Terms.Vars(q.right) ensures y !in s {
        forall m | 0 <= m < |ps| ensures ps[m].left != Var(y) {
          if m != k {
            assert !Mentions(ps, m, ps[m].left.name);
            assert ps[m].left.name !in Terms.Vars(ps[k].right);
          }
        }
      }
    }
  }

  /** Any unifier of a solved set factors through the map read off it: applying
      the map first changes nothing for that unifier. */
  lemma SolvedMostGeneral(ps: seq<Pair>, s: Substitution, t: Term)
    requires Solved(ps) && Unifies(s, ps)
    ensures Apply(s, Apply(ToSubstitution(ps), t)) == Apply(s, t)
  {
    var m := ToSubstitution(ps);
    ToSubstitutionSolved(ps);
    forall y | y in Terms.Vars(t) ensures Apply(s, Apply(m, Var(y))) == Apply(s, Var(y)) {
      if y in m {
        var k :| 0 <= k < |ps| && ps[k].left == Var(y);
        assert ps[k] in ps;
      }
    }
    ApplyComposeAgree(s, m, t);
  }

  // ---------------------------------------------------------------------
  // Lemmas: the whole algorithm
  // ---------------------------------------------------------------------

  /** The unifier found is most general: every unifier `s` of the input is an
      instance of it. */
  lemma {:induction false} UnifyMostGeneral(rev: Revision, ps: seq<Pair>, fuel: nat, s: Substitution, t: Term)
    requires Unify(rev, ps, fuel).Unified? && Unifies(s, ps)
    ensures Apply(s, Apply(Unify(rev, ps, fuel).subst, t)) == Apply(s, t)
    decreases fuel, 1
  {
    if Round(rev, ps).changed {
      UnifyMostGeneralChanged(rev, ps, fuel, s, t);
    } else {
      UnifyMostGeneralSettled(rev, ps, fuel, s, t);
    }
  }

  /** `UnifyMostGeneral` when the first round changes something. */
  lemma {:induction false} UnifyMostGeneralChanged(rev: Revision, ps: seq<Pair>, fuel: nat, s: Substitution, t: Term)
    requires Unify(rev, ps, fuel).Unified? && Unifies(s, ps) && Round(rev, ps).changed
    ensures Apply(s, Apply(Unify(rev, ps, fuel).subst, t)) == Apply(s, t)
    decreases fuel, 0
  {
    var p := Round(rev, ps);
    RoundPreserves(rev, ps, s);
    UnifyMostGeneral(rev, p.pairs, fuel - 1, s, t);
  }

  /** `UnifyMostGeneral` when the first round leaves a solved set. */
  lemma UnifyMostGeneralSettled(rev: Revision, ps: seq<Pair>, fuel: nat, s: Substitution, t: Term)
    requires Unify(rev, ps, fuel).Unified? && Unifies(s, ps) && !Round(rev, ps).changed
    ensures Apply(s, Apply(Unify(rev, ps, fuel).subst, t)) == Apply(s, t)
  {
    var p := Round(rev, ps);
    RoundPreserves(rev, ps, s);
    RoundSolved(rev, ps);
    SolvedMostGeneral(p.pairs, s, t);
  }

  /** With the corrected cycle test, a failure means there is no unifier. */
  lemma {:induction false} UnifyComplete(ps: seq<Pair>, fuel: nat, s: Substitution)
    requires Unify(Corrected, ps, fuel).NotUnifiable?
    ensures !Unifies(s, ps)
    decreases fuel, 1
  {
    if Round(Corrected, ps).clash {
      RoundClash(ps, s);
    } else {
      UnifyCompleteNext(ps, fuel, s);
    }
  }

  /** `UnifyComplete` when the first round has no clash. */
  lemma {:induction false} UnifyCompleteNext(ps: seq<Pair>, fuel: nat, s: Substitution)
    requires Unify(Corrected, ps, fuel).NotUnifiable? && !Round(Corrected, ps).clash
    ensures !Unifies(s, ps)
    decreases fuel, 0
  {
    RoundPreserves(Corrected, ps, s);
    UnifyComplete(Round(Corrected, ps).pairs, fuel - 1, s);
  }

  /** As written, { x = y, y = x } is reported not unifiable although x -> y
      unifies it: eliminating x turns the second pair into y = y, which the
      cycle test in the same pass rejects. */
  lemma FalseCycle(fuel: nat)
    requires fuel >= 1
    ensures var ps := [Pair(Var("x"), Var("y")), Pair(Var("y"), Var("x"))];
      && Unify(AsWritten, ps, fuel) == NotUnifiable
      && Unifies(map["x" := Var("y")], ps)
  {
    var ps := [Pair(Var("x"), Var("y")), Pair(Var("y"), Var("x"))];
    assert "x" != "y" by { assert "x"[0] != "y"[0]; }
    FalseCycleRound(AsWritten);
    assert Unifies(map["x" := Var("y")], ps) by {
      forall q | q in ps ensures Apply(map["x" := Var("y")], q.left) == Apply(map["x" := Var("y")], q.right) {
      }
    }
  }

  /** The first round on { x = y, y = x }: both revisions eliminate x, leaving
      y = y; only the as-written cycle test rejects it. */
  lemma FalseCycleRound(rev: Revision)
    ensures var ps := [Pair(Var("x"), Var("y")), Pair(Var("y"), Var("x"))];
      var ps1 := [Pair(Var("x"), Var("y")), Pair(Var("y"), Var("y"))];
      Round(rev, ps) == if rev == AsWritten then Pass(ps1, false, true) else Pass(ps1, true, false)
  {
    var ps := [Pair(Var("x"), Var("y")), Pair(Var("y"), Var("x"))];
    assert "x" != "y" by { assert "x"[0] != "y"[0]; }
    assert Factoring(ps) == ps by {
      assert FactorAgainst(ps, 0, 1) == ps;
      assert FactorAgainst(ps, 1, 2) == ps;
    }
    assert Tautology(ps) == ps by {
      assert TautologyFrom(ps, 0) == TautologyFrom(ps, 1) == TautologyFrom(ps, 2);
    }
    assert !Orientation(ps).changed;
    assert Orientation(ps).pairs == ps;
    assert Decomposition(ps) == Pass(ps, false, false) by {
      assert DecomposeFrom(ps, 0, false) == DecomposeFrom(ps, 1, false) == DecomposeFrom(ps, 2, false);
    }
    var ps1 := [Pair(Var("x"), Var("y")), Pair(Var("y"), Var("y"))];
    assert Eliminate(ps, 0, "x", Var("y")) == ps1;
    assert Mentions(ps, 0, "x") by { assert "x" in Terms.Vars(ps[1].right); }
    assert ApplicationFrom(rev, ps, 0, false) == ApplicationFrom(rev, ps1, 1, true);
  }

  /** Corrected, the same input is unified by x -> y in two rounds. */
  lemma FalseCycleCorrected()
    ensures Unify(Corrected, [Pair(Var("x"), Var("y")), Pair(Var("y"), Var("x"))], 2)
         == Unified(map["x" := Var("y")])
  {
    FalseCycleTwoRounds("x", "y", 2);
  }

  /** `FalseCycleCorrected` with the names and the round bound as
      parameters, so that the rounds are unfolded one at a time. */
  lemma FalseCycleTwoRounds(x: Name, y: Name, fuel: nat)
    requires x == "x" && y == "y" && fuel == 2
    ensures Unify(Corrected, [Pair(Var(x), Var(y)), Pair(Var(y), Var(x))], fuel) == Unified(map[x := Var(y)])
  {
    FalseCycleRound(Corrected);
    FalseCycleSecondRound(x, y);
    var ps2 := [Pair(Var(x), Var(y))];
    assert ToSubstitution(ps2) == map[x := Var(y)] by {
      assert ps2[..0] == [];
    }
  }

  /** The second round: y = y is dropped and x = y is already solved. */
  lemma FalseCycleSecondRound(x: Name, y: Name)
    requires x == "x" && y == "y"
    ensures Round(Corrected, [Pair(Var(x), Var(y)), Pair(Var(y), Var(y))]) == Pass([Pair(Var(x), Var(y))], false, false)
  {
    var ps1 := [Pair(Var(x), Var(y)), Pair(Var(y), Var(y))];
    var ps2 := [Pair(Var(x), Var(y))];
    assert x != y by { assert x[0] != y[0]; }
    assert Factoring(ps1) == ps1 by {
      assert ps1[0] != ps1[1];
      assert FactorAgainst(ps1, 0, 1) == ps1;
      assert FactorAgainst(ps1, 1, 2) == ps1;
      assert FactorFrom(ps1, 1) == FactorFrom(ps1, 2) == ps1;
    }
    assert Tautology(ps1) == ps2 by {
      assert TautologyFrom(ps1, 0) == TautologyFrom(ps1, 1);
      assert RemoveSwap(ps1, 1) == ps2;
      assert TautologyFrom(ps1, 1) == TautologyFrom(ps2, 1);
    }
    assert Orientation(ps2).pairs == ps2 && !Orientation(ps2).changed;
    assert Decomposition(ps2) == Pass(ps2, false, false) by {
      assert DecomposeFrom(ps2, 0, false) == DecomposeFrom(ps2, 1, false);
    }
    assert !Mentions(ps2, 0, x);
    assert Eliminate(ps2, 0, x, Var(y)) == ps2;
    assert Terms.Vars(Var(y)) == {y};
    assert ApplicationFrom(Corrected, ps2, 1, false) == Pass(ps2, false, false);
    assert Application(Corrected, ps2) == Pass(ps2, false, false);
  }
}
