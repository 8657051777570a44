/** Terms of first-order logic: variables and function applications
    (variable_term.cpp, function_term.cpp). Values are immutable; sharing
    and copying are indistinguishable, so structural equality is Dafny's `==`. */
module Terms {
  import opened Names

  datatype Term = Var(name: Name) | Fn(symbol: Name, args: seq<Term>)

  /** A variable-to-term map, applied simultaneously (`std::map<Variable, Term>`). */
  type Substitution = map<Name, Term>

  /** The source's `equalTo`: a variable equals a variable of the same name; a
      function term equals a function term with the same symbol, the same number
      of arguments and pairwise equal arguments. */
  predicate TermEqual(a: Term, b: Term)
  {
    match a
    case Var(x) => b.Var? && b.name == x
    case Fn(f, args) =>
      && b.Fn? && f == b.symbol && |args| == |b.args|
      && forall i :: 0 <= i < |args| ==> TermEqual(args[i], b.args[i])
  }

  /** The variables occurring in a term (`getVariables`). */
  function Vars(t: Term): set<Name>
  {
    match t
    case Var(x) => {x}
    case Fn(_, args) => TermsVars(args)
  }

  /** The union of the variables of a list of terms. */
  function TermsVars(ts: seq<Term>): (r: set<Name>)
    ensures forall i :: 0 <= i < |ts| ==> Vars(ts[i]) <= r
    ensures forall x :: x in r ==> exists i :: 0 <= i < |ts| && x in Vars(ts[i])
  {
    set i, x | 0 <= i < |ts| && x in Vars(ts[i]) :: x
  }

  /** A single term contributes exactly its own variables. */
  lemma TermsVarsSingle(t: Term)
    ensures TermsVars([t]) == Vars(t)
  {
    var ts := [t];
    assert ts[0] == t;
    forall x | x in TermsVars(ts) ensures x in Vars(t) {
      var i :| 0 <= i < |ts| && x in Vars(ts[i]);
    }
  }

  /** Two terms contribute exactly their own variables. */
  lemma TermsVarsPair(a: Term, b: Term)
    ensures TermsVars([a, b]) == Vars(a) + Vars(b)
  {
    var ts := [a, b];
    assert ts[0] == a && ts[1] == b;
    forall x | x in TermsVars(ts) ensures x in Vars(a) + Vars(b) {
      var i :| 0 <= i < |ts| && x in Vars(ts[i]);
    }
  }

  /** The source's `hasVariable`: an argument-by-argument search. */
  predicate HasVar(t: Term, v: Name)
  {
    match t
    case Var(x) => v == x
    case Fn(_, args) => exists i :: 0 <= i < |args| && HasVar(args[i], v)
  }

  /** Replaces every occurrence of `v` by `s` (`substitute(v, t)`). */
  function Subst(t: Term, v: Name, s: Term): (r: Term)
    ensures v !in Vars(t) ==> r == t
  {
    match t
    case Var(x) => if v == x then s else t
    case Fn(f, args) =>
      var args' := SubstTerms(args, v, s);
      assert v !in Vars(t) ==> args' == args by {
        if v !in Vars(t) {
          forall i | 0 <= i < |args| ensures args'[i] == args[i] {
            assert v !in Vars(args[i]);
          }
        }
      }
      Fn(f, args')
  }

  function SubstTerms(ts: seq<Term>, v: Name, s: Term): (r: seq<Term>)
    ensures |r| == |ts|
  {
    seq(|ts|, i requires 0 <= i < |ts| => Subst(ts[i], v, s))
  }

  /** Simultaneous application of a map (`substitute(s)`): a variable that is a
      key is replaced by its image, which is not substituted again. */
  function Apply(s: Substitution, t: Term): (r: Term)
    ensures (forall x :: x in Vars(t) ==> x !in s) ==> r == t
  {
    match t
    case Var(x) => if x in s then s[x] else t
    case Fn(f, args) =>
      var args' := ApplyTerms(s, args);
      assert (forall x :: x in Vars(t) ==> x !in s) ==> args' == args by {
        if forall x :: x in Vars(t) ==> x !in s {
          forall i | 0 <= i < |args| ensures args'[i] == args[i] {
            assert forall x :: x in Vars(args[i]) ==> x in Vars(t);
          }
        }
      }
      Fn(f, args')
  }

  function ApplyTerms(s: Substitution, ts: seq<Term>): (r: seq<Term>)
    ensures |r| == |ts|
  {
    seq(|ts|, i requires 0 <= i < |ts| => Apply(s, ts[i]))
  }

  /** The variables a variable turns into under a map. */
  function VarsUnder(s: Substitution, x: Name): set<Name>
  {
    if x in s then Vars(s[x]) else {x}
  }

  /** The variables that a set of variables turns into under a map. */
  function Image(vs: set<Name>, s: Substitution): set<Name>
  {
    set x, y | x in vs && y in VarsUnder(s, x) :: y
  }

  /** Number of symbol and variable occurrences. */
  function Size(t: Term): (n: nat)
    ensures n >= 1
  {
    match t
    case Var(_) => 1
    case Fn(_, args) => 1 + SizeSum(args)
  }

  function SizeSum(ts: seq<Term>): nat
  {
    if ts == [] then 0 else Size(ts[0]) + SizeSum(ts[1..])
  }

  /** `a1, a2, ...`: the pieces separated by ", " (the printers' loop). */
  function JoinComma(ps: seq<string>): string
  {
    if |ps| == 0 then ""
    else if |ps| == 1 then ps[0]
    else ps[0] + ", " + JoinComma(ps[1..])
  }

  /** Bare symbol with no arguments, else `sym(a1, a2, ...)`. */
  function Print(t: Term): string
  {
    match t
    case Var(x) => x
    case Fn(f, args) => if args == [] then f else f + "(" + JoinComma(PrintTerms(args)) + ")"
  }

  function PrintTerms(ts: seq<Term>): (r: seq<string>)
    ensures |r| == |ts|
  {
    seq(|ts|, i requires 0 <= i < |ts| => Print(ts[i]))
  }

  // ---------------------------------------------------------------------
  // Lemmas
  // ---------------------------------------------------------------------

  /** The source's `equalTo` on terms is exactly structural equality. */
  lemma {:induction false} TermEqualIsEquality(a: Term, b: Term)
    ensures TermEqual(a, b) <==> a == b
  {
    match a
    case Var(x) =>
    case Fn(f, args) =>
      if b.Fn? && f == b.symbol && |args| == |b.args| {
        forall i | 0 <= i < |args| ensures TermEqual(args[i], b.args[i]) <==> args[i] == b.args[i] {
          TermEqualIsEquality(args[i], b.args[i]);
        }
        if forall i :: 0 <= i < |args| ==> TermEqual(args[i], b.args[i]) {
          assert args == b.args;
        }
      }
  }

  /** `hasVariable(v)` holds exactly when `v` is among the term's variables. */
  lemma {:induction false} HasVarIsMembership(t: Term, v: Name)
    ensures HasVar(t, v) <==> v in Vars(t)
  {
    match t
    case Var(x) =>
    case Fn(f, args) =>
      forall i | 0 <= i < |args| ensures HasVar(args[i], v) <==> v in Vars(args[i]) {
        HasVarIsMembership(args[i], v);
      }
  }

  /** Substituting `s` for `v` removes `v` and brings in the variables of `s`,
      exactly when `v` occurs. */
  lemma {:induction false} SubstVars(t: Term, v: Name, s: Term)
    ensures Vars(Subst(t, v, s)) == if v in Vars(t) then (Vars(t) - {v}) + Vars(s) else Vars(t)
  {
    match t
    case Var(x) =>
    case Fn(f, args) =>
      var args' := SubstTerms(args, v, s);
      forall i | 0 <= i < |args|
        ensures Vars(args'[i]) == if v in Vars(args[i]) then (Vars(args[i]) - {v}) + Vars(s) else Vars(args[i])
      {
        SubstVars(args[i], v, s);
      }
      if v in Vars(t) {
        var k :| 0 <= k < |args| && v in Vars(args[k]);
        assert Vars(s) <= Vars(args'[k]);
      }
  }

  /** Applying a map sends the variables of a term to their images. */
  lemma {:induction false} ApplyVars(s: Substitution, t: Term)
    ensures Vars(Apply(s, t)) == Image(Vars(t), s)
  {
    match t
    case Var(x) =>
      assert Vars(Apply(s, t)) == VarsUnder(s, x);
    case Fn(f, args) =>
      var args' := ApplyTerms(s, args);
      forall i | 0 <= i < |args| ensures Vars(args'[i]) == Image(Vars(args[i]), s) {
        ApplyVars(s, args[i]);
      }
      forall y | y in Image(Vars(t), s) ensures y in Vars(Apply(s, t)) {
        var x :| x in Vars(t) && y in VarsUnder(s, x);
        var k :| 0 <= k < |args| && x in Vars(args[k]);
        assert y in Image(Vars(args[k]), s);
      }
  }

  /** If `s` already identifies `x` with `u`, replacing `x` by `u` first is invisible to `s`. */
  lemma {:induction false} ApplyAfterSubst(s: Substitution, t: Term, x: Name, u: Term)
    requires Apply(s, Var(x)) == Apply(s, u)
    ensures Apply(s, Subst(t, x, u)) == Apply(s, t)
  {
    match t
    case Var(y) =>
    case Fn(f, args) =>
      forall i | 0 <= i < |args| ensures Apply(s, Subst(args[i], x, u)) == Apply(s, args[i]) {
        ApplyAfterSubst(s, args[i], x, u);
      }
      assert ApplyTerms(s, SubstTerms(args, x, u)) == ApplyTerms(s, args);
  }

  lemma {:induction false} SizeSumBound(ts: seq<Term>, i: nat)
    requires i < |ts|
    ensures Size(ts[i]) <= SizeSum(ts)
  {
    if i > 0 {
      SizeSumBound(ts[1..], i - 1);
    }
  }

  /** A variable's image is no larger than the image of any term it occurs in,
      and strictly smaller when that term is not the variable itself. */
  lemma {:induction false} ApplyGrows(s: Substitution, t: Term, x: Name)
    requires x in Vars(t)
    ensures Size(Apply(s, t)) >= Size(Apply(s, Var(x)))
    ensures t != Var(x) ==> Size(Apply(s, t)) > Size(Apply(s, Var(x)))
  {
    match t
    case Var(y) =>
    case Fn(f, args) =>
      var k :| 0 <= k < |args| && x in Vars(args[k]);
      ApplyGrows(s, args[k], x);
      SizeSumBound(ApplyTerms(s, args), k);
  }

  /** Renaming `x` to a variable `y` that does not occur, and back, gives
      the term back. */
  lemma {:induction false} SubstBack(t: Term, x: Name, y: Name)
    requires y !in Vars(t)
    ensures Subst(Subst(t, x, Var(y)), y, Var(x)) == t
  {
    match t
    case Var(z) =>
    case Fn(f, args) =>
      var back := SubstTerms(SubstTerms(args, x, Var(y)), y, Var(x));
      forall i | 0 <= i < |args| ensures back[i] == args[i] {
        SubstBack(args[i], x, y);
      }
      assert back == args;
  }

  /** A variable can never be unified with a different term that contains it. */
  lemma OccursCheck(s: Substitution, t: Term, x: Name)
    requires x in Vars(t) && t != Var(x)
    ensures Apply(s, Var(x)) != Apply(s, t)
  {
    ApplyGrows(s, t, x);
  }

  /** If applying `m` then `s` agrees with `s` on every variable of `t`, it
      agrees on `t`. */
  lemma {:induction false} ApplyComposeAgree(s: Substitution, m: Substitution, t: Term)
    requires forall y :: y in Vars(t) ==> Apply(s, Apply(m, Var(y))) == Apply(s, Var(y))
    ensures Apply(s, Apply(m, t)) == Apply(s, t)
  {
    match t
    case Var(_) =>
    case Fn(f, args) =>
      forall i | 0 <= i < |args| ensures Apply(s, Apply(m, args[i])) == Apply(s, args[i]) {
        ApplyComposeAgree(s, m, args[i]);
      }
      assert ApplyTerms(s, ApplyTerms(m, args)) == ApplyTerms(s, args);
  }
}
