/** Formulas of first-order logic over `Terms` (base_formula.cpp,
    atomic_formula.cpp, constants.cpp, atom.cpp, unary_connective.cpp,
    not.cpp, binary_connective.cpp, and/or/imp/iff.cpp, quantifier.cpp,
    forall.cpp, exists.cpp). The source's class hierarchy becomes one closed
    datatype: the four binary connectives share `Binary`, the two quantifiers
    share `Quantified`, exactly as they share `BinaryConnective` and
    `Quantifier` in the source. */
module Formulas {
  import opened Names
  import opened Terms

  datatype Connective = And | Or | Imp | Iff
  datatype Quantifier = Forall | Exists

  datatype Formula =
    | True
    | False
    | Atom(symbol: Name, terms: seq<Term>)
    | Not(operand: Formula)
    | Binary(conn: Connective, left: Formula, right: Formula)
    | Quantified(quant: Quantifier, variable: Name, body: Formula)

  /** Number of connective and quantifier nodes; 0 for atomic formulas. */
  function Complexity(f: Formula): nat
  {
    match f
    case True => 0
    case False => 0
    case Atom(_, _) => 0
    case Not(g) => 1 + Complexity(g)
    case Binary(_, a, b) => 1 + Complexity(a) + Complexity(b)
    case Quantified(_, _, body) => 1 + Complexity(body)
  }

  /** The source's `getVars(vars, free)`. With `free` set, a quantifier removes
      only its own bound variable from ALL the variables of its body: the body is
      queried without the flag, so variables bound further inside are still
      reported. A binder that does not occur in its body is not reported. */
  function Vars(f: Formula, free: bool): set<Name>
  {
    match f
    case True => {}
    case False => {}
    case Atom(_, ts) => TermsVars(ts)
    case Not(g) => Vars(g, free)
    case Binary(_, a, b) => Vars(a, free) + Vars(b, free)
    case Quantified(_, x, body) => if free then Vars(body, false) - {x} else Vars(body, false)
  }

  /** All variables occurring in a formula (`getVars` without the flag). */
  function AllVars(f: Formula): set<Name>
  {
    Vars(f, false)
  }

  /** The source's `hasVariable(v, free)`: membership in `getVars(free)`. */
  predicate HasVariable(f: Formula, v: Name, free: bool)
  {
    v in Vars(f, free)
  }

  /** The free variables in the logical sense: occurrences not under a
      quantifier binding them. A reference definition for the source's flag. */
  function FreeVars(f: Formula): set<Name>
  {
    match f
    case True => {}
    case False => {}
    case Atom(_, ts) => TermsVars(ts)
    case Not(g) => FreeVars(g)
    case Binary(_, a, b) => FreeVars(a) + FreeVars(b)
    case Quantified(_, x, body) => FreeVars(body) - {x}
  }

  /** The names bound by some quantifier of the formula. */
  function Binders(f: Formula): set<Name>
  {
    match f
    case True => {}
    case False => {}
    case Atom(_, _) => {}
    case Not(g) => Binders(g)
    case Binary(_, a, b) => Binders(a) + Binders(b)
    case Quantified(_, x, body) => {x} + Binders(body)
  }

  predicate QuantifierFree(f: Formula)
  {
    Binders(f) == {}
  }

  /** A literal: an atom or the negation of an atom. */
  predicate IsLiteral(f: Formula)
  {
    f.Atom? || (f.Not? && f.operand.Atom?)
  }

  /** The source's `equalTo`. The base case compares only the dynamic type
      (which is how `True` equals `True` and differs from `False`); atoms
      compare symbol, arity and terms; connectives and quantifiers first compare
      the type, then the bound variable and the operands. */
  predicate FormulaEqual(a: Formula, b: Formula)
  {
    match a
    case True => b.True?
    case False => b.False?
    case Atom(p, ts) =>
      && b.Atom? && p == b.symbol && |ts| == |b.terms|
      && forall i :: 0 <= i < |ts| ==> TermEqual(ts[i], b.terms[i])
    case Not(g) => b.Not? && FormulaEqual(g, b.operand)
    case Binary(c, l, r) => b.Binary? && c == b.conn && FormulaEqual(l, b.left) && FormulaEqual(r, b.right)
    case Quantified(q, x, body) => b.Quantified? && q == b.quant && x == b.variable && FormulaEqual(body, b.body)
  }

  function ConnectiveSymbol(c: Connective): string
  {
    match c
    case And => "/\\"
    case Or => "\\/"
    case Imp => "=>"
    case Iff => "<=>"
  }

  function QuantifierSymbol(q: Quantifier): string
  {
    match q
    case Forall => "V"
    case Exists => "E"
  }

  /** The source's `print`: `T`, `F`, `p` or `p(t1, t2)`, `~(F)`, `(A op B)`, `(V.x)(F)`. */
  function Print(f: Formula): string
  {
    match f
    case True => "T"
    case False => "F"
    case Atom(p, ts) => if ts == [] then p else p + "(" + JoinComma(PrintTerms(ts)) + ")"
    case Not(g) => "~(" + Print(g) + ")"
    case Binary(c, a, b) => "(" + Print(a) + " " + ConnectiveSymbol(c) + " " + Print(b) + ")"
    case Quantified(q, x, body) => "(" + QuantifierSymbol(q) + "." + x + ")(" + Print(body) + ")"
  }

  /** `getText`: the printed formula between `>>> ` and ` <<<`. */
  function GetText(f: Formula): (r: string)
    ensures |r| == |Print(f)| + 8
    ensures r[..4] == ">>> " && r[|r| - 4..] == " <<<"
    ensures r[4..|r| - 4] == Print(f)
  {
    ">>> " + Print(f) + " <<<"
  }

  // ---------------------------------------------------------------------
  // Lemmas
  // ---------------------------------------------------------------------

  /** The source's `equalTo` on formulas is exactly structural equality: there
      is no alpha-equivalence, and formulas of different kinds never compare equal. */
  lemma {:induction false} FormulaEqualIsEquality(a: Formula, b: Formula)
    ensures FormulaEqual(a, b) <==> a == b
  {
    match a
    case True =>
    case False =>
    case Atom(p, ts) =>
      if b.Atom? && p == b.symbol && |ts| == |b.terms| {
        forall i | 0 <= i < |ts| ensures TermEqual(ts[i], b.terms[i]) <==> ts[i] == b.terms[i] {
          TermEqualIsEquality(ts[i], b.terms[i]);
        }
        if forall i :: 0 <= i < |ts| ==> TermEqual(ts[i], b.terms[i]) {
          assert ts == b.terms;
        }
      }
    case Not(g) =>
      if b.Not? { FormulaEqualIsEquality(g, b.operand); }
    case Binary(c, l, r) =>
      if b.Binary? {
        FormulaEqualIsEquality(l, b.left);
        FormulaEqualIsEquality(r, b.right);
      }
    case Quantified(q, x, body) =>
      if b.Quantified? { FormulaEqualIsEquality(body, b.body); }
  }

  /** True free variables are among those the source reports with the flag set,
      and those are among all variables. */
  lemma {:induction false} FreeVarsWithinFlagged(f: Formula)
    ensures FreeVars(f) <= Vars(f, true) <= AllVars(f)
  {
    match f
    case True =>
    case False =>
    case Atom(_, _) =>
    case Not(g) => FreeVarsWithinFlagged(g);
    case Binary(_, a, b) =>
      FreeVarsWithinFlagged(a);
      FreeVarsWithinFlagged(b);
    case Quantified(_, x, body) => FreeVarsWithinFlagged(body);
  }

  /** Without quantifiers, the source's free-variable query is exact. */
  lemma {:induction false} QuantifierFreeVars(f: Formula)
    requires QuantifierFree(f)
    ensures FreeVars(f) == Vars(f, true) == AllVars(f)
  {
    match f
    case True =>
    case False =>
    case Atom(_, _) =>
    case Not(g) => QuantifierFreeVars(g);
    case Binary(_, a, b) =>
      QuantifierFreeVars(a);
      QuantifierFreeVars(b);
  }

  /** The flag strips only the outermost binder: in (V.x)((V.y)(p(x, y))) the
      source reports `y` as free although no variable is free. */
  lemma NestedBinderReportedFree()
    ensures var f := Quantified(Forall, "x", Quantified(Forall, "y", Atom("p", [Var("x"), Var("y")])));
      Vars(f, true) == {"y"} && FreeVars(f) == {}
  {
    var ts := [Var("x"), Var("y")];
    assert TermsVars(ts) == {"x", "y"} by {
      assert Terms.Vars(ts[0]) == {"x"} && Terms.Vars(ts[1]) == {"y"};
    }
  }

  /** Atomic formulas have no connectives, so complexity 0, and `True`, `False`
      are told apart by `equalTo` while each equals itself. */
  lemma ConstantsBehaviour()
    ensures Complexity(True) == 0 && Complexity(False) == 0
    ensures FormulaEqual(True, True) && FormulaEqual(False, False)
    ensures !FormulaEqual(True, False) && !FormulaEqual(False, True)
    ensures AllVars(True) == {} && AllVars(False) == {}
    ensures Print(True) == "T" && Print(False) == "F"
  {
  }
}
