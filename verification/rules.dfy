/** The sixteen natural-deduction rules (rules.h, rules.cpp). Each rule
    takes a fixed number of input nodes, premises and formula arguments,
    checks its side conditions against the tree, and either produces a new
    formula together with the premise nodes it eliminates, or an error. Only
    a successful application touches the tree: it eliminates those premise
    nodes and resolves its input nodes. */
module Rules {
  import opened Wrappers
  import opened Names
  import opened Terms
  import opened Formulas
  import opened Revisions
  import opened Substitutions
  import opened ProofTree

  datatype Rule =
    | NotIntro | NotElim
    | AndIntro | AndElimLeft | AndElimRight
    | OrIntroLeft | OrIntroRight | OrElim
    | ImpIntro | ImpElim
    | ContradictionElim | TrueIntro
    | ForallIntro | ForallElim | ExistsIntro | ExistsElim

  /** The first template argument of the rule's class: input nodes. */
  function NodeCount(r: Rule): nat
  {
    match r
    case NotIntro => 1
    case NotElim => 2
    case AndIntro => 2
    case AndElimLeft => 1
    case AndElimRight => 1
    case OrIntroLeft => 1
    case OrIntroRight => 1
    case OrElim => 3
    case ImpIntro => 1
    case ImpElim => 2
    case ContradictionElim => 1
    case TrueIntro => 0
    case ForallIntro => 1
    case ForallElim => 1
    case ExistsIntro => 1
    case ExistsElim => 2
  }

  /** The second template argument: premises. */
  function PremiseCount(r: Rule): nat
  {
    match r
    case NotIntro => 1
    case OrElim => 2
    case ImpIntro => 1
    case ExistsElim => 1
    case _ => 0
  }

  /** The third template argument: formula (variable) arguments. */
  function FormulaCount(r: Rule): nat
  {
    match r
    case OrIntroLeft => 1
    case OrIntroRight => 1
    case ContradictionElim => 1
    case ForallIntro => 2
    case ForallElim => 1
    case ExistsIntro => 2
    case ExistsElim => 1
    case _ => 0
  }

  /** `PremiseBase`: the premise's ID, its formula and its instance nodes. */
  datatype Premise = Premise(id: ID, formula: Formula, instances: seq<ID>)

  /** The tuples a rule is constructed with. */
  datatype Args = Args(nodes: seq<ID>, premises: seq<Premise>, formulas: seq<Formula>)

  /** What the tuple types guarantee: the right number of each argument,
      and input nodes that are nodes of the tree. */
  predicate WellFormed(t: Tree, rule: Rule, args: Args)
  {
    && |args.nodes| == NodeCount(rule)
    && |args.premises| == PremiseCount(rule)
    && |args.formulas| == FormulaCount(rule)
    && forall k :: 0 <= k < |args.nodes| ==> args.nodes[k] in t.nodes
  }

  /** The reasons a rule refuses, one per check in the source. */
  datatype Error =
    | NotFalse            // Not-Intro: the node is not `F`
    | NoAlivePremise      // Not-Intro, Imp-Intro: no alive instance above the node
    | NotNegation         // Not-Elim: the second formula is not the negation of the first
    | NotConjunction      // And-Elim
    | NotDisjunction      // Or-Elim
    | LeftPremiseMismatch
    | RightPremiseMismatch
    | ConclusionsDiffer   // Or-Elim: the two deductions reach different formulas
    | PremiseNotAncestor  // Or-Elim: a premise has no alive instance above its deduction
    | NotImplication
    | ImplierMismatch
    | NotContradiction    // Contradiction-Elim: the node is not `F`
    | BadVariable(given: Formula)
    | VariableNotFree     // the variable to abstract is not free in the node
    | VariableFree        // Forall-Intro: the new variable is already free
    | VariableOccurs      // Exists-Intro: the new variable occurs in the node
    | FreeInPremise       // the variable occurs in an alive premise
    | NotForall
    | BoundVariable       // Forall-Elim: the variable is bound, and not free, in the body
    | NotExists
    | InstanceMismatch    // Exists-Elim: the premise is not the instance of the body
    | FreeInConclusion
    | NoInstances         // Exists-Elim: no alive instance of the premise

  /** A produced formula and the premise nodes eliminated for it, or why not. */
  datatype Outcome = Derived(formula: Formula, eliminated: set<ID>) | Rejected(error: Error)

  /** `CanConvertFormulaToVariable`: an atom whose terms hold no variable
      stands for the variable named by its symbol. */
  function AsVariable(f: Formula): (r: Result<Name, Error>)
    ensures r.Success? <==> f.Atom? && TermsVars(f.terms) == {}
    ensures r.Success? ==> r.value == f.symbol
    ensures r.Failure? ==> r.error == BadVariable(f)
  {
    if f.Atom? && TermsVars(f.terms) == {} then Success(f.symbol) else Failure(BadVariable(f))
  }

  /** The set of the listed nodes. */
  function Elements(ids: seq<ID>): set<ID>
  {
    set a | a in ids
  }

  // ---------------------------------------------------------------------
  // The rule bodies (`ApplyInternal`)
  // ---------------------------------------------------------------------

  /** From `F` under an alive instance of premise `P`, derive `not P`,
      discharging every alive instance of `P` above the node. */
  function NotIntroduction(t: Tree, node: ID, p: Premise): (r: Outcome)
    requires Valid(t) && node in t.nodes
    ensures r.Derived? <==> t.nodes[node].formula.False? && Discharged(t, node, p.id) != {}
    ensures r.Derived? ==> r.formula == Not(p.formula) && r.eliminated == Discharged(t, node, p.id)
  {
    if !t.nodes[node].formula.False? then Rejected(NotFalse)
    else
      var found := AlivePremiseAncestors(t, node, p.id);
      AncestorsDischarged(t, node, p.id);
      if found == [] then Rejected(NoAlivePremise)
      else
        assert found[0] in Discharged(t, node, p.id);
        Derived(Not(p.formula), Elements(found))
  }

  /** From `A` and `not A`, derive `F`. */
  function NotElimination(a: Formula, b: Formula): (r: Outcome)
    ensures r.Derived? <==> b == Not(a)
    ensures r.Derived? ==> r.formula == False && r.eliminated == {}
    ensures r.Rejected? ==> r.error == NotNegation
  {
    if Not(a) == b then Derived(False, {}) else Rejected(NotNegation)
  }

  /** From `A and B`, derive `A` (`left`) or `B`. */
  function AndElimination(f: Formula, left: bool): (r: Outcome)
    ensures r.Derived? <==> f.Binary? && f.conn == And
    ensures r.Derived? ==>
      r.eliminated == {} && Binary(And, if left then r.formula else f.left, if left then f.right else r.formula) == f
    ensures r.Rejected? ==> r.error == NotConjunction
  {
    if f.Binary? && f.conn == And then Derived(if left then f.left else f.right, {})
    else Rejected(NotConjunction)
  }

  /** From `A or B`, a deduction of `C` under `A` and one of `C` under `B`,
      derive `C`, discharging the alive instances of `A` and of `B` above
      the respective deductions. */
  function OrElimination(t: Tree, d: ID, l: ID, r: ID, pl: Premise, pr: Premise): (o: Outcome)
    requires Valid(t) && d in t.nodes && l in t.nodes && r in t.nodes
    ensures o.Derived? <==>
      && t.nodes[d].formula == Binary(Or, pl.formula, pr.formula)
      && t.nodes[l].formula == t.nodes[r].formula
      && Discharged(t, l, pl.id) != {} && Discharged(t, r, pr.id) != {}
    ensures o.Derived? ==>
      o.formula == t.nodes[l].formula && o.eliminated == Discharged(t, l, pl.id) + Discharged(t, r, pr.id)
  {
    var f := t.nodes[d].formula;
    if !(f.Binary? && f.conn == Or) then Rejected(NotDisjunction)
    else if f.left != pl.formula then Rejected(LeftPremiseMismatch)
    else if f.right != pr.formula then Rejected(RightPremiseMismatch)
    else if t.nodes[l].formula != t.nodes[r].formula then Rejected(ConclusionsDiffer)
    else
      var lhs := AlivePremiseAncestors(t, l, pl.id);
      var rhs := AlivePremiseAncestors(t, r, pr.id);
      AncestorsDischarged(t, l, pl.id);
      AncestorsDischarged(t, r, pr.id);
      if lhs == [] || rhs == [] then Rejected(PremiseNotAncestor)
      else
        assert lhs[0] in Discharged(t, l, pl.id) && rhs[0] in Discharged(t, r, pr.id);
        Derived(t.nodes[l].formula, Elements(lhs) + Elements(rhs))
  }

  /** From `B` under an alive instance of premise `A`, derive `A imp B`. */
  function ImpIntroduction(t: Tree, node: ID, p: Premise): (r: Outcome)
    requires Valid(t) && node in t.nodes
    ensures r.Derived? <==> Discharged(t, node, p.id) != {}
    ensures r.Derived? ==>
      r.formula == Binary(Imp, p.formula, t.nodes[node].formula) && r.eliminated == Discharged(t, node, p.id)
  {
    var found := AlivePremiseAncestors(t, node, p.id);
    AncestorsDischarged(t, node, p.id);
    if found == [] then Rejected(NoAlivePremise)
    else
      assert found[0] in Discharged(t, node, p.id);
      Derived(Binary(Imp, p.formula, t.nodes[node].formula), Elements(found))
  }

  /** From `A` and `A imp B`, derive `B`. */
  function ImpElimination(a: Formula, imp: Formula): (r: Outcome)
    ensures r.Derived? <==> imp.Binary? && imp == Binary(Imp, a, imp.right)
    ensures r.Derived? ==> Binary(Imp, a, r.formula) == imp && r.eliminated == {}
    ensures r.Rejected? ==> r.error == (if imp.Binary? && imp.conn == Imp then ImplierMismatch else NotImplication)
  {
    if !(imp.Binary? && imp.conn == Imp) then Rejected(NotImplication)
    else if imp.left != a then Rejected(ImplierMismatch)
    else Derived(imp.right, {})
  }

  /** From `F`, derive any formula. */
  function ContradictionElimination(f: Formula, g: Formula): (r: Outcome)
    ensures r.Derived? <==> f == False
    ensures r.Derived? ==> r.formula == g && r.eliminated == {}
    ensures r.Rejected? ==> r.error == NotContradiction
  {
    if f.False? then Derived(g, {}) else Rejected(NotContradiction)
  }

  /** Some alive premise node has `x` among its variables, free ones only
      when `free` holds. */
  predicate OccursInAlivePremise(t: Tree, x: Name, free: bool)
  {
    exists a :: a in t.nodes && AliveInstance(t, a) && HasVariable(t.nodes[a].formula, x, free)
  }

  /** From `A` with `x` free in it and free in no alive premise, derive
      `forall y. A[x := y]`, provided `y` is not free in `A`. */
  function ForallIntroduction(t: Tree, node: ID, fx: Formula, fy: Formula, c: nat): (r: (Outcome, nat))
    requires node in t.nodes
    ensures r.0.Derived? <==>
      && AsVariable(fx).Success? && AsVariable(fy).Success?
      && HasVariable(t.nodes[node].formula, fx.symbol, true)
      && !HasVariable(t.nodes[node].formula, fy.symbol, true)
      && !OccursInAlivePremise(t, fx.symbol, true)
    ensures r.0.Derived? ==>
      && r.0.eliminated == {}
      && r.0.formula.Quantified? && r.0.formula.quant == Forall && r.0.formula.variable == fy.symbol
      && (r.0.formula.body, r.1) == Substitute(Corrected, t.nodes[node].formula, fx.symbol, Var(fy.symbol), c)
    ensures r.0.Rejected? ==> r.1 == c
  {
    var f := t.nodes[node].formula;
    match (AsVariable(fx), AsVariable(fy))
    case (Failure(e), _) => (Rejected(e), c)
    case (_, Failure(e)) => (Rejected(e), c)
    case (Success(x), Success(y)) =>
      if !HasVariable(f, x, true) then (Rejected(VariableNotFree), c)
      else if HasVariable(f, y, true) then (Rejected(VariableFree), c)
      else if OccursInAlivePremise(t, x, true) then (Rejected(FreeInPremise), c)
      else
        var (g, c1) := Substitute(Corrected, f, x, Var(y), c);
        (Derived(Quantified(Forall, y, g), {}), c1)
  }

  /** From `forall v. A`, derive `A[v := w]` for a variable `w` that is not
      bound-only in `A`. */
  function ForallElimination(f: Formula, fw: Formula, c: nat): (r: (Outcome, nat))
    ensures r.0.Derived? <==>
      && f.Quantified? && f.quant == Forall && AsVariable(fw).Success?
      && (HasVariable(f.body, fw.symbol, false) ==> HasVariable(f.body, fw.symbol, true))
    ensures r.0.Derived? ==> r.0.eliminated == {} && Complexity(r.0.formula) + 1 == Complexity(f)
    ensures r.0.Derived? ==> (r.0.formula, r.1) == Substitute(Corrected, f.body, f.variable, Var(fw.symbol), c)
    ensures r.0.Rejected? ==> r.1 == c
  {
    if !(f.Quantified? && f.quant == Forall) then (Rejected(NotForall), c)
    else match AsVariable(fw)
      case Failure(e) => (Rejected(e), c)
      case Success(w) =>
        if HasVariable(f.body, w, false) && !HasVariable(f.body, w, true) then (Rejected(BoundVariable), c)
        else
          var (g, c1) := Substitute(Corrected, f.body, f.variable, Var(w), c);
          (Derived(g, {}), c1)
  }

  /** From `A` with `x` free in it, derive `exists y. A[x := y]`, provided
      `y` does not occur in `A` at all. */
  function ExistsIntroduction(f: Formula, fx: Formula, fy: Formula, c: nat): (r: (Outcome, nat))
    ensures r.0.Derived? <==>
      && AsVariable(fx).Success? && AsVariable(fy).Success?
      && HasVariable(f, fx.symbol, true) && !HasVariable(f, fy.symbol, false)
    ensures r.0.Derived? ==>
      && r.0.eliminated == {}
      && r.0.formula.Quantified? && r.0.formula.quant == Exists && r.0.formula.variable == fy.symbol
      && Complexity(r.0.formula) == Complexity(f) + 1
      && (r.0.formula.body, r.1) == Substitute(Corrected, f, fx.symbol, Var(fy.symbol), c)
    ensures r.0.Rejected? ==> r.1 == c
  {
    match (AsVariable(fx), AsVariable(fy))
    case (Failure(e), _) => (Rejected(e), c)
    case (_, Failure(e)) => (Rejected(e), c)
    case (Success(x), Success(y)) =>
      if !HasVariable(f, x, true) then (Rejected(VariableNotFree), c)
      else if HasVariable(f, y, false) then (Rejected(VariableOccurs), c)
      else
        var (g, c1) := Substitute(Corrected, f, x, Var(y), c);
        (Derived(Quantified(Exists, y, g), {}), c1)
  }

  /** The alive premise nodes that are instances of `p`, anywhere in the tree. */
  function AliveInstancesOf(t: Tree, p: Premise): set<ID>
  {
    set a | a in t.nodes && AliveInstance(t, a) && a in p.instances
  }

  /** Some alive premise node that is not an instance of `p` mentions `w`,
      free or bound. */
  predicate OccursInOtherPremise(t: Tree, p: Premise, w: Name)
  {
    exists a :: a in t.nodes && AliveInstance(t, a) && a !in p.instances && w in AllVars(t.nodes[a].formula)
  }

  /** The premise nodes Exists-Elim discharges. As written, every alive
      instance of the premise anywhere in the tree; corrected, only those
      above the conclusion, as for the other discharging rules. */
  function ExistsDischarged(rev: Revision, t: Tree, concl: ID, p: Premise): (r: set<ID>)
    requires Valid(t) && concl in t.nodes
    ensures rev == Corrected ==> r == Discharged(t, concl, p.id)
    ensures rev == AsWritten ==> r == AliveInstancesOf(t, p)
  {
    if rev == AsWritten then AliveInstancesOf(t, p)
    else
      AncestorsDischarged(t, concl, p.id);
      Elements(AlivePremiseAncestors(t, concl, p.id))
  }

  /** From `exists v. A`, a premise `A[v := w]` and a conclusion `C` in
      which `w` is not free, derive `C`, discharging the alive instances of
      the premise (see `ExistsDischarged`), provided `w` occurs in no alive
      node of another premise. The instance is computed (advancing the
      renaming counter) before any of the later checks. */
  function ExistsElimination(rev: Revision, t: Tree, e: ID, concl: ID, p: Premise, fw: Formula, c: nat): (r: (Outcome, nat))
    requires Valid(t) && e in t.nodes && concl in t.nodes
    ensures r.0.Derived? <==>
      && t.nodes[e].formula.Quantified? && t.nodes[e].formula.quant == Exists
      && AsVariable(fw).Success?
      && Substitute(Corrected, t.nodes[e].formula.body, t.nodes[e].formula.variable, Var(fw.symbol), c).0 == p.formula
      && !HasVariable(t.nodes[concl].formula, fw.symbol, true)
      && !OccursInOtherPremise(t, p, fw.symbol)
      && ExistsDischarged(rev, t, concl, p) != {}
    ensures r.0.Derived? ==>
      r.0.formula == t.nodes[concl].formula && r.0.eliminated == ExistsDischarged(rev, t, concl, p)
    ensures r.1 >= c
  {
    var f := t.nodes[e].formula;
    if !(f.Quantified? && f.quant == Exists) then (Rejected(NotExists), c)
    else match AsVariable(fw)
      case Failure(err) => (Rejected(err), c)
      case Success(w) =>
        var (inst, c1) := Substitute(Corrected, f.body, f.variable, Var(w), c);
        if inst != p.formula then (Rejected(InstanceMismatch), c1)
        else if HasVariable(t.nodes[concl].formula, w, true) then (Rejected(FreeInConclusion), c1)
        else if OccursInOtherPremise(t, p, w) then (Rejected(FreeInPremise), c1)
        else
          var found := ExistsDischarged(rev, t, concl, p);
          if found == {} then (Rejected(NoInstances), c1)
          else (Derived(t.nodes[concl].formula, found), c1)
  }

  /** `ApplyInternal`, dispatched on the rule, with the renaming counter
      threaded through. */
  function ApplyInternal(t: Tree, rule: Rule, args: Args, c: nat): (r: (Outcome, nat))
    requires Valid(t) && WellFormed(t, rule, args)
    ensures r.1 >= c
    ensures r.0.Derived? ==> forall a :: a in r.0.eliminated ==> AliveInstance(t, a)
  {
    var n := args.nodes;
    var ps := args.premises;
    var fs := args.formulas;
    match rule
    case NotIntro => (NotIntroduction(t, n[0], ps[0]), c)
    case NotElim => (NotElimination(t.nodes[n[0]].formula, t.nodes[n[1]].formula), c)
    case AndIntro => (Derived(Binary(And, t.nodes[n[0]].formula, t.nodes[n[1]].formula), {}), c)
    case AndElimLeft => (AndElimination(t.nodes[n[0]].formula, true), c)
    case AndElimRight => (AndElimination(t.nodes[n[0]].formula, false), c)
    case OrIntroLeft => (Derived(Binary(Or, t.nodes[n[0]].formula, fs[0]), {}), c)
    case OrIntroRight => (Derived(Binary(Or, fs[0], t.nodes[n[0]].formula), {}), c)
    case OrElim => (OrElimination(t, n[0], n[1], n[2], ps[0], ps[1]), c)
    case ImpIntro => (ImpIntroduction(t, n[0], ps[0]), c)
    case ImpElim => (ImpElimination(t.nodes[n[0]].formula, t.nodes[n[1]].formula), c)
    case ContradictionElim => (ContradictionElimination(t.nodes[n[0]].formula, fs[0]), c)
    case TrueIntro => (Derived(True, {}), c)
    case ForallIntro => ForallIntroduction(t, n[0], fs[0], fs[1], c)
    case ForallElim => ForallElimination(t.nodes[n[0]].formula, fs[0], c)
    case ExistsIntro => ExistsIntroduction(t.nodes[n[0]].formula, fs[0], fs[1], c)
    case ExistsElim => ExistsElimination(Corrected, t, n[0], n[1], ps[0], fs[0], c)
  }

  /** `Rule::Apply`: on success, the eliminated premise nodes are marked and
      the input nodes resolved; on failure the tree is returned unchanged. */
  function Apply(t: Tree, rule: Rule, args: Args, c: nat): (r: (Tree, Outcome, nat))
    requires Valid(t) && WellFormed(t, rule, args)
    ensures r.1.Rejected? ==> r.0 == t
    ensures Valid(r.0) && r.0.counter == t.counter && r.0.nodes.Keys == t.nodes.Keys
    ensures r.1.Derived? ==> forall k :: 0 <= k < |args.nodes| ==> r.0.nodes[args.nodes[k]].resolved
    ensures Extends(t, r.0)
    ensures r.1.Derived? ==> forall a :: a in r.1.eliminated ==>
      AliveInstance(t, a) && r.0.nodes[a].kind.PremiseNode? && r.0.nodes[a].kind.eliminated
    ensures forall i :: i in t.nodes && i !in args.nodes && (r.1.Derived? ==> i !in r.1.eliminated) ==>
      r.0.nodes[i] == t.nodes[i]
  {
    var (o, c1) := ApplyInternal(t, rule, args, c);
    if o.Rejected? then (t, o, c1)
    else
      MarkNodes(t, o.eliminated, Elements(args.nodes));
      assert forall k :: 0 <= k < |args.nodes| ==> args.nodes[k] in Elements(args.nodes);
      (ResolveNodes(EliminateNodes(t, o.eliminated), Elements(args.nodes)), o, c1)
  }

  // ---------------------------------------------------------------------
  // Lemmas: what the quantifier rules do to free variables
  // ---------------------------------------------------------------------

  /** Generalising over `x` removes `x` from the free variables and changes
      nothing else: the new bound variable was not free before. */
  lemma ForallIntroFreeVars(t: Tree, node: ID, fx: Formula, fy: Formula, c: nat)
    requires node in t.nodes
    ensures var o := ForallIntroduction(t, node, fx, fy, c).0;
      o.Derived? ==> FreeVars(o.formula) == FreeVars(t.nodes[node].formula) - {fx.symbol}
  {
    var f := t.nodes[node].formula;
    if ForallIntroduction(t, node, fx, fy, c).0.Derived? {
      FreeVarsWithinFlagged(f);
      SubstituteFreeVars(f, fx.symbol, Var(fy.symbol), c);
    }
  }

  /** Likewise for the existential introduction. */
  lemma ExistsIntroFreeVars(f: Formula, fx: Formula, fy: Formula, c: nat)
    ensures var o := ExistsIntroduction(f, fx, fy, c).0;
      o.Derived? ==> FreeVars(o.formula) == FreeVars(f) - {fx.symbol}
  {
    if ExistsIntroduction(f, fx, fy, c).0.Derived? {
      FreeVarsWithinFlagged(f);
      SubstituteFreeVars(f, fx.symbol, Var(fy.symbol), c);
    }
  }

  /** Instantiating `forall v. A` with `w` frees `w` exactly when `v` was
      free in `A`, and keeps every other free variable. */
  lemma ForallElimFreeVars(f: Formula, fw: Formula, c: nat)
    ensures var o := ForallElimination(f, fw, c).0;
      o.Derived? ==>
        FreeVars(o.formula) == FreeVars(f) + (if f.variable in FreeVars(f.body) then {fw.symbol} else {})
  {
    if ForallElimination(f, fw, c).0.Derived? {
      SubstituteFreeVars(f.body, f.variable, Var(fw.symbol), c);
    }
  }

  /** On a quantifier-free formula, instantiating the generalisation with
      the variable it abstracted gives the original formula back. */
  lemma ForallRoundTrip(t: Tree, node: ID, fx: Formula, fy: Formula, c: nat)
    requires node in t.nodes && QuantifierFree(t.nodes[node].formula)
    ensures var (o, c1) := ForallIntroduction(t, node, fx, fy, c);
      o.Derived? ==> ForallElimination(o.formula, fx, c1).0 == Derived(t.nodes[node].formula, {})
  {
    var f := t.nodes[node].formula;
    var (o, c1) := ForallIntroduction(t, node, fx, fy, c);
    if o.Derived? {
      var x := fx.symbol;
      var y := fy.symbol;
      var (g, c2) := Substitute(Corrected, f, x, Var(y), c);
      assert o.formula == Quantified(Forall, y, g) && c1 == c2;
      QuantifierFreeVars(f);
      SubstituteQuantifierFree(Corrected, f, x, Var(y), c);
      QuantifierFreeVars(g);
      SubstituteBack(Corrected, f, x, y, c, c1);
    }
  }

  // ---------------------------------------------------------------------
  // Lemmas: introduction followed by elimination
  // ---------------------------------------------------------------------

  /** Negating a premise that led to `F`, then eliminating the negation
      against the premise, gives `F` back. */
  lemma NotRoundTrip(t: Tree, node: ID, p: Premise)
    requires Valid(t) && node in t.nodes
    ensures var o := NotIntroduction(t, node, p);
      o.Derived? ==> NotElimination(p.formula, o.formula) == Derived(t.nodes[node].formula, {})
  {
  }

  /** Both projections of a conjunction give back its two parts. */
  lemma AndRoundTrip(a: Formula, b: Formula)
    ensures AndElimination(Binary(And, a, b), true) == Derived(a, {})
    ensures AndElimination(Binary(And, a, b), false) == Derived(b, {})
  {
  }

  /** The introductions without side conditions never fail and eliminate
      nothing; a conjunction introduced from two nodes is taken apart again
      by the two projections, and a disjunction introduced from a node has
      that node's formula on the chosen side. */
  lemma UnconditionalIntroductions(t: Tree, rule: Rule, args: Args, c: nat)
    requires Valid(t) && WellFormed(t, rule, args)
    requires rule == AndIntro || rule == OrIntroLeft || rule == OrIntroRight || rule == TrueIntro
    ensures var (o, c1) := ApplyInternal(t, rule, args, c);
      && o.Derived? && o.eliminated == {} && c1 == c
      && (rule == AndIntro ==>
            && AndElimination(o.formula, true) == Derived(t.nodes[args.nodes[0]].formula, {})
            && AndElimination(o.formula, false) == Derived(t.nodes[args.nodes[1]].formula, {}))
      && (rule == OrIntroLeft ==> o.formula.Binary? && o.formula.conn == Or && o.formula.left == t.nodes[args.nodes[0]].formula)
      && (rule == OrIntroRight ==> o.formula.Binary? && o.formula.conn == Or && o.formula.right == t.nodes[args.nodes[0]].formula)
      && (rule == TrueIntro ==> o.formula == True)
  {
  }

  /** Modus ponens on a discharged implication, with the premise it
      discharged, gives back the formula the premise led to. */
  lemma ImpRoundTrip(t: Tree, node: ID, p: Premise)
    requires Valid(t) && node in t.nodes
    ensures var o := ImpIntroduction(t, node, p);
      o.Derived? ==> ImpElimination(p.formula, o.formula) == Derived(t.nodes[node].formula, {})
  {
  }

  // ---------------------------------------------------------------------
  // Lemmas: concrete trees
  // ---------------------------------------------------------------------

  /** A variable free in an alive premise cannot be generalised: with the
      premise `p(x)` alive, Forall-Intro over `x` on that very node is
      refused. */
  lemma ForallIntroGuardsPremises()
    ensures var t := AddPremiseNode(EmptyTree, 1, Atom("p", [Var("x")])).0;
      ForallIntroduction(t, 1, Atom("x", []), Atom("y", []), 0).0 == Rejected(FreeInPremise)
  {
    var f := Atom("p", [Var("x")]);
    var t := AddPremiseNode(EmptyTree, 1, f).0;
    assert TermsVars([]) == {};
    TermsVarsSingle(Var("x"));
    assert Formulas.Vars(f, true) == {"x"};
    assert AliveInstance(t, 1);
  }

  /** The tree of the Exists-Elim counterexample: node 1 is the premise
      `exists v. p(v)`, node 2 the premise `p(w)`, both alive; neither is
      above the other. */
  function ExistsElimTree(): (t: Tree)
    ensures Valid(t) && t.nodes.Keys == {1, 2}
    ensures AlivePremise(t, 1, 1) && t.nodes[1].formula == Quantified(Exists, "v", Atom("p", [Var("v")]))
    ensures AlivePremise(t, 2, 2) && t.nodes[2].formula == Atom("p", [Var("w")])
    ensures t.nodes[1].inputs == []
  {
    EmptyTreeValid();
    var t1 := AddPremiseNode(EmptyTree, 1, Quantified(Exists, "v", Atom("p", [Var("v")]))).0;
    AddPremiseNode(t1, 2, Atom("p", [Var("w")])).0
  }

  /** The side conditions of the counterexample hold: `w` instantiates the
      existential to the premise, is not free in the conclusion and occurs
      in no other alive premise; node 2 is the only alive instance. */
  lemma ExistsElimTreeFacts()
    ensures var t := ExistsElimTree();
      var p := Premise(2, Atom("p", [Var("w")]), [2]);
      var e := t.nodes[1].formula;
      && AsVariable(Atom("w", [])) == Success("w")
      && Substitute(Corrected, e.body, "v", Var("w"), 0).0 == p.formula
      && !HasVariable(e, "w", true)
      && !OccursInOtherPremise(t, p, "w")
      && AliveInstancesOf(t, p) == {2}
      && Discharged(t, 1, 2) == {}
  {
    var t := ExistsElimTree();
    var p := Premise(2, Atom("p", [Var("w")]), [2]);
    var e := t.nodes[1].formula;
    assert TermsVars([]) == {};
    TermsVarsSingle(Var("v"));
    assert SubstTerms([Var("v")], "v", Var("w")) == [Var("w")];
    assert AllVars(e) == {"v"};
    assert AliveInstancesOf(t, p) == {2};
    assert forall a :: IsAncestor(t, a, 1) <==> a == 1;
  }

  /** Exists-Elim as written eliminates an instance of the premise that is
      not above the conclusion: taking node 1 itself as the conclusion,
      the premise node 2 `p(w)`, on which nothing depends, is eliminated.
      Nothing was discharged above the conclusion, and the corrected rule
      refuses. */
  lemma ExistsElimBeyondConclusion()
    ensures var t := ExistsElimTree();
      var p := Premise(2, Atom("p", [Var("w")]), [2]);
      && Discharged(t, 1, 2) == {}
      && ExistsElimination(AsWritten, t, 1, 1, p, Atom("w", []), 0).0
         == Derived(Quantified(Exists, "v", Atom("p", [Var("v")])), {2})
      && ExistsElimination(Corrected, t, 1, 1, p, Atom("w", []), 0).0 == Rejected(NoInstances)
  {
    ExistsElimTreeFacts();
  }

  /** A True-introduction leaves a derived node without inputs; the
      ancestor walk as written dereferences it as a premise node, while
      the corrected walk skips it, so Imp-Intro above it is refused. */
  lemma TrueIntroLeaf(p: Premise)
    ensures ApplyInternal(EmptyTree, TrueIntro, Args([], [], []), 0).0 == Derived(True, {})
    ensures var t := AddFormulaNode(EmptyTree, [], True).0;
      && AncestorsAsWritten(t, 1, p.id).None?
      && AlivePremiseAncestors(t, 1, p.id) == []
      && ImpIntroduction(t, 1, p) == Rejected(NoAlivePremise)
  {
    EmptyTreeValid();
    var t := AddFormulaNode(EmptyTree, [], True).0;
    assert IsAncestor(t, 1, 1);
  }
}
