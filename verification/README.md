# First-order logic engine with natural deduction, in Dafny

This project models the core of a small C++ first-order-logic engine:

- **Terms and formulas.** Variables and function terms; atoms, `T`, `F`, negation, the four binary connectives and the two quantifiers. Each comes with its structural equality, variable sets (all, or "free" in the program's sense), complexity, printing and capture-avoiding substitution: single-pair and simultaneous.
- **Fresh names.** The `uv<n>` and `uf<n>` fresh-name searches.
- **Syntactic unification.** The Martelli–Montanari transformation loop: factoring, tautology deletion, orientation, decomposition and application.
- **Resolution refutation.** It works over clauses of literals:
  - subsumption and tautology filters;
  - intra-clause factoring ("grouping");
  - renaming apart;
  - binary resolvents;
  - the two-cursor saturation driver.
- **The prefix formula parser.** Preprocessing, bracket-depth argument splitting, and dispatch on the head name.
- **The signature arity table.**
- **The natural-deduction proof tree.** Node IDs, resolved and eliminated flags, and the search for alive premise ancestors. It has sixteen inference rules and a solver. The solver keeps the premise registry, applies rules, and reports the open formulas once every premise has been discharged.

Everything is an immutable value threaded through pure functions:

- A node of the proof tree is named by its integer ID, not by a pointer.
- The process-wide fresh-name counters are explicit `nat` arguments, returned advanced.
- The loops that have no bound in the program carry a `fuel` parameter.

Where the program has a defect, the module `Revisions` provides two variants:

- `AsWritten` keeps the code's behaviour at that one place, and lemmas exhibit the defect on a concrete input.
- `Corrected` is what the rest of the model uses.

A driver that takes a revision switches only its own defect. The helpers it calls are always the corrected ones, as "Left out" lists per driver.

These cases are listed under "Findings".

Modules and files:

| module | file | program part |
|---|---|---|
| `Wrappers` | wrappers.dfy | `Option`, `Result` |
| `Names` | names.dfy | `uv<n>`/`uf<n>` names, `std::to_string` |
| `Sequences` | sequences.dfy | swap-with-back removal |
| `Terms` | terms.dfy | `VariableTerm`, `FunctionTerm`, substitutions on terms |
| `Formulas` | formulas.dfy | the formula classes: variables, equality, printing |
| `Revisions` | revisions.dfy | as-written / corrected switch |
| `Substitutions` | substitution.dfy | `substitute` on formulas, `Quantifier::substituteImpl` |
| `Unification` | unification.dfy | unification.cpp |
| `Paths` | paths.dfy | bounded reachability under a step relation, used to state what saturation derives |
| `Resolution` | resolution.dfy | resolution.cpp |
| `Parser` | parser.dfy | parser.cpp |
| `Signatures` | signature.dfy | signature.cpp |
| `ProofTree` | prooftree.dfy | solvertree.h / solvertree.cpp, flag updates of rules.h |
| `Rules` | rules.dfy | rules.h / rules.cpp |
| `Solver` | solver.dfy | solver.cpp |

Some program quirks are modelled exactly as the code behaves, without a corrected variant:

- A quantifier's "free" variables remove only its own binder. Variables bound deeper inside are still reported free.
- Forall-Intro checks the old variable `x`, not `y`, against the alive premises.
- Exists-Elim rejects `w` when it occurs anywhere, free or bound, in another alive premise node.
- The parser lowercases its input, so its `T`/`F` branches can never fire.

## Model

| member | source | states |
|---|---|---|
| Terms.TermEqualIsEquality | code/src/first_order_logic/function_term.cpp:31-44 | Term `equalTo` holds exactly when the two terms are identical trees: same variable name, or same symbol, same argument count and pairwise equal arguments |
| Terms.HasVarIsMembership | code/src/first_order_logic/function_term.cpp:54-64 | `hasVariable(v)` on a term holds exactly when `v` is one of the term's collected variables |
| Terms.TermsVars | code/src/first_order_logic/function_term.cpp:46-52 | The variables of an argument list are those of some argument, and every argument's variables are among them |
| Terms.SubstVars | code/src/first_order_logic/function_term.cpp:66-72 | Replacing `v` by `s` in a term removes `v` and brings in the variables of `s` when `v` occurs, and changes nothing otherwise |
| Terms.SubstBack | code/src/first_order_logic/variable_term.cpp:37-47 | Renaming `x` to a variable `y` absent from the term, then `y` back to `x`, restores the term |
| Terms.Apply | code/src/first_order_logic/variable_term.cpp:49-59 | A map substitution none of whose keys occurs in the term leaves the term unchanged |
| Terms.ApplyVars | code/src/first_order_logic/function_term.cpp:74-83 | After a simultaneous substitution, the variables of a term are the image of its variables: a key contributes its replacement's variables, any other variable itself |
| Terms.OccursCheck | code/src/first_order_logic/unification.cpp:123-127 | No substitution can equate a variable with a different term containing it, which is why the occurs check may reject |
| Terms.ApplyAfterSubst | code/src/first_order_logic/unification.cpp:130-148 | A unifier of `x` and `u` is unaffected by first replacing `x` with `u` in a term, which is what makes application sound |
| Terms.ApplyComposeAgree | code/src/first_order_logic/unification.cpp:187-195 | If `s` absorbs `m` on every variable of a term, applying `m` first and then `s` equals applying `s` alone |
| Formulas.GetText | code/src/first_order_logic/base_formula.cpp:32-39 | The text of a formula is its printed form framed by `>>> ` and ` <<<`, and the frame can be stripped to recover the print |
| Formulas.FormulaEqualIsEquality | code/src/first_order_logic/quantifier.cpp:17-25 | Formula `equalTo` (same constructor, same connective or quantifier, same bound name, equal parts) coincides with identity: no alpha-equivalence |
| Formulas.FreeVarsWithinFlagged | code/src/first_order_logic/quantifier.cpp:27-36 | The truly free variables are among those `getVars(free=true)` reports, which are among all variables |
| Formulas.NestedBinderReportedFree | code/src/first_order_logic/quantifier.cpp:27-36 | In `forall x. forall y. p(x,y)` the program reports `y` as free, although nothing is free |
| Formulas.QuantifierFreeVars | code/src/first_order_logic/atom.cpp:45-52 | Without quantifiers the `free` flag makes no difference: free, flagged and all variables coincide |
| Formulas.ConstantsBehaviour | code/src/first_order_logic/constants.cpp:10-24 | `T` and `F` have complexity 0 and no variables, print as `T` and `F`, and each is equal to itself but not to the other |
| Names.Fresh | code/src/first_order_logic/quantifier.cpp:38-51 | The chosen `<prefix><n>` is outside the avoided set, the counter advances past it, and every candidate skipped on the way was taken |
| Names.NatToString | code/src/first_order_logic/quantifier.cpp:42 | The decimal text of a number is non-empty, all digits, and one character long exactly for numbers below ten |
| Names.NatToStringValue | code/src/first_order_logic/quantifier.cpp:42 | Reading the decimal text back gives the number again, and a text longer than one digit has no leading zero |
| Names.NatToStringInjective | code/src/first_order_logic/quantifier.cpp:42 | Different numbers have different decimal texts, so the fresh names `uv<n>` for different `n` differ |
| Sequences.RemoveSwap | code/src/first_order_logic/unification.cpp:20-21 | Swapping an element with the last and popping drops exactly that element: the others keep their positions except the last, which moves into the gap |
| Substitutions.Capturing | code/src/first_order_logic/quantifier.h:69-83 | The pairs kept because their replacement mentions the bound variable are exactly those of the map whose term contains it |
| Substitutions.Substitute | code/src/first_order_logic/quantifier.h:115-138 | Single-pair substitution keeps the formula's complexity and never moves the fresh-name counter backwards |
| Substitutions.SubstituteFreeVars | code/src/first_order_logic/quantifier.h:115-138 | With the fresh name also avoiding `v`, substitution is capture-avoiding: the free variables become those of the input with `v` replaced by the variables of `t`, or are unchanged when `v` was not free |
| Substitutions.SubstituteNotFree | code/src/first_order_logic/quantifier.h:115-138 | Substituting for a variable that is not free, with a term whose variables clash with no binder, returns the formula and counter unchanged |
| Substitutions.PairRenameCollision | code/src/first_order_logic/quantifier.h:126-131 | As written, `forall x. p(x)` with `uv0 := f(x)` renames the binder to `uv0` itself and yields `forall uv0. p(f(x))`, capturing nothing but freeing `x` |
| Substitutions.EagerRenaming | code/src/first_order_logic/quantifier.h:125-131 | A binder is renamed whenever it occurs in `t`, even when the substituted variable does not occur in the body, which still spends a fresh name |
| Substitutions.MapSubstitute | code/src/first_order_logic/quantifier.h:62-103 | Map substitution keeps the formula's complexity and never moves the fresh-name counter backwards |
| Substitutions.MapSubstituteFreeVars | code/src/first_order_logic/quantifier.h:62-103 | With the fresh name also avoiding the keys and all replacement variables, simultaneous substitution maps the free variables to their image under the map |
| Substitutions.MapSubstituteEmpty | code/src/first_order_logic/quantifier.h:85-89 | The empty map leaves every formula and the counter untouched |
| Substitutions.MapRenameCollisionResult | code/src/first_order_logic/quantifier.h:91-98 | As written, `forall x. p(x,y)` under `{y := x, uv0 := z}` becomes `forall uv0. p(z,x)` |
| Substitutions.MapRenameCollision | code/src/first_order_logic/quantifier.h:91-98 | In that case the result has free variables `{x, z}`, while a capture-free substitution would leave only `{x}` |
| Substitutions.SubstituteQuantifierFree | code/src/first_order_logic/atom.cpp:59-65 | Substitution never introduces a quantifier into a quantifier-free formula |
| Substitutions.SubstituteBack | code/src/first_order_logic/atom.cpp:59-65 | On quantifier-free formulas, renaming `x` to an unused `y` and back is the identity |
| Substitutions.AtomSubstVars | code/src/first_order_logic/atom.cpp:59-65 | An atom's variables after single-pair substitution lose `v` and gain those of `t` exactly when `v` occurred |
| Substitutions.AtomApplyVars | code/src/first_order_logic/atom.cpp:67-76 | An atom's variables after map substitution are the image of its variables |
| Parser.ToLower | code/src/first_order_logic/parser.cpp:14 | Lowercasing maps each capital to the small letter at the same place in the alphabet and leaves every other character alone |
| Parser.Preprocess | code/src/first_order_logic/parser.cpp:11-14 | The preprocessed text is no longer than the input and has no whitespace or capital; a one-character input is dropped if it is whitespace and lowercased otherwise |
| Parser.PreprocessAppend | code/src/first_order_logic/parser.cpp:11-14 | Preprocessing works character by character: preprocessing a concatenation concatenates the preprocessed parts |
| Parser.PreprocessIdempotent | code/src/first_order_logic/parser.cpp:11-14 | Preprocessing twice is the same as preprocessing once |
| Parser.PreprocessKeeps | code/src/first_order_logic/parser.cpp:11-14 | Text already free of spaces and capitals passes unchanged |
| Parser.ParseArgs | code/src/first_order_logic/parser.cpp:211-253 | Splitting succeeds exactly for bracket-balanced text. It yields at least one piece, each balanced without a top-level comma, and joined by commas they give back the input |
| Parser.ParseArgsJoin | code/src/first_order_logic/parser.cpp:211-253 | Conversely, pieces that are balanced and free of top-level commas are recovered by splitting their comma join |
| Parser.FirstIndex | code/src/first_order_logic/parser.cpp:39 | The search for the first `(` returns its position, or the length when there is none |
| Parser.LastIndex | code/src/first_order_logic/parser.cpp:40 | The search for the last `)` returns a position with no later `)`, or the length when there is none at all |
| Parser.ParseVariable | code/src/first_order_logic/parser.cpp:126-138 | A variable parses exactly when every character is alphanumeric, the empty text included, and it is the text itself |
| Parser.ParseTerms | code/src/first_order_logic/parser.cpp:140-155 | A term list parses exactly when each text is a valid variable, into the variables of the same names in order |
| Parser.ParseTermsTexts | code/src/first_order_logic/parser.cpp:140-155 | Printing alphanumeric variables and parsing the texts returns the variables |
| Parser.Arguments | code/src/first_order_logic/parser.cpp:157-173 | A successful argument split for a connective has exactly the required count, each piece within the argument text |
| Parser.ParseFormula | code/src/first_order_logic/parser.cpp:19-124 | `T` and `F` are produced only from exactly the one-character texts `T` and `F`; any other one-character text is the argument-less atom of that name |
| Parser.ParseCompound | code/src/first_order_logic/parser.cpp:48-123 | A head name with arguments never produces a constant |
| Parser.FormulaParser | code/src/first_order_logic/parser.cpp:9-17 | The public entry point never yields a constant |
| Parser.ConstantsUnreachable | code/src/first_order_logic/parser.cpp:9-30 | Because input is lowercased first, no formula the parser returns contains `T` or `F` anywhere |
| Parser.NoConstantsParsed | code/src/first_order_logic/parser.cpp:22-36 | Text without capitals parses only to formulas without constants |
| Parser.ParseCall | code/src/first_order_logic/parser.cpp:39-49 | For `name(a1,...,an)` the bracket search finds the head name and the split recovers exactly the arguments |
| Parser.ParseCallCompound | code/src/first_order_logic/parser.cpp:39-49 | Such a text dispatches to the compound case with its argument text, and the argument count check sees exactly `n` pieces |
| Parser.ParseUnparseAtom | code/src/first_order_logic/parser.cpp:88-117 | Every atom the grammar allows parses back from its prefix text |
| Parser.ParseUnparseNot | code/src/first_order_logic/parser.cpp:52-56 | `not(...)` parses back to the negation when its operand does |
| Parser.ParseUnparseBinary | code/src/first_order_logic/parser.cpp:57-76 | `and/or/imp/iff(a,b)` parses back to the connective when both operands do |
| Parser.ParseBinaryCall | code/src/first_order_logic/parser.cpp:57-76 | The connective keyword applied to two parseable pieces yields that connective over their parses |
| Parser.ParseUnparseQuantified | code/src/first_order_logic/parser.cpp:77-87 | `forall/exists(x,body)` parses back to the quantifier when the body does and `x` is alphanumeric |
| Parser.ParseQuantifiedCall | code/src/first_order_logic/parser.cpp:77-87 | The quantifier keyword applied to a variable piece and a parseable body yields that quantified formula |
| Parser.ParseUnparse | code/src/first_order_logic/parser.cpp:19-124 | Round trip: every formula inside the parser's grammar is recovered by parsing its prefix rendering |
| Unification.Factoring | code/src/first_order_logic/unification.cpp:7-29 | Duplicate removal keeps exactly the same set of pairs and leaves no pair twice |
| Unification.Tautology | code/src/first_order_logic/unification.cpp:31-46 | Tautology deletion keeps exactly the pairs whose two sides differ |
| Unification.Orientation | code/src/first_order_logic/unification.cpp:48-64 | Orientation flips exactly the term-versus-variable pairs, keeps positions, and reports a change iff such a pair existed |
| Unification.OrientationPreserves | code/src/first_order_logic/unification.cpp:48-64 | Orientation changes no pair's set of unifiers |
| Unification.DecomposePreserves | code/src/first_order_logic/unification.cpp:66-104 | When decomposition finds no clash, the new pair list has exactly the same unifiers |
| Unification.DecomposeClash | code/src/first_order_logic/unification.cpp:78-82 | When decomposition reports a symbol clash, nothing unifies the input |
| Unification.CollisionNotUnifiable | code/src/first_order_logic/unification.cpp:78-82 | Two function terms with different symbols or arities are never made equal by a substitution |
| Unification.ArgumentsUnify | code/src/first_order_logic/unification.cpp:85-94 | A substitution equates `f(a..)` and `f(b..)` exactly when it unifies every argument pair |
| Unification.DecomposeShrinks | code/src/first_order_logic/unification.cpp:85-94 | Replacing a function pair by its argument pairs strictly lowers the total term size, so decomposition cannot go on forever |
| Unification.Zip | code/src/first_order_logic/unification.cpp:86-89 | Arguments are paired index by index |
| Unification.Eliminate | code/src/first_order_logic/unification.cpp:130-148 | Eliminating `x := t` rewrites every other pair with `x` replaced by `t` and keeps the eliminating pair itself |
| Unification.EliminatePreserves | code/src/first_order_logic/unification.cpp:130-148 | Elimination with a pair `x = t` of the list keeps the set of unifiers |
| Unification.EliminateUnmentioned | code/src/first_order_logic/unification.cpp:137-146 | If no other pair mentions `x`, elimination changes nothing |
| Unification.ApplicationPreserves | code/src/first_order_logic/unification.cpp:106-154 | A pass of application without a reported cycle keeps the unifiers; in the corrected pass a reported cycle means no unifier exists |
| Unification.RoundPreserves | code/src/first_order_logic/unification.cpp:161-168 | One round of the five transformations without failure keeps the set of unifiers |
| Unification.RoundClash | code/src/first_order_logic/unification.cpp:169-172 | A corrected round that fails proves the input not unifiable |
| Unification.RoundSolved | code/src/first_order_logic/unification.cpp:173-175 | A round that changes nothing and does not fail leaves the pairs in solved form |
| Unification.Rounds | code/src/first_order_logic/unification.cpp:161-175 | Whatever the loop returns as a unifier unifies every input pair |
| Unification.ToSubstitutionSolved | code/src/first_order_logic/unification.cpp:187-195 | Turning a solved list into a map sends each left variable to its right side and has no other keys |
| Unification.SolvedUnifies | code/src/first_order_logic/unification.cpp:187-195 | The map read off a solved form unifies it |
| Unification.SolvedMostGeneral | code/src/first_order_logic/unification.cpp:178-196 | Every unifier of a solved form factors through the map read off it |
| Unification.Unify | code/src/first_order_logic/unification.cpp:178-196 | Soundness: a returned substitution unifies all input pairs |
| Unification.UnifyMostGeneral | code/src/first_order_logic/unification.cpp:178-196 | A returned substitution is most general: any unifier of the input is recovered by applying it after the result |
| Unification.UnifyComplete | code/src/first_order_logic/unification.cpp:156-176 | In the corrected loop, a "not unifiable" answer is true: no substitution unifies the input |
| Unification.FalseCycle | code/src/first_order_logic/unification.cpp:123-148 | As written, `{x = y, y = x}` is reported not unifiable although `x := y` unifies it |
| Unification.FalseCycleRound | code/src/first_order_logic/unification.cpp:123-148 | The first round turns `y = x` into `y = y`, which the as-written cycle test rejects and the corrected test lets through |
| Unification.FalseCycleCorrected | code/src/first_order_logic/unification.cpp:123-148 | The corrected loop returns `x := y` for that input |
| Resolution.Opposite | code/src/first_order_logic/resolution.cpp:71-81 | The opposite of a literal is a literal of the other sign on the same atom |
| Resolution.AtomUnify | code/src/first_order_logic/resolution.cpp:8-29 | A unifier of two atoms exists only for equal relation symbols and makes their argument lists equal |
| Resolution.AtomUnifyMostGeneral | code/src/first_order_logic/resolution.cpp:8-29 | A unifier found for two atoms is most general among those equating their arguments |
| Resolution.AtomUnifyComplete | code/src/first_order_logic/resolution.cpp:8-29 | When unification ran to completion and found nothing, no substitution equates the atoms |
| Resolution.ZipUnifies | code/src/first_order_logic/resolution.cpp:20-27 | Unifying the index-wise argument pairs is the same as making the argument lists equal |
| Resolution.SubstLiteral | code/src/first_order_logic/resolution.cpp:136-139 | Substituting in a literal keeps its sign and relation symbol and substitutes in its arguments |
| Resolution.SubstClause | code/src/first_order_logic/resolution.cpp:136-139 | Substituting in a clause does so literal by literal, keeping positions |
| Resolution.ClauseExists | code/src/first_order_logic/resolution.cpp:31-64 | A clause counts as present exactly when some clause of the set has all its literals in it (so the empty clause subsumes everything) |
| Resolution.ClauseTautology | code/src/first_order_logic/resolution.cpp:66-89 | A clause is a tautology exactly when it holds some atom together with its negation |
| Resolution.GroupUnifier | code/src/first_order_logic/resolution.cpp:106-125 | A grouping unifier exists only for literals of the same sign and makes them identical |
| Resolution.FactorLiterals | code/src/first_order_logic/resolution.cpp:131-139 | Dropping one of two literals made identical by the unifier loses no literal of the substituted clause |
| Resolution.GroupFromFactors | code/src/first_order_logic/resolution.cpp:91-152 | Every clause the grouping loops append is a factor of the clause, new to the set at the point it was added and not a tautology |
| Resolution.TryGroupLiterals | code/src/first_order_logic/resolution.cpp:91-152 | Grouping only appends clauses, and reports true exactly when it appended one |
| Resolution.TryGroupLiteralsFactors | code/src/first_order_logic/resolution.cpp:91-152 | What `tryGroupLiterals` appends are new, non-tautological factors of the chosen clause |
| Resolution.LiteralVars | code/src/first_order_logic/resolution.cpp:171-177 | The variables of a literal are those of its atom's arguments |
| Resolution.RenameClauseVars | code/src/first_order_logic/resolution.cpp:210-213 | Renaming `v` to `u` in a clause removes `v` and adds `u` when `v` occurs |
| Resolution.RenameApart | code/src/first_order_logic/resolution.cpp:199-215 | After renaming, the second clause shares no variable with the first and keeps its length; already-disjoint clauses are left alone |
| Resolution.ResolveUnifier | code/src/first_order_logic/resolution.cpp:218-239 | A resolving unifier exists only for literals of opposite signs and makes one the negation of the other |
| Resolution.ResolventLiterals | code/src/first_order_logic/resolution.cpp:244-267 | The resolvent holds exactly the substituted literals of both clauses other than the two resolved on |
| Resolution.ResolveFromResolvents | code/src/first_order_logic/resolution.cpp:199-280 | Every clause the resolving loops append is a resolvent of the two clauses, new to the set at that point and not a tautology |
| Resolution.TryResolveClauses | code/src/first_order_logic/resolution.cpp:199-280 | Resolving clause `i` with `j` changes no clause but `j` (renamed apart from `i`), and reports true exactly when something was appended |
| Resolution.TryResolveResolvents | code/src/first_order_logic/resolution.cpp:199-280 | Whatever `tryResolveClauses` appends are new resolvents of the two clauses as renamed |
| Resolution.UnitsResolve | code/src/first_order_logic/resolution.cpp:199-280 | Resolving the units `p` and `~p` appends the empty clause |
| Resolution.Advance | code/src/first_order_logic/resolution.cpp:293-302 | The cursor step keeps the earlier index below the later one and moves exactly one place along the enumeration (0,1),(0,2),(1,2),(0,3),... |
| Resolution.CursorVisitsOnce | code/src/first_order_logic/resolution.cpp:293-302 | No two cursor positions share a place in that enumeration, so each clause pair is visited at most once |
| Resolution.CursorVisits | code/src/first_order_logic/resolution.cpp:282-306 | Every pair of clause indices is reached from the start (0,1) after as many steps as its place in the enumeration |
| Resolution.ResolventFound | code/src/first_order_logic/resolution.cpp:282-306 | The resolving loop ends with the cursor past the set, never moves the cursor back, keeps existing clause lengths, and reports true exactly when the set grew |
| Resolution.ResolveStepOn | code/src/first_order_logic/resolution.cpp:282-306 | One pass of the resolving loop body on the clause pair at the cursors keeps every other clause, renames the current clause apart from the previous one, and appends only resolvents of the pair |
| Resolution.ResolventFoundResolvents | code/src/first_order_logic/resolution.cpp:282-306 | The set the resolving loop ends with is reached from its start by at most fuel such resolution steps |
| Resolution.UnitsExhaust | code/src/first_order_logic/resolution.cpp:282-306 | Once the empty clause is in, the remaining cursor steps over `p`, `~p` and the empty clause add nothing |
| Resolution.GroupStep | code/src/first_order_logic/resolution.cpp:154-169 | One grouping step advances the grouping index by one, only appends, and reports whether it appended |
| Resolution.Grouping | code/src/first_order_logic/resolution.cpp:154-169 | Grouping ends with every clause grouped, the resolution cursor untouched, the old clauses as a prefix, and reports whether the set grew |
| Resolution.GroupingFactors | code/src/first_order_logic/resolution.cpp:154-169 | Every clause grouping adds is new and is a factor of an earlier clause |
| Resolution.Saturate | code/src/first_order_logic/resolution.cpp:308-338 | "Unsatisfiable" is only returned with the empty clause in the set; "satisfiable" only after a round with nothing left to group or resolve and no empty clause derived; the final set is reached from the input by at most `MoveBound(fuel)` grouping passes (appending new factors) and resolution steps, so an "unsatisfiable" answer rests on an empty clause derived from the input |
| Resolution.Resolution | code/src/first_order_logic/resolution.cpp:308-338 | In the corrected driver, an input holding the empty clause is unsatisfiable and a "satisfiable" verdict implies there is none |
| Resolution.RevisionsAgree | code/src/first_order_logic/resolution.cpp:308-338 | Without an empty clause in the input, the driver with the late empty-clause check and the one that checks the input first give the same verdict (both use the corrected unification) |
| Resolution.ComplementaryUnits | code/src/first_order_logic/resolution.cpp:308-338 | `{p}, {~p}` is refuted |
| Resolution.EmptyClauseInput | code/src/first_order_logic/resolution.cpp:327-336 | As written, the set holding only the empty clause is declared satisfiable; corrected, unsatisfiable |
| Signatures.AddFunctionSymbol | code/src/first_order_logic/signature.cpp:5-8 | After registration the symbol has exactly the new arity; other function symbols and all relation symbols keep theirs |
| Signatures.AddFunctionSymbolOverwrites | code/src/first_order_logic/signature.cpp:5-8 | A second registration replaces the first, and re-registering the current arity changes nothing |
| Signatures.AddPredicateSymbol | code/src/first_order_logic/signature.cpp:10-13 | The same for relation symbols, leaving the function table alone |
| Signatures.ArityUnique | code/src/first_order_logic/signature.cpp:15-39 | The arity queries hold for at most one arity per symbol and table |
| Signatures.TablesIndependent | code/src/first_order_logic/signature.cpp:5-13 | Registering a function symbol does not make it a relation symbol, nor the other way round |
| Signatures.UniqueFunctionSymbol | code/src/first_order_logic/signature.cpp:41-48 | The name returned is not a function symbol of any arity, is the first free `uf<n>` from the counter, and the counter moves past it |
| Signatures.UniqueSymbolExtends | code/src/first_order_logic/signature.cpp:41-48 | Registering the fresh name gives it the requested arity and keeps every existing symbol |
| Signatures.UniqueSymbolOfEmpty | code/src/first_order_logic/signature.cpp:41-48 | An empty table with counter 0 yields `uf0` |
| ProofTree.AddPremiseNode | code/src/natural_deduction/solvertree.cpp:6-17 | A premise node is added under a new ID as an unresolved, alive instance of its premise carrying the formula; all other nodes are untouched and the tree stays well formed |
| ProofTree.AddFormulaNode | code/src/natural_deduction/solvertree.cpp:19-35 | A derived node gets a new ID, the given formula and parents, starts unresolved with no output, and becomes the output of each parent; no other node changes |
| ProofTree.LinkOutputs | code/src/natural_deduction/solvertree.cpp:28-32 | Exactly the listed parents get the new node as output |
| ProofTree.ExtendValid | code/src/natural_deduction/solvertree.cpp:19-35 | Adding a derived node whose inputs are older nodes, changing only outputs elsewhere, keeps the tree well formed and extends it |
| ProofTree.ResolveNodes | code/src/natural_deduction/solvertree.h:25 | Resolving sets the flag on the chosen nodes, never clears one, and touches nothing else |
| ProofTree.EliminateNodes | code/src/natural_deduction/solvertree.h:57 | Eliminating sets the flag on the chosen premise nodes, never clears one, and leaves derived nodes alone |
| ProofTree.ExtendsTransitive | code/src/natural_deduction/solvertree.h:68-87 | Growth of the tree composes: two extensions in a row form an extension |
| ProofTree.AlivePremiseAncestors | code/src/natural_deduction/solvertree.cpp:37-62 | Every node the ancestor walk returns is an alive instance of the premise |
| ProofTree.AncestorsMembers | code/src/natural_deduction/solvertree.cpp:37-62 | The walk returns exactly the alive instances of the premise among the node and its ancestors |
| ProofTree.AncestorsDischarged | code/src/natural_deduction/solvertree.cpp:37-62 | The nodes the walk returns are exactly those the discharging rules eliminate |
| ProofTree.AncestorsAsWritten | code/src/natural_deduction/solvertree.cpp:45-56 | The as-written walk fails exactly when a parentless derived node lies above, and otherwise agrees with the corrected walk |
| ProofTree.LeafAboveInputs | code/src/natural_deduction/solvertree.cpp:57-61 | A parentless derived node lies above a node with inputs exactly when it lies above one of its inputs |
| ProofTree.MarkNodes | code/src/natural_deduction/rules.h:50-58 | Setting the eliminated and resolved flags keeps the tree well formed and IDs unchanged, marks the chosen nodes, and leaves all other nodes as they were |
| ProofTree.EmptyTreeValid | code/src/natural_deduction/solvertree.h:84-85 | The empty tree is well formed |
| Rules.AsVariable | code/src/natural_deduction/rules.cpp:221-236 | A formula names a variable exactly when it is an atom whose terms hold no variables; the name is its symbol |
| Rules.NotIntroduction | code/src/natural_deduction/rules.cpp:7-31 | Not-Intro applies exactly when the node is `F` with alive instances of the premise above it, yields the premise's negation, and discharges exactly those instances |
| Rules.NotElimination | code/src/natural_deduction/rules.cpp:33-48 | Not-Elim applies exactly when the second formula negates the first, and yields `F` |
| Rules.AndElimination | code/src/natural_deduction/rules.cpp:58-80 | And-Elim applies exactly to conjunctions and yields the requested side |
| Rules.OrElimination | code/src/natural_deduction/rules.cpp:98-157 | Or-Elim applies exactly when the disjunction is of the two premises and both branches reach the same formula from alive instances; it yields that formula and discharges both sets |
| Rules.ImpIntroduction | code/src/natural_deduction/rules.cpp:159-179 | Imp-Intro applies exactly when alive instances of the premise lie above the node, yields premise-implies-node, and discharges those instances |
| Rules.ImpElimination | code/src/natural_deduction/rules.cpp:181-200 | Imp-Elim applies exactly when the second formula is an implication from the first, yields its consequent, and names the right error otherwise |
| Rules.ContradictionElimination | code/src/natural_deduction/rules.cpp:202-214 | From `F` any supplied formula follows, and from nothing else |
| Rules.ForallIntroduction | code/src/natural_deduction/rules.cpp:238-299 | Forall-Intro applies exactly when `x` and `y` are variables, `x` is free in the node, `y` is not, and `x` is free in no alive premise node; it yields a universal over `y` whose body is the node's formula with `x` replaced by `y`, and discharges nothing |
| Rules.ForallElimination | code/src/natural_deduction/rules.cpp:301-334 | Forall-Elim applies exactly to a universal and a variable `w` that does not occur in the body only bound, and yields the body with the bound variable replaced by `w` |
| Rules.ExistsIntroduction | code/src/natural_deduction/rules.cpp:336-378 | Exists-Intro applies exactly when `x` is free in the formula and `y` does not occur at all, and yields an existential over `y` whose body is the formula with `x` replaced by `y` |
| Rules.ExistsDischarged | code/src/natural_deduction/rules.cpp:418-467 | As written, Exists-Elim discharges every alive instance of the premise in the tree; corrected, only those above the conclusion |
| Rules.ExistsElimination | code/src/natural_deduction/rules.cpp:380-470 | Exists-Elim applies exactly when the instance of the existential at `w` is the premise, `w` is not free in the conclusion and occurs in no other alive premise node, and instances are discharged; it yields the conclusion |
| Rules.ApplyInternal | code/src/natural_deduction/rules.h:49-58 | Any rule only ever discharges alive premise nodes |
| Rules.Apply | code/src/natural_deduction/rules.h:49-58 | A failing rule leaves the tree as it was. A succeeding one resolves every input, eliminates exactly the discharged premise nodes and nothing else, and keeps the tree well formed |
| Rules.ForallIntroFreeVars | code/src/natural_deduction/rules.cpp:297-298 | Forall-Intro removes exactly `x` from the free variables |
| Rules.ExistsIntroFreeVars | code/src/natural_deduction/rules.cpp:376-377 | Exists-Intro removes exactly `x` from the free variables |
| Rules.ForallElimFreeVars | code/src/natural_deduction/rules.cpp:333 | Forall-Elim adds `w` to the free variables exactly when the bound variable occurred free in the body |
| Rules.ForallRoundTrip | code/src/natural_deduction/rules.cpp:297-333 | On a quantifier-free formula, Forall-Elim at `x` undoes Forall-Intro |
| Rules.NotRoundTrip | code/src/natural_deduction/rules.cpp:7-48 | Not-Elim on the premise and the result of Not-Intro gives back the node's `F` |
| Rules.AndRoundTrip | code/src/natural_deduction/rules.cpp:50-80 | The two And-Elims give back the two conjuncts |
| Rules.ImpRoundTrip | code/src/natural_deduction/rules.cpp:159-200 | Imp-Elim on the premise and the result of Imp-Intro gives back the node's formula |
| Rules.UnconditionalIntroductions | code/src/natural_deduction/rules.cpp:50-96 | And-Intro, both Or-Intros and True-Intro always apply, discharge nothing, and the conjunction splits back into its inputs |
| Rules.ForallIntroGuardsPremises | code/src/natural_deduction/rules.cpp:276-295 | Generalising `x` while the alive premise `p(x)` is open is refused |
| Rules.ExistsElimTree | code/src/natural_deduction/rules.cpp:380-470 | The two-premise tree used to exhibit the Exists-Elim scope: `exists v. p(v)` and `p(w)`, both alive |
| Rules.ExistsElimBeyondConclusion | code/src/natural_deduction/rules.cpp:418-467 | As written, Exists-Elim discharges the instance `p(w)` although it is not above the conclusion; corrected, it is refused |
| Rules.TrueIntroLeaf | code/src/natural_deduction/solvertree.cpp:45-56 | After True-Intro, the as-written ancestor walk from its node fails, while the corrected walk finds nothing and Imp-Intro is refused |
| Solver.AddPremise | code/src/natural_deduction/solver.cpp:10-15 | A new premise gets a fresh ID, is registered with one alive instance node carrying its formula, and no other premise changes |
| Solver.DuplicatePremise | code/src/natural_deduction/solver.cpp:17-22 | A further alive instance of an existing premise is added and appended to its instance list; nothing else changes |
| Solver.AllEliminatedIffNoAlive | code/src/natural_deduction/solver.cpp:24-38 | All premises are discharged exactly when the tree has no alive premise node |
| Solver.UnresolvedIds | code/src/natural_deduction/solver.cpp:47-54 | The unresolved node IDs up to a bound, in strictly increasing order, each listed once |
| Solver.Pending | code/src/natural_deduction/solver.cpp:47-54 | The open formulas up to an ID are those of the unresolved nodes with that ID or lower, one per node, in ID order |
| Solver.DerivedFormulas | code/src/natural_deduction/solver.cpp:40-57 | A result exists exactly when all premises are discharged, and then it lists the formula of each unresolved node once, in ID order |
| Solver.ApplyRule | code/src/natural_deduction/solver.cpp:59-97 | Failure changes nothing. Success adds one new unresolved node fed by the resolved inputs, keeps the registry, and keeps the solver state consistent |
| Solver.Record | code/src/natural_deduction/solver.cpp:64-65 | Recording a rule's formula adds one unresolved node with those inputs and keeps the state consistent |
| Solver.InitialConsistent | code/src/natural_deduction/solver.h:27-33 | A new solver, with no premises and an empty tree, is consistent |
| Solver.AddInstanceConsistent | code/src/natural_deduction/solvertree.cpp:15 | Adding a premise node and listing it under its premise keeps the registry and tree in agreement |
| Solver.GrowConsistent | code/src/natural_deduction/solver.cpp:59-97 | Growing the tree with derived nodes only, the registry unchanged, keeps the state consistent |

## Left out

- The interactive layer (`code/src/main.cpp`, `solverparser.cpp`): console I/O and command parsing. The resolved-input check it performs before building a rule is not modelled.
- The console trace in `Solver::ApplyRule` and the `operator<<` printers of substitutions and clauses: output only.
- Error message texts: each rule's refusal is an `Error` value naming the failed check. `ApplyRule` returns the new node's ID in place of `true`, and the error in place of `false` plus a string.
- The static parse registries (`m_parsedPredicates`, `m_parsedTerms`): bookkeeping that no result depends on.
- Integer widths: node IDs and the fresh-name counters are unbounded `nat`s, so 64-bit and 32-bit wrap-around is not modelled.
- Pointer identity: nodes are IDs, formulas are values. Literal lookup in resolution uses structural equality where the code compares `shared_ptr`s; that comparison is evidently meant to be `equalTo`.
- Resolution.ClauseExists and Resolution.ClauseTautology: compare literals by structure. In the code, substitution always allocates new literals, so the pointer comparison never finds a derived clause already present or tautological. The code's loop therefore differs from the model on termination: on `{[p], [¬p, p]}` it keeps appending a copy of `[p]` each round, while the model reports satisfiable. The model's results do not carry over to that behaviour.
- Resolution.AtomUnify: equal arity is assumed by the code, which walks the first atom's arguments only. A mismatch is modelled as failure to unify, where the code reads past the shorter list or ignores the extra arguments.
- Unification.Decomposable: equal arity is assumed by the code's decomposition, which walks the left term's arguments only. A mismatch is modelled as a collision.
- Parser.FormulaParser: the input is assumed to be ASCII. Dafny characters are Unicode, so `isalnum` and `isspace` on bytes outside ASCII are not modelled: a name such as `é` parses as an atom here, while the code rejects it.
- Resolution.Resolution: only its empty-clause check follows the revision. With either revision it unifies with the corrected `Unification.Unify`.
- Rules.ApplyInternal: every rule it dispatches substitutes with the corrected `Substitutions.Substitute`, and Exists-Elim is the corrected `Rules.ExistsElimination`.
- Solver.ApplyRule: goes through `Rules.ApplyInternal`, so it uses the same corrected substitution and Exists-Elim.
- Unification.Rounds: the transformation loop carries a fuel bound and can answer `OutOfFuel`. Termination of the unbounded loop is not proved.
- Resolution.Saturate: the saturation driver, grouping and the resolving loop carry fuel and a unification bound. First-order resolution need not terminate. Results are stated for runs that finish within the bound. Lemmas that more fuel gives the same answer are not included.
- Rules.Apply: the eliminated-node list is modelled as a set. Not-Intro and Or-Elim can list the same node twice in a diamond, which changes nothing about the flags.
- Solver.DuplicatePremise: requires the premise ID to be registered. The program dereferences a missing premise, and its command layer checks the ID first.
- The C++ order of evaluating the two sides of a binary substitution is unspecified. The model substitutes left then right, which matters only for which fresh names are drawn.
- The `unordered_set` iteration order used when renaming clauses apart is modelled as first-occurrence order of the variables.
- `code/src/first_order_logic/main.cpp` (a demo driver) is not part of this model.
- Formulas.FreeVarsWithinFlagged: states containment only. Under nested quantifiers the program's "free" set is larger than the true one, as Formulas.NestedBinderReportedFree shows.

## Findings

| source | as written | input that shows it | evidently intended | confidence | as-written member | corrected member |
|---|---|---|---|---|---|---|
| code/src/first_order_logic/quantifier.h:126-131 | The fresh bound name avoids the formula and `t`, not the substituted variable `v` | `forall x. p(x)` with `uv0 := f(x)`, counter 0, gives `forall uv0. p(f(x))`: the binder equals `v` and `x` becomes free | Also avoid `v` | not executed | Substitutions.PairRenameCollision | Substitutions.SubstituteFreeVars |
| code/src/first_order_logic/quantifier.h:91-98 | The fresh name is checked only against the body and the capturing replacement terms | `forall x. p(x,y)` with `{y := x, uv0 := z}` gives `forall uv0. p(z,x)`: the new binder is itself a key, and `z` is wrongly substituted in | Also avoid the map's keys and all replacement variables | not executed | Substitutions.MapRenameCollision | Substitutions.MapSubstituteFreeVars |
| code/src/first_order_logic/unification.cpp:123-148 | A pair `y = y` produced earlier in the same pass is taken for an occurs-check cycle | `{x = y, y = x}` is reported not unifiable | Only a different term containing the variable is a cycle | not executed | Unification.FalseCycle | Unification.UnifyComplete |
| code/src/first_order_logic/resolution.cpp:327-336 | The empty clause is looked for only after a round that added something | `{[]}` (the empty clause alone) is reported satisfiable | An input holding the empty clause is unsatisfiable | not executed | Resolution.EmptyClauseInput | Resolution.Resolution |
| code/src/natural_deduction/solvertree.cpp:45-56 | Every parentless node is cast to a premise node and dereferenced | True-Intro, then Imp-Intro on its node: the cast yields null | A parentless derived node contributes no ancestors | not executed | ProofTree.AncestorsAsWritten | ProofTree.AncestorsDischarged |
| code/src/natural_deduction/rules.cpp:418-467 | Exists-Elim discharges every alive instance of the premise in the whole tree; its error text speaks of instances "in the tree of" the conclusion | premises `exists v. p(v)` and `p(w)`, Exists-Elim with the existential as its own conclusion: `p(w)` is discharged though unrelated | Discharge only instances above the conclusion, like Not-Intro, Imp-Intro and Or-Elim | not executed | Rules.ExistsElimBeyondConclusion | Rules.ExistsElimination |
