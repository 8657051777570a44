/** The natural-deduction solver (solver.cpp): the registry of premises,
    each with the list of its instance nodes, on top of the proof tree, and
    the application of a rule followed by the insertion of its formula. The
    renaming counter that substitution draws fresh names from, a static
    member in the source, is part of the state here. */
module Solver {
  import opened Wrappers
  import opened Formulas
  import opened ProofTree
  import opened Rules

  datatype State = State(tree: Tree, premises: map<ID, Premise>, premiseCounter: nat, renaming: nat)

  const Initial := State(EmptyTree, map[], 0, 0)

  /** The instance lists and the tree agree: every listed instance is a
      premise node of that premise with the premise's formula, and every
      premise node of the tree is listed by its premise. Premise IDs run
      from 1 to the counter. */
  predicate Consistent(s: State)
  {
    && Valid(s.tree)
    && (forall p :: p in s.premises ==> 0 < p <= s.premiseCounter && s.premises[p].id == p)
    && (forall p :: p in s.premises ==> InstancesAgree(s, p))
    && (forall a :: a in s.tree.nodes && s.tree.nodes[a].kind.PremiseNode? ==> Registered(s, a))
  }

  /** Every instance of premise `p` is a premise node of `p` carrying its
      formula. */
  predicate InstancesAgree(s: State, p: ID)
    requires p in s.premises
  {
    forall k :: 0 <= k < |s.premises[p].instances| ==>
      var a := s.premises[p].instances[k];
      && a in s.tree.nodes && s.tree.nodes[a].kind.PremiseNode?
      && s.tree.nodes[a].kind.premise == p
      && s.tree.nodes[a].formula == s.premises[p].formula
  }

  /** Premise node `a` belongs to a registered premise that lists it. */
  predicate Registered(s: State, a: ID)
    requires a in s.tree.nodes && s.tree.nodes[a].kind.PremiseNode?
  {
    var p := s.tree.nodes[a].kind.premise;
    p in s.premises && a in s.premises[p].instances
  }

  /** `AddPremise`: registers the formula under the next premise ID and
      adds its first instance to the tree; returns both IDs. */
  function AddPremise(s: State, f: Formula): (r: (State, ID, ID))
    requires Consistent(s)
    ensures Consistent(r.0)
    ensures r.1 !in s.premises && r.0.premises.Keys == s.premises.Keys + {r.1}
    ensures r.0.premises[r.1] == Premise(r.1, f, [r.2])
    ensures forall p :: p in s.premises ==> r.0.premises[p] == s.premises[p]
    ensures r.2 !in s.tree.nodes && AlivePremise(r.0.tree, r.2, r.1) && Extends(s.tree, r.0.tree)
  {
    var pid := s.premiseCounter + 1;
    var (tree, nid) := AddPremiseNode(s.tree, pid, f);
    var r := State(tree, s.premises[pid := Premise(pid, f, [nid])], pid, s.renaming);
    AddInstanceConsistent(s, r, pid, nid);
    (r, pid, nid)
  }

  /** `DuplicatePremise`: a further alive instance of a registered premise,
      appended to its instance list. The source indexes the premise map
      with `operator[]`, which for a missing ID yields a null premise that
      is then dereferenced; callers check the ID first. */
  function DuplicatePremise(s: State, p: ID): (r: (State, ID))
    requires Consistent(s) && p in s.premises
    ensures Consistent(r.0)
    ensures r.0.premises.Keys == s.premises.Keys
    ensures r.0.premises[p].instances == s.premises[p].instances + [r.1]
    ensures forall q :: q in s.premises && q != p ==> r.0.premises[q] == s.premises[q]
    ensures r.1 !in s.tree.nodes && AlivePremise(r.0.tree, r.1, p) && Extends(s.tree, r.0.tree)
    ensures r.0.tree.nodes[r.1].formula == s.premises[p].formula
  {
    var pr := s.premises[p];
    var (tree, nid) := AddPremiseNode(s.tree, p, pr.formula);
    var r := State(tree, s.premises[p := pr.(instances := pr.instances + [nid])], s.premiseCounter, s.renaming);
    AddInstanceConsistent(s, r, p, nid);
    (r, nid)
  }

  /** `GetAllPremisesEliminated`: every instance of every premise has been
      eliminated. */
  predicate AllPremisesEliminated(s: State)
    requires Consistent(s)
  {
    forall p, k :: p in s.premises && 0 <= k < |s.premises[p].instances| ==>
      Eliminated(s, p, k)
  }

  predicate Eliminated(s: State, p: ID, k: nat)
    requires Consistent(s) && p in s.premises && k < |s.premises[p].instances|
  {
    assert InstancesAgree(s, p);
    s.tree.nodes[s.premises[p].instances[k]].kind.eliminated
  }

  /** The IDs of the unresolved nodes from 1 to `n`, increasing: the order in
      which the source's ordered node map visits them. */
  function UnresolvedIds(t: Tree, n: nat): (r: seq<ID>)
    requires Valid(t) && n <= t.counter
    ensures forall i, j :: 0 <= i < j < |r| ==> r[i] < r[j]
    ensures forall a :: a in r <==> 0 < a <= n && a in t.nodes && !t.nodes[a].resolved
  {
    if n == 0 then []
    else
      var rest := UnresolvedIds(t, n - 1);
      assert n in t.nodes;
      assert forall i :: 0 <= i < |rest| ==> rest[i] in rest;
      assert forall a :: a in rest ==> a < n;
      if t.nodes[n].resolved then rest else rest + [n]
  }

  /** The formulas of the unresolved nodes with IDs 1 to `n`: one entry per
      node, in ID order. */
  function Pending(t: Tree, n: nat): (r: seq<Formula>)
    requires Valid(t) && n <= t.counter
    ensures |r| == |UnresolvedIds(t, n)|
    ensures forall k :: 0 <= k < |r| ==> r[k] == t.nodes[UnresolvedIds(t, n)[k]].formula
    ensures forall f :: f in r <==> exists a :: 0 < a <= n && a in t.nodes && !t.nodes[a].resolved && t.nodes[a].formula == f
  {
    if n == 0 then []
    else
      var rest := Pending(t, n - 1);
      assert n in t.nodes;
      if t.nodes[n].resolved then rest else rest + [t.nodes[n].formula]
  }

  /** `GetDerivedFormulas`: nothing while a premise instance is alive,
      otherwise the formulas of all unresolved nodes, one per node, in ID
      order. */
  function DerivedFormulas(s: State): (r: Option<seq<Formula>>)
    requires Consistent(s)
    ensures r.Some? <==> AllPremisesEliminated(s)
    ensures r.Some? ==>
      var ids := UnresolvedIds(s.tree, s.tree.counter);
      && |r.value| == |ids|
      && (forall k :: 0 <= k < |ids| ==> r.value[k] == s.tree.nodes[ids[k]].formula)
    ensures r.Some? ==> forall f :: f in r.value <==>
      exists a :: a in s.tree.nodes && !s.tree.nodes[a].resolved && s.tree.nodes[a].formula == f
  {
    if !AllPremisesEliminated(s) then None else Some(Pending(s.tree, s.tree.counter))
  }

  /** `ApplyRule`: applies the rule; on success adds its formula as a new
      node whose inputs are the rule's input nodes and returns the node's
      ID, otherwise returns the rule's error with the tree and the premises
      unchanged (the renaming counter may still have advanced). */
  function ApplyRule(s: State, rule: Rule, args: Args): (r: (State, Result<ID, Error>))
    requires Consistent(s) && WellFormed(s.tree, rule, args)
    ensures Consistent(r.0) && Extends(s.tree, r.0.tree)
    ensures r.0.premises == s.premises && r.0.premiseCounter == s.premiseCounter
    ensures r.1.Failure? ==> r.0.tree == s.tree
    ensures r.1.Success? ==>
      && r.1.value !in s.tree.nodes && r.0.tree.nodes.Keys == s.tree.nodes.Keys + {r.1.value}
      && r.0.tree.nodes[r.1.value].inputs == args.nodes
      && !r.0.tree.nodes[r.1.value].resolved
      && (forall k :: 0 <= k < |args.nodes| ==> r.0.tree.nodes[args.nodes[k]].resolved)
  {
    var (t1, o, c1) := Apply(s.tree, rule, args, s.renaming);
    if o.Rejected? then (s.(renaming := c1), Failure(o.error))
    else
      var (r, id) := Record(s, t1, args.nodes, o.formula, c1);
      (r, Success(id))
  }

  /** The second half of `ApplyRule`: the marked tree `t` receives the
      derived formula as a node below the input nodes. */
  function Record(s: State, t: Tree, inputs: seq<ID>, f: Formula, c: nat): (r: (State, ID))
    requires Consistent(s) && Valid(t) && Extends(s.tree, t) && t.nodes.Keys == s.tree.nodes.Keys
    requires forall k :: 0 <= k < |inputs| ==> inputs[k] in t.nodes && t.nodes[inputs[k]].resolved
    ensures Consistent(r.0) && Extends(s.tree, r.0.tree)
    ensures r.0.premises == s.premises && r.0.premiseCounter == s.premiseCounter && r.0.renaming == c
    ensures r.1 !in s.tree.nodes && r.0.tree.nodes.Keys == s.tree.nodes.Keys + {r.1}
    ensures r.0.tree.nodes[r.1].inputs == inputs && r.0.tree.nodes[r.1].formula == f
    ensures !r.0.tree.nodes[r.1].resolved
    ensures forall k :: 0 <= k < |inputs| ==> r.0.tree.nodes[inputs[k]].resolved
  {
    var (t2, id) := AddFormulaNode(t, inputs, f);
    var r := s.(tree := t2, renaming := c);
    ExtendsTransitive(s.tree, t, t2);
    GrowConsistent(s, r);
    (r, id)
  }

  // ---------------------------------------------------------------------
  // Lemmas
  // ---------------------------------------------------------------------

  lemma InitialConsistent()
    ensures Consistent(Initial)
  {
  }

  /** Adding a premise node `a` of premise `p` and appending it to `p`'s
      instance list keeps the registry consistent. */
  lemma AddInstanceConsistent(s: State, r: State, p: ID, a: ID)
    requires Consistent(s) && Valid(r.tree) && Extends(s.tree, r.tree)
    requires a !in s.tree.nodes && r.tree.nodes.Keys == s.tree.nodes.Keys + {a}
    requires r.tree.nodes[a].kind == PremiseNode(p, false)
    requires r.premiseCounter >= s.premiseCounter && 0 < p <= r.premiseCounter
    requires r.premises.Keys == s.premises.Keys + {p}
    requires forall q :: q in s.premises && q != p ==> r.premises[q] == s.premises[q]
    requires r.premises[p].id == p && r.premises[p].formula == r.tree.nodes[a].formula
    requires p in s.premises ==>
      r.premises[p].instances == s.premises[p].instances + [a] && r.premises[p].formula == s.premises[p].formula
    requires p !in s.premises ==> r.premises[p].instances == [a]
    ensures Consistent(r)
  {
    forall q | q in r.premises ensures InstancesAgree(r, q) {
      if q in s.premises {
        assert InstancesAgree(s, q);
      }
      if q == p {
        forall k | 0 <= k < |r.premises[p].instances| ensures
          var b := r.premises[p].instances[k];
          b in r.tree.nodes && r.tree.nodes[b].kind.PremiseNode? && r.tree.nodes[b].kind.premise == p
          && r.tree.nodes[b].formula == r.premises[p].formula
        {
          if k < |r.premises[p].instances| - 1 {
            assert p in s.premises && r.premises[p].instances[k] == s.premises[p].instances[k];
          }
        }
      }
    }
    forall b | b in r.tree.nodes && r.tree.nodes[b].kind.PremiseNode? ensures Registered(r, b) {
      if b != a {
        assert Registered(s, b);
      }
    }
  }

  /** A tree that grew by flags and derived nodes only keeps the registry
      consistent. */
  lemma GrowConsistent(s: State, r: State)
    requires Consistent(s) && Valid(r.tree) && Extends(s.tree, r.tree)
    requires r.premises == s.premises && r.premiseCounter == s.premiseCounter
    requires forall a :: a in r.tree.nodes && a !in s.tree.nodes ==> r.tree.nodes[a].kind.DerivedNode?
    ensures Consistent(r)
  {
    forall q | q in r.premises ensures InstancesAgree(r, q) {
      assert InstancesAgree(s, q);
    }
    forall b | b in r.tree.nodes && r.tree.nodes[b].kind.PremiseNode? ensures Registered(r, b) {
      assert Registered(s, b);
    }
  }

  /** All premises are eliminated exactly when the tree holds no alive
      premise node at all. */
  lemma AllEliminatedIffNoAlive(s: State)
    requires Consistent(s)
    ensures AllPremisesEliminated(s) <==> forall a :: a in s.tree.nodes ==> !AliveInstance(s.tree, a)
  {
    if AllPremisesEliminated(s) {
      forall a | a in s.tree.nodes ensures !AliveInstance(s.tree, a) {
        if s.tree.nodes[a].kind.PremiseNode? {
          assert Registered(s, a);
          var p := s.tree.nodes[a].kind.premise;
          var k :| 0 <= k < |s.premises[p].instances| && s.premises[p].instances[k] == a;
          assert Eliminated(s, p, k);
        }
      }
    }
    if forall a :: a in s.tree.nodes ==> !AliveInstance(s.tree, a) {
      forall p, k | p in s.premises && 0 <= k < |s.premises[p].instances| ensures Eliminated(s, p, k) {
        assert InstancesAgree(s, p);
        assert !AliveInstance(s.tree, s.premises[p].instances[k]);
      }
    }
  }
}
