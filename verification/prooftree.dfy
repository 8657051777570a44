/** The natural-deduction proof tree (solvertree.h, solvertree.cpp): nodes
    numbered from 1 in the order they are created, premise nodes (instances
    of a registered premise, which can be eliminated) and derived nodes
    (produced by a rule from input nodes, which are then resolved). The
    source's shared pointers become node IDs into one map; the tree is a
    value, and every operation returns the new tree. */
module ProofTree {
  import opened Wrappers
  import opened Formulas

  /** `ND::ID`, an unsigned 64-bit counter in the source. */
  type ID = nat

  /** A premise node records which premise it instantiates and whether it
      has been eliminated; a derived node records nothing more. */
  datatype Kind = PremiseNode(premise: ID, eliminated: bool) | DerivedNode

  /** `SolverTreeNodeBase`: the formula, the resolved flag, the input nodes
      it was derived from and the node it was last used to derive. */
  datatype Node = Node(formula: Formula, resolved: bool, inputs: seq<ID>, output: Option<ID>, kind: Kind)

  /** `SolverTree`: the nodes by ID and the last ID handed out. */
  datatype Tree = Tree(nodes: map<ID, Node>, counter: nat)

  const EmptyTree := Tree(map[], 0)

  /** The node is an instance of premise `p` that is still alive. */
  predicate AlivePremise(t: Tree, id: ID, p: ID)
  {
    id in t.nodes && t.nodes[id].kind.PremiseNode? && !t.nodes[id].kind.eliminated && t.nodes[id].kind.premise == p
  }

  /** The node is a premise node, of any premise, that is still alive. */
  predicate AliveInstance(t: Tree, id: ID)
  {
    id in t.nodes && t.nodes[id].kind.PremiseNode? && !t.nodes[id].kind.eliminated
  }

  /** Every input of node `id` was created before it. */
  predicate InputsBefore(t: Tree, id: ID)
    requires id in t.nodes
  {
    forall k :: 0 <= k < |t.nodes[id].inputs| ==> 0 < t.nodes[id].inputs[k] < id
  }

  /** The shape the two insertion operations build: the IDs in use are
      exactly 1 to the counter, a node's inputs are older nodes, and premise
      nodes have no inputs. */
  predicate Valid(t: Tree)
  {
    && (forall id :: id in t.nodes ==> 0 < id <= t.counter)
    && (forall id: nat :: 0 < id <= t.counter ==> id in t.nodes)
    && (forall id :: id in t.nodes ==> InputsBefore(t, id))
    && (forall id :: id in t.nodes && t.nodes[id].kind.PremiseNode? ==> t.nodes[id].inputs == [])
  }

  /** `AddPremiseNode`: a new unresolved, alive instance of premise `p`
      carrying the premise's formula, under the next ID. Nodes already in
      the tree are untouched. */
  function AddPremiseNode(t: Tree, p: ID, f: Formula): (r: (Tree, ID))
    ensures r.1 !in t.nodes || !Valid(t)
    ensures r.0.nodes.Keys == t.nodes.Keys + {r.1}
    ensures AlivePremise(r.0, r.1, p) && r.0.nodes[r.1].formula == f && !r.0.nodes[r.1].resolved
    ensures forall id :: id in t.nodes && id != r.1 ==> r.0.nodes[id] == t.nodes[id]
    ensures Valid(t) ==> Valid(r.0) && Extends(t, r.0)
  {
    var id := t.counter + 1;
    (Tree(t.nodes[id := Node(f, false, [], None, PremiseNode(p, false))], id), id)
  }

  /** The parents' output links, all set to `child`. */
  function LinkOutputs(nodes: map<ID, Node>, parents: seq<ID>, child: ID): (r: map<ID, Node>)
    ensures r.Keys == nodes.Keys
    ensures forall id :: id in nodes ==>
      r[id] == if id in parents then nodes[id].(output := Some(child)) else nodes[id]
  {
    if parents == [] then nodes
    else
      var rest := LinkOutputs(nodes, parents[1..], child);
      if parents[0] in rest then rest[parents[0] := rest[parents[0]].(output := Some(child))] else rest
  }

  /** `AddFormulaNode`: a new unresolved derived node with the given input
      nodes, which must already be resolved; each input's output link points
      to the new node, and nothing else changes. */
  function AddFormulaNode(t: Tree, parents: seq<ID>, f: Formula): (r: (Tree, ID))
    requires Valid(t)
    requires forall k :: 0 <= k < |parents| ==> parents[k] in t.nodes && t.nodes[parents[k]].resolved
    ensures r.1 !in t.nodes && r.0.nodes.Keys == t.nodes.Keys + {r.1}
    ensures var n := r.0.nodes[r.1];
      n.formula == f && !n.resolved && n.inputs == parents && n.kind.DerivedNode? && n.output.None?
    ensures forall id :: id in t.nodes ==>
      r.0.nodes[id] == if id in parents then t.nodes[id].(output := Some(r.1)) else t.nodes[id]
    ensures Valid(r.0) && Extends(t, r.0)
  {
    var id := t.counter + 1;
    var linked := LinkOutputs(t.nodes, parents, id);
    var r := Tree(linked[id := Node(f, false, parents, None, DerivedNode)], id);
    ExtendValid(t, r);
    (r, id)
  }

  /** `Resolve` on each listed node. */
  function ResolveNodes(t: Tree, ids: set<ID>): (r: Tree)
    ensures r.counter == t.counter && r.nodes.Keys == t.nodes.Keys
    ensures forall id :: id in t.nodes ==>
      && r.nodes[id].resolved == (t.nodes[id].resolved || id in ids)
      && r.nodes[id] == t.nodes[id].(resolved := r.nodes[id].resolved)
  {
    Tree(map id | id in t.nodes :: if id in ids then t.nodes[id].(resolved := true) else t.nodes[id], t.counter)
  }

  /** `Eliminate` on each listed premise node; derived nodes have no flag. */
  function EliminateNodes(t: Tree, ids: set<ID>): (r: Tree)
    ensures r.counter == t.counter && r.nodes.Keys == t.nodes.Keys
    ensures forall id :: id in t.nodes && t.nodes[id].kind.DerivedNode? ==> r.nodes[id] == t.nodes[id]
    ensures forall id :: id in t.nodes && t.nodes[id].kind.PremiseNode? ==>
      r.nodes[id] == t.nodes[id].(kind := t.nodes[id].kind.(eliminated := t.nodes[id].kind.eliminated || id in ids))
  {
    var nodes := map id | id in t.nodes ::
      var n := t.nodes[id];
      if id in ids && n.kind.PremiseNode? then n.(kind := n.kind.(eliminated := true)) else n;
    Tree(nodes, t.counter)
  }

  /** Adding one derived node whose inputs are older nodes, and changing
      nothing but output links, keeps a tree valid and extends it. */
  lemma ExtendValid(t: Tree, r: Tree)
    requires Valid(t) && r.counter == t.counter + 1 && r.nodes.Keys == t.nodes.Keys + {r.counter}
    requires forall i :: i in t.nodes ==> r.nodes[i] == t.nodes[i].(output := r.nodes[i].output)
    requires r.nodes[r.counter].kind.DerivedNode? && InputsBefore(r, r.counter)
    ensures Valid(r) && Extends(t, r)
  {
    forall i | i in r.nodes
      ensures 0 < i <= r.counter && InputsBefore(r, i)
      ensures r.nodes[i].kind.PremiseNode? ==> r.nodes[i].inputs == []
    {
      if i != r.counter {
        assert InputsBefore(t, i);
      }
    }
  }

  /** `t2` grew out of `t1`: every node of `t1` is still there with the
      same formula, inputs and kind, and its flags have only been set. */
  predicate Extends(t1: Tree, t2: Tree)
  {
    && t1.nodes.Keys <= t2.nodes.Keys
    && forall i :: i in t1.nodes ==> Grown(t1.nodes[i], t2.nodes[i])
  }

  /** Growth composes: flags set in two steps were set overall. */
  lemma ExtendsTransitive(t1: Tree, t2: Tree, t3: Tree)
    requires Extends(t1, t2) && Extends(t2, t3)
    ensures Extends(t1, t3)
  {
  }

  /** One node before and after: flags only set, nothing else but the
      output link changed. */
  predicate Grown(a: Node, b: Node)
  {
    && b.formula == a.formula && b.inputs == a.inputs
    && (a.resolved ==> b.resolved)
    && (a.kind.DerivedNode? ==> b.kind.DerivedNode?)
    && (a.kind.PremiseNode? ==>
          b.kind.PremiseNode? && b.kind.premise == a.kind.premise && (a.kind.eliminated ==> b.kind.eliminated))
  }

  // ---------------------------------------------------------------------
  // The ancestor search
  // ---------------------------------------------------------------------

  /** `GetAlivePremiseAncestors`: a depth-first walk up the input links
      from `id`, collecting every leaf that is an alive instance of premise
      `p`, in visiting order (a node reached twice is listed twice). A leaf
      that is a derived node (a True-introduction) contributes nothing. */
  function AlivePremiseAncestors(t: Tree, id: ID, p: ID): (r: seq<ID>)
    requires Valid(t) && id in t.nodes
    ensures forall k :: 0 <= k < |r| ==> AlivePremise(t, r[k], p)
    decreases id, 1, 0
  {
    var n := t.nodes[id];
    if n.inputs == [] then
      if AlivePremise(t, id, p) then [id] else []
    else
      AlivePremiseAncestorsOf(t, n.inputs, id, p)
  }

  /** The walk over a list of input nodes, all older than `bound`. */
  function AlivePremiseAncestorsOf(t: Tree, ids: seq<ID>, bound: ID, p: ID): (r: seq<ID>)
    requires Valid(t) && forall k :: 0 <= k < |ids| ==> ids[k] in t.nodes && ids[k] < bound
    ensures forall k :: 0 <= k < |r| ==> AlivePremise(t, r[k], p)
    decreases bound, 0, |ids|
  {
    if ids == [] then []
    else AlivePremiseAncestors(t, ids[0], p) + AlivePremiseAncestorsOf(t, ids[1..], bound, p)
  }

  /** Reference definition: `a` is `id` itself or an ancestor of one of its
      inputs. */
  predicate IsAncestor(t: Tree, a: ID, id: ID)
    requires Valid(t) && id in t.nodes
    decreases id
  {
    a == id || exists k :: 0 <= k < |t.nodes[id].inputs| && IsAncestor(t, a, t.nodes[id].inputs[k])
  }

  /** Reference definition: the alive instances of `p` among the ancestors
      of `id`, the premise nodes a discharging rule eliminates. */
  function Discharged(t: Tree, id: ID, p: ID): set<ID>
    requires Valid(t) && id in t.nodes
  {
    set a | a in t.nodes && AlivePremise(t, a, p) && IsAncestor(t, a, id)
  }

  /** `id` has an ancestor that is a derived node without inputs: the node
      of a True-introduction. */
  predicate DerivedLeafAbove(t: Tree, id: ID)
    requires Valid(t) && id in t.nodes
  {
    exists a :: a in t.nodes && IsAncestor(t, a, id) && t.nodes[a].inputs == [] && t.nodes[a].kind.DerivedNode?
  }

  /** The walk of `GetAlivePremiseAncestors` as written: every node without
      inputs is cast to a premise node and dereferenced, so reaching a
      derived leaf dereferences a null pointer, shown as `None`. When the
      walk does return it agrees with `AlivePremiseAncestors`. */
  function AncestorsAsWritten(t: Tree, id: ID, p: ID): (r: Option<seq<ID>>)
    requires Valid(t) && id in t.nodes
    ensures r.Some? ==> r.value == AlivePremiseAncestors(t, id, p)
    ensures r.None? <==> DerivedLeafAbove(t, id)
    decreases id, 1, 0
  {
    var n := t.nodes[id];
    if n.inputs == [] then
      assert forall a :: IsAncestor(t, a, id) <==> a == id;
      if n.kind.DerivedNode? then None
      else if AlivePremise(t, id, p) then Some([id]) else Some([])
    else
      assert InputsBefore(t, id);
      var r := AncestorsOfAsWritten(t, n.inputs, id, p);
      LeafAboveInputs(t, id);
      r
  }

  /** The as-written walk over a list of input nodes. */
  function AncestorsOfAsWritten(t: Tree, ids: seq<ID>, bound: ID, p: ID): (r: Option<seq<ID>>)
    requires Valid(t) && forall k :: 0 <= k < |ids| ==> ids[k] in t.nodes && ids[k] < bound
    ensures r.Some? ==> r.value == AlivePremiseAncestorsOf(t, ids, bound, p)
    ensures r.None? <==> exists k :: 0 <= k < |ids| && DerivedLeafAbove(t, ids[k])
    decreases bound, 0, |ids|
  {
    if ids == [] then Some([])
    else
      var head := AncestorsAsWritten(t, ids[0], p);
      var tail := AncestorsOfAsWritten(t, ids[1..], bound, p);
      assert forall k :: 1 <= k < |ids| ==> ids[k] == ids[1..][k - 1];
      if head.None? || tail.None? then None else Some(head.value + tail.value)
  }

  // ---------------------------------------------------------------------
  // Lemmas
  // ---------------------------------------------------------------------

  lemma {:induction false} AncestorsOfMembers(t: Tree, ids: seq<ID>, bound: ID, p: ID, a: ID)
    requires Valid(t) && forall k :: 0 <= k < |ids| ==> ids[k] in t.nodes && ids[k] < bound
    ensures a in AlivePremiseAncestorsOf(t, ids, bound, p) <==>
      AlivePremise(t, a, p) && exists k :: 0 <= k < |ids| && IsAncestor(t, a, ids[k])
    decreases bound, 0, |ids|
  {
    if ids != [] {
      AncestorsMembers(t, ids[0], p, a);
      AncestorsOfMembers(t, ids[1..], bound, p, a);
      if AlivePremise(t, a, p) && IsAncestor(t, a, ids[0]) {
        assert 0 < |ids| && IsAncestor(t, a, ids[0]);
      }
      if AlivePremise(t, a, p) && (exists k :: 0 <= k < |ids[1..]| && IsAncestor(t, a, ids[1..][k])) {
        var k :| 0 <= k < |ids[1..]| && IsAncestor(t, a, ids[1..][k]);
        assert ids[k + 1] == ids[1..][k];
      }
      if exists k :: 0 <= k < |ids| && IsAncestor(t, a, ids[k]) {
        var k :| 0 <= k < |ids| && IsAncestor(t, a, ids[k]);
        if k > 0 {
          assert ids[1..][k - 1] == ids[k];
        }
      }
    }
  }

  /** The search finds exactly the alive instances of `p` among the
      ancestors of `id`: premise nodes are the only leaves it reports. */
  lemma {:induction false} AncestorsMembers(t: Tree, id: ID, p: ID, a: ID)
    requires Valid(t) && id in t.nodes
    ensures a in AlivePremiseAncestors(t, id, p) <==> AlivePremise(t, a, p) && IsAncestor(t, a, id)
    decreases id, 1, 0
  {
    var n := t.nodes[id];
    assert InputsBefore(t, id);
    if n.inputs == [] {
      assert IsAncestor(t, a, id) <==> a == id;
    } else {
      AncestorsOfMembers(t, n.inputs, id, p, a);
      assert a == id ==> !AlivePremise(t, a, p);
    }
  }

  /** The nodes the search lists, as a set, are exactly the discharged ones. */
  lemma AncestorsDischarged(t: Tree, id: ID, p: ID)
    requires Valid(t) && id in t.nodes
    ensures forall a :: a in AlivePremiseAncestors(t, id, p) <==> a in Discharged(t, id, p)
  {
    forall a ensures a in AlivePremiseAncestors(t, id, p) <==> a in Discharged(t, id, p) {
      AncestorsMembers(t, id, p, a);
    }
  }

  /** A derived leaf is above a node with inputs exactly when it is above
      one of them. */
  lemma LeafAboveInputs(t: Tree, id: ID)
    requires Valid(t) && id in t.nodes && t.nodes[id].inputs != []
    ensures InputsBefore(t, id)
    ensures DerivedLeafAbove(t, id) <==>
      exists k :: 0 <= k < |t.nodes[id].inputs| && DerivedLeafAbove(t, t.nodes[id].inputs[k])
  {
    var ins := t.nodes[id].inputs;
    assert InputsBefore(t, id);
    if DerivedLeafAbove(t, id) {
      var a :| a in t.nodes && IsAncestor(t, a, id) && t.nodes[a].inputs == [] && t.nodes[a].kind.DerivedNode?;
      var k :| 0 <= k < |ins| && IsAncestor(t, a, ins[k]);
      assert DerivedLeafAbove(t, ins[k]);
    }
    if exists k :: 0 <= k < |ins| && DerivedLeafAbove(t, ins[k]) {
      var k :| 0 <= k < |ins| && DerivedLeafAbove(t, ins[k]);
      var a :| a in t.nodes && IsAncestor(t, a, ins[k]) && t.nodes[a].inputs == [] && t.nodes[a].kind.DerivedNode?;
      assert IsAncestor(t, a, id);
    }
  }

  /** Changing only flags keeps a tree valid. */
  lemma FlagsKeepValid(t: Tree, r: Tree)
    requires Valid(t) && r.counter == t.counter && r.nodes.Keys == t.nodes.Keys
    requires forall i :: i in t.nodes ==>
      r.nodes[i].inputs == t.nodes[i].inputs && r.nodes[i].kind.PremiseNode? == t.nodes[i].kind.PremiseNode?
    ensures Valid(r)
  {
    forall i | i in r.nodes ensures InputsBefore(r, i) {
      assert InputsBefore(t, i);
    }
  }

  /** Eliminating and then resolving keeps the tree valid, sets the
      requested flags and only those. */
  lemma MarkNodes(t: Tree, elim: set<ID>, res: set<ID>)
    requires Valid(t)
    ensures var r := ResolveNodes(EliminateNodes(t, elim), res);
      && Valid(r) && Extends(t, r) && r.counter == t.counter && r.nodes.Keys == t.nodes.Keys
      && (forall i :: i in res && i in t.nodes ==> r.nodes[i].resolved)
      && (forall i :: i in elim && i in t.nodes && t.nodes[i].kind.PremiseNode? ==> r.nodes[i].kind.eliminated)
      && (forall i :: i in t.nodes && i !in res && i !in elim ==> r.nodes[i] == t.nodes[i])
  {
    var t1 := EliminateNodes(t, elim);
    FlagsKeepValid(t, t1);
    var t2 := ResolveNodes(t1, res);
    FlagsKeepValid(t1, t2);
    forall i | i in t.nodes ensures Grown(t.nodes[i], t2.nodes[i]) {
      assert t2.nodes[i] == t1.nodes[i].(resolved := t2.nodes[i].resolved);
    }
  }

  /** The tree built by no insertion at all is valid. */
  lemma EmptyTreeValid()
    ensures Valid(EmptyTree)
  {
  }
}
