/**
 * Structural edits of the node graph in backend/database.py: shallow and
 * recursive deletion, and moving a node to a new place among its siblings.
 * Sibling chains are doubly linked through `prev`/`next`; a container's
 * `child` is the head of its children's chain.
 */
module NodeTree {
  import opened Wrappers
  import opened Values
  import opened NodeEntity
  import opened ReferenceEntity
  import opened Components
  import opened Registry
  import opened Database
  import opened RefCounting

  // ---- delete_node ----------------------------------------------------------

  /**
   * `delete_node`: remove the node and, when its `ref_id` is non-zero, its
   * reference (through `delete_reference`). Neighbours are not repaired.
   */
  function DeleteNode(s: Store, nodeId: Id, now: string): (r: (Store, bool))
    ensures r.1 <==> nodeId in s.nodes
    ensures !r.1 ==> r.0 == s
    ensures r.1 ==> r.0.nodes == s.nodes - {nodeId}
    ensures r.1 && s.nodes[nodeId].refId != 0 ==>
      r.0.references == s.references - {s.nodes[nodeId].refId}
    ensures r.1 && s.nodes[nodeId].refId == 0 ==> r.0.references == s.references
  {
    match LoadNode(s, nodeId)
    case None => (s, false)
    case Some(n) =>
      var s1 := if n.refId != 0 then DeleteReference(s, n.refId, now).0 else s;
      (s1.(nodes := s1.nodes - {nodeId}), true)
  }

  /** Deleting a node leaves every other node, and every component's body, as it was. */
  lemma DeleteNodeShrinks(s: Store, nodeId: Id, now: string)
    requires WellKeyed(s)
    ensures var s' := DeleteNode(s, nodeId, now).0;
      Shrinks(s, s') && WellKeyed(s')
  {
    if nodeId in s.nodes {
      var n := s.nodes[nodeId];
      var s1 := if n.refId != 0 then DeleteReference(s, n.refId, now).0 else s;
      if n.refId != 0 { DeleteReferenceShrinks(s, n.refId, now); }
      assert Shrinks(s, s1) && WellKeyed(s1);
      SubStoreShape(s, s1, DeleteNode(s, nodeId, now).0);
    }
  }

  /** Deleting a node keeps reference counts exact. */
  lemma DeleteNodeKeepsCountsExact(s: Store, nodeId: Id, now: string)
    requires Counted(s)
    ensures var s' := DeleteNode(s, nodeId, now).0;
      Counted(s')
  {
    if nodeId in s.nodes && s.nodes[nodeId].refId != 0 {
      var refId := s.nodes[nodeId].refId;
      DeleteReferenceKeepsCountsExact(s, refId, now);
      var s1 := DeleteReference(s, refId, now).0;
      var s' := DeleteNode(s, nodeId, now).0;
      assert s'.components == s1.components && s'.references == s1.references;
      assert s'.nodes == s1.nodes - {nodeId};
    }
  }

  // ---- _delete_node_tree ------------------------------------------------------

  /**
   * The head of the child chain a node's reference leads to: only a truthy
   * `ref_id` is followed, and only a container with a truthy child has one.
   */
  function ChildHead(s: Store, refId: Id): (r: Option<Id>)
    ensures r.Some? ==> r.value != 0
  {
    if refId == 0 then None
    else match LoadReference(s, refId)
      case None => None
      case Some(ref) =>
        match LoadComponentById(s, ref.compId)
        case None => None
        case Some(c) => if IsContainer(c.body) && Truthy(c.body.child) then c.body.child else None
  }

  /**
   * `_delete_node_tree`: first the rest of the sibling chain, then the child
   * chain of the node's container (looked up again after the first step), and
   * last the node itself. The source recurses without a guard, so a cyclic or
   * very deep structure ends in Python's recursion error; `fuel` is the
   * recursion depth left. The flag says whether the call finished. Once a
   * nested call runs out, the error propagates: every pending step of the
   * calls above it is skipped, and the deletions already made stay made.
   */
  function DeleteNodeTree(s: Store, nodeId: Id, now: string, fuel: nat): (r: (Store, bool))
    ensures r.1 ==> nodeId !in r.0.nodes
    ensures fuel > 0 && nodeId !in s.nodes ==> r == (s, true)
    ensures r.0.nodes.Keys <= s.nodes.Keys
    decreases fuel, 1
  {
    if fuel == 0 then (s, false)
    else match LoadNode(s, nodeId)
      case None => (s, true)
      case Some(n) =>
        var r1 := DeleteSiblings(s, n, now, fuel - 1);
        if !r1.1 then r1
        else DeleteRest(r1.0, n, nodeId, now, fuel - 1)
  }

  /** The first step: the rest of `n`'s sibling chain. */
  function DeleteSiblings(s: Store, n: Node, now: string, fuel: nat): (r: (Store, bool))
    ensures r.0.nodes.Keys <= s.nodes.Keys
    ensures r.1 && Truthy(n.next) ==> n.next.value !in r.0.nodes
    decreases fuel, 2
  {
    if Truthy(n.next) then DeleteNodeTree(s, n.next.value, now, fuel) else (s, true)
  }

  /** The second and third steps, run once the first has finished. */
  function DeleteRest(s: Store, n: Node, nodeId: Id, now: string, fuel: nat): (r: (Store, bool))
    ensures r.0.nodes.Keys <= s.nodes.Keys
    ensures r.1 ==> nodeId !in r.0.nodes
    decreases fuel, 3
  {
    var r2 := DeleteChildren(s, n, now, fuel);
    if !r2.1 then r2
    else (DeleteNode(r2.0, nodeId, now).0, true)
  }

  /** The second step: the child chain of `n`'s container, looked up in the current store. */
  function DeleteChildren(s: Store, n: Node, now: string, fuel: nat): (r: (Store, bool))
    ensures r.0.nodes.Keys <= s.nodes.Keys
    decreases fuel, 2
  {
    match ChildHead(s, n.refId)
    case None => (s, true)
    case Some(h) => DeleteNodeTree(s, h, now, fuel)
  }

  /**
   * Any property of stores that `delete_node` keeps, recursive deletion keeps
   * too, whether it finishes or stops early.
   */
  lemma {:induction false} DeleteNodeTreeKeeps(inv: Store -> bool, s: Store, nodeId: Id, now: string, fuel: nat)
    requires forall t: Store, id: Id :: inv(t) ==> inv(DeleteNode(t, id, now).0)
    requires inv(s)
    ensures inv(DeleteNodeTree(s, nodeId, now, fuel).0)
    decreases fuel, 1
  {
    if fuel > 0 && nodeId in s.nodes {
      var n := s.nodes[nodeId];
      DeleteSiblingsKeeps(inv, s, n, now, fuel - 1);
      var r1 := DeleteSiblings(s, n, now, fuel - 1);
      if r1.1 { DeleteRestKeeps(inv, r1.0, n, nodeId, now, fuel - 1); }
    }
  }

  lemma {:induction false} DeleteRestKeeps(inv: Store -> bool, s: Store, n: Node, nodeId: Id, now: string, fuel: nat)
    requires forall t: Store, id: Id :: inv(t) ==> inv(DeleteNode(t, id, now).0)
    requires inv(s)
    ensures inv(DeleteRest(s, n, nodeId, now, fuel).0)
    decreases fuel, 3
  {
    DeleteChildrenKeeps(inv, s, n, now, fuel);
  }

  lemma {:induction false} DeleteSiblingsKeeps(inv: Store -> bool, s: Store, n: Node, now: string, fuel: nat)
    requires forall t: Store, id: Id :: inv(t) ==> inv(DeleteNode(t, id, now).0)
    requires inv(s)
    ensures inv(DeleteSiblings(s, n, now, fuel).0)
    decreases fuel, 2
  {
    if Truthy(n.next) { DeleteNodeTreeKeeps(inv, s, n.next.value, now, fuel); }
  }

  lemma {:induction false} DeleteChildrenKeeps(inv: Store -> bool, s: Store, n: Node, now: string, fuel: nat)
    requires forall t: Store, id: Id :: inv(t) ==> inv(DeleteNode(t, id, now).0)
    requires inv(s)
    ensures inv(DeleteChildren(s, n, now, fuel).0)
    decreases fuel, 2
  {
    match ChildHead(s, n.refId)
    case None =>
    case Some(h) => DeleteNodeTreeKeeps(inv, s, h, now, fuel);
  }

  /** `delete_node` keeps "`t` is a well-keyed part of `s`". */
  lemma DeleteNodeStaysWithin(s: Store, now: string)
    ensures forall t: Store, id: Id :: Shrinks(s, t) && WellKeyed(t) ==>
      var t' := DeleteNode(t, id, now).0; Shrinks(s, t') && WellKeyed(t')
  {
    forall t: Store, id: Id | Shrinks(s, t) && WellKeyed(t)
      ensures var t' := DeleteNode(t, id, now).0; Shrinks(s, t') && WellKeyed(t')
    {
      DeleteNodeShrinks(t, id, now);
      ShrinksTransitive(s, t, DeleteNode(t, id, now).0);
    }
  }

  /** Recursive deletion only removes nodes and references; components all survive with their bodies. */
  lemma DeleteNodeTreeShrinks(s: Store, nodeId: Id, now: string, fuel: nat)
    requires WellKeyed(s)
    ensures var s' := DeleteNodeTree(s, nodeId, now, fuel).0;
      Shrinks(s, s') && WellKeyed(s')
  {
    DeleteNodeStaysWithin(s, now);
    DeleteNodeTreeKeeps(t => Shrinks(s, t) && WellKeyed(t), s, nodeId, now, fuel);
  }

  lemma DeleteSiblingsShrinks(s: Store, n: Node, now: string, fuel: nat)
    requires WellKeyed(s)
    ensures var s' := DeleteSiblings(s, n, now, fuel).0;
      Shrinks(s, s') && WellKeyed(s')
  {
    DeleteNodeStaysWithin(s, now);
    DeleteSiblingsKeeps(t => Shrinks(s, t) && WellKeyed(t), s, n, now, fuel);
  }

  lemma ShrinksTransitive(a: Store, b: Store, c: Store)
    requires Shrinks(a, b) && Shrinks(b, c)
    ensures Shrinks(a, c)
  {
  }

  /** Recursive deletion keeps reference counts exact, whether or not it finishes. */
  lemma DeleteNodeTreeKeepsCountsExact(s: Store, nodeId: Id, now: string, fuel: nat)
    requires Counted(s)
    ensures var s' := DeleteNodeTree(s, nodeId, now, fuel).0;
      Counted(s')
  {
    forall t: Store, id: Id | Counted(t) ensures Counted(DeleteNode(t, id, now).0) {
      DeleteNodeKeepsCountsExact(t, id, now);
    }
    DeleteNodeTreeKeeps(t => Counted(t), s, nodeId, now, fuel);
  }

  /** The node `i` steps along the `next` chain from `id`, following truthy pointers only. */
  function NthNext(s: Store, id: Id, i: nat): Option<Id>
    decreases i
  {
    if i == 0 then Some(id)
    else if id in s.nodes && Truthy(s.nodes[id].next) then NthNext(s, s.nodes[id].next.value, i - 1)
    else None
  }

  /** A finished deletion has removed the start node and every node after it in its sibling chain. */
  lemma {:induction false} DeleteNodeTreeRemovesChain(s: Store, nodeId: Id, now: string, fuel: nat, i: nat)
    requires DeleteNodeTree(s, nodeId, now, fuel).1
    requires NthNext(s, nodeId, i).Some?
    ensures NthNext(s, nodeId, i).value !in DeleteNodeTree(s, nodeId, now, fuel).0.nodes
    decreases fuel
  {
    if i > 0 && nodeId in s.nodes {
      var n := s.nodes[nodeId];
      assert Truthy(n.next);
      assert DeleteSiblings(s, n, now, fuel - 1).1;
      DeleteNodeTreeRemovesChain(s, n.next.value, now, fuel - 1, i - 1);
    }
  }

  /** Each reference's child chain head, for the references that lead to one. */
  ghost function Kids(s: Store): map<Id, Id> {
    map r | r in s.references && ChildHead(s, r).Some? :: ChildHead(s, r).value
  }

  lemma KidsAgree(s: Store, r: Id)
    ensures ChildHead(s, r) == if r in Kids(s) then Some(Kids(s)[r]) else None
  {
  }

  /** Every child link of `small` is a child link of `big`. */
  ghost predicate KidsWithin(small: map<Id, Id>, big: map<Id, Id>) {
    forall r | r in small :: r in big && big[r] == small[r]
  }

  /** Every node of `small` is a node of `big`, unchanged. */
  ghost predicate NodesWithin(small: map<Id, Node>, big: map<Id, Node>) {
    forall x | x in small :: x in big && big[x] == small[x]
  }

  /**
   * What can be visited within `fuel` from `id` over the sibling pointers of
   * `nodes` and the child links `kids`: the start, the rest of its sibling
   * chain, and the child chains of the containers those nodes reference.
   */
  ghost function ReachIn(nodes: map<Id, Node>, kids: map<Id, Id>, id: Id, fuel: nat): set<Id>
    decreases fuel
  {
    if fuel == 0 || id !in nodes then {}
    else
      var n := nodes[id];
      {id}
      + (if Truthy(n.next) then ReachIn(nodes, kids, n.next.value, fuel - 1) else {})
      + (if n.refId in kids then ReachIn(nodes, kids, kids[n.refId], fuel - 1) else {})
  }

  /** Every node the recursive deletion could visit within `fuel`. */
  ghost function Reach(s: Store, id: Id, fuel: nat): set<Id> {
    ReachIn(s.nodes, Kids(s), id, fuel)
  }

  /** The truthy child of a loaded container, if any. */
  function ContainerChild(c: Option<Component>): Option<Id> {
    match c
    case None => None
    case Some(c) => if IsContainer(c.body) && Truthy(c.body.child) then c.body.child else None
  }

  lemma ChildHeadOfRef(s: Store, refId: Id)
    requires refId != 0 && refId in s.references
    ensures ChildHead(s, refId) == ContainerChild(LoadComponentById(s, s.references[refId].compId))
  {
  }

  lemma ContainerChildSameComponents(s: Store, t: Store, cid: Id)
    requires SameComponents(s, t)
    ensures ContainerChild(LoadComponentById(s, cid)) == ContainerChild(LoadComponentById(t, cid))
  {
    LoadSameComponents(s, t, cid);
  }

  /** Recounting components changes neither which one the id scan finds nor its body. */
  lemma LoadSameComponents(s: Store, t: Store, cid: Id)
    requires SameComponents(s, t)
    ensures FindComponentKey(s, cid) == FindComponentKey(t, cid)
    ensures LoadComponentById(s, cid).Some? ==>
      LoadComponentById(s, cid).value.body == LoadComponentById(t, cid).value.body
  {
    FirstHitSameKeys(s.components, t.components, cid, ComponentTypes);
  }

  /** A shrunken store finds the same child chain head, when it finds one at all. */
  lemma ChildHeadShrinks(s: Store, t: Store, refId: Id)
    requires Shrinks(s, t)
    ensures ChildHead(t, refId).Some? ==> ChildHead(s, refId) == ChildHead(t, refId)
    ensures refId in t.references ==> ChildHead(s, refId) == ChildHead(t, refId)
  {
    if refId != 0 && refId in t.references {
      var cid := t.references[refId].compId;
      ContainerChildSameComponents(s, t, cid);
      ChildHeadOfRef(s, refId);
      ChildHeadOfRef(t, refId);
    } else {
      assert ChildHead(t, refId) == None;
      assert refId == 0 ==> ChildHead(s, refId) == None;
    }
  }

  /** Deleting records only drops child links. */
  lemma KidsShrink(s: Store, t: Store)
    requires Shrinks(s, t)
    ensures KidsWithin(Kids(t), Kids(s))
  {
    forall r | r in Kids(t)
      ensures r in Kids(s) && Kids(s)[r] == Kids(t)[r]
    {
      ChildHeadShrinks(s, t, r);
    }
  }

  lemma {:induction false} ReachInShrinks(
    n1: map<Id, Node>, k1: map<Id, Id>, n2: map<Id, Node>, k2: map<Id, Id>, id: Id, fuel: nat)
    requires NodesWithin(n2, n1) && KidsWithin(k2, k1)
    ensures ReachIn(n2, k2, id, fuel) <= ReachIn(n1, k1, id, fuel)
    decreases fuel
  {
    if fuel > 0 && id in n2 {
      var n := n2[id];
      if Truthy(n.next) { ReachInShrinks(n1, k1, n2, k2, n.next.value, fuel - 1); }
      if n.refId in k2 { ReachInShrinks(n1, k1, n2, k2, k2[n.refId], fuel - 1); }
    }
  }

  /** Deleting records can only shrink what the deletion could visit. */
  lemma ReachShrinks(s: Store, t: Store, id: Id, fuel: nat)
    requires Shrinks(s, t)
    ensures Reach(t, id, fuel) <= Reach(s, id, fuel)
  {
    KidsShrink(s, t);
    ReachInShrinks(s.nodes, Kids(s), t.nodes, Kids(t), id, fuel);
  }

  /**
   * Nodes the deletion cannot reach survive unchanged — in particular the
   * nodes before the start in its own chain, in a chain without cycles.
   */
  lemma {:induction false} DeleteNodeTreeKeepsUnreached(s: Store, nodeId: Id, now: string, fuel: nat, k: Id)
    requires WellKeyed(s) && k in s.nodes && k !in Reach(s, nodeId, fuel)
    ensures var s' := DeleteNodeTree(s, nodeId, now, fuel).0;
      k in s'.nodes && s'.nodes[k] == s.nodes[k]
    decreases fuel, 1
  {
    if fuel > 0 && nodeId in s.nodes {
      var n := s.nodes[nodeId];
      ReachUnfold(s, nodeId, fuel);
      var r1 := DeleteSiblings(s, n, now, fuel - 1);
      DeleteSiblingsShrinks(s, n, now, fuel - 1);
      if Truthy(n.next) { DeleteNodeTreeKeepsUnreached(s, n.next.value, now, fuel - 1, k); }
      if r1.1 { DeleteRestKeepsUnreached(s, r1.0, n, nodeId, now, fuel - 1, k); }
    }
  }

  /** The second and third steps, run on a part `t` of `s`, keep a node `s` could not reach from `n`'s child. */
  lemma {:induction false} DeleteRestKeepsUnreached(s: Store, t: Store, n: Node, nodeId: Id, now: string, fuel: nat, k: Id)
    requires WellKeyed(s) && Shrinks(s, t) && WellKeyed(t)
    requires k in t.nodes && k != nodeId && k !in ChildPart(s, n, fuel)
    ensures var t' := DeleteRest(t, n, nodeId, now, fuel).0;
      k in t'.nodes && t'.nodes[k] == s.nodes[k]
    decreases fuel, 3
  {
    DeleteChildrenKeepsUnreached(s, t, n, now, fuel, k);
  }

  lemma {:induction false} DeleteChildrenKeepsUnreached(s: Store, t: Store, n: Node, now: string, fuel: nat, k: Id)
    requires WellKeyed(s) && Shrinks(s, t) && WellKeyed(t)
    requires k in t.nodes && k !in ChildPart(s, n, fuel)
    ensures var t' := DeleteChildren(t, n, now, fuel).0;
      k in t'.nodes && t'.nodes[k] == s.nodes[k]
    decreases fuel, 2
  {
    ChildHeadShrinks(s, t, n.refId);
    match ChildHead(t, n.refId)
    case None =>
    case Some(h) =>
      ReachShrinks(s, t, h, fuel);
      DeleteNodeTreeKeepsUnreached(t, h, now, fuel, k);
  }

  // ---- _delete_node_tree on a store without cycles ------------------------------

  /** No two nodes share a non-zero `ref_id`: every node is created with a reference of its own. */
  ghost predicate DistinctRefs(s: Store) {
    forall x, y | x in s.nodes && y in s.nodes && x != y && s.nodes[x].refId != 0 ::
      s.nodes[x].refId != s.nodes[y].refId
  }

  /** From `x`, every `next` pointer and child link to a stored node goes down in `rank`. */
  ghost predicate DownIn(nodes: map<Id, Node>, kids: map<Id, Id>, rank: map<Id, nat>, x: Id)
    requires x in nodes && x in rank
  {
    var n := nodes[x];
    && (Truthy(n.next) && n.next.value in nodes ==> n.next.value in rank && rank[n.next.value] < rank[x])
    && (n.refId in kids && kids[n.refId] in nodes ==> kids[n.refId] in rank && rank[kids[n.refId]] < rank[x])
  }

  /** `rank` witnesses that no node can reach itself through `next` pointers and child links. */
  ghost predicate RankedIn(nodes: map<Id, Node>, kids: map<Id, Id>, rank: map<Id, nat>) {
    && (forall x | x in nodes :: x in rank)
    && forall x {:trigger DownIn(nodes, kids, rank, x)} | x in nodes :: DownIn(nodes, kids, rank, x)
  }

  /** `rank` witnesses that the store has no cycle the deletion could follow. */
  ghost predicate RankedBy(s: Store, rank: map<Id, nat>) {
    RankedIn(s.nodes, Kids(s), rank)
  }

  /** Every reference a surviving node had in `s` is still there in `t`. */
  ghost predicate RefsKept(s: Store, t: Store) {
    forall x | x in t.nodes && x in s.nodes && s.nodes[x].refId in s.references ::
      s.nodes[x].refId in t.references
  }

  lemma RankedInShrinks(n1: map<Id, Node>, k1: map<Id, Id>, n2: map<Id, Node>, k2: map<Id, Id>, rank: map<Id, nat>)
    requires NodesWithin(n2, n1) && KidsWithin(k2, k1) && RankedIn(n1, k1, rank)
    ensures RankedIn(n2, k2, rank)
  {
    forall x | x in n2
      ensures x in rank && DownIn(n2, k2, rank, x)
    {
      assert x in n1 && DownIn(n1, k1, rank, x);
    }
  }

  lemma RankedShrinks(s: Store, t: Store, rank: map<Id, nat>)
    requires Shrinks(s, t) && RankedBy(s, rank)
    ensures RankedBy(t, rank)
  {
    KidsShrink(s, t);
    RankedInShrinks(s.nodes, Kids(s), t.nodes, Kids(t), rank);
  }

  /** What can be visited from `id` sits no higher than `id`. */
  lemma {:induction false} ReachInRanks(nodes: map<Id, Node>, kids: map<Id, Id>, id: Id, fuel: nat, rank: map<Id, nat>)
    requires RankedIn(nodes, kids, rank) && id in nodes
    ensures forall k | k in ReachIn(nodes, kids, id, fuel) :: k in nodes && k in rank && rank[k] <= rank[id]
    decreases fuel
  {
    if fuel > 0 {
      var n := nodes[id];
      assert DownIn(nodes, kids, rank, id);
      if Truthy(n.next) && n.next.value in nodes { ReachInRanks(nodes, kids, n.next.value, fuel - 1, rank); }
      if n.refId in kids && kids[n.refId] in nodes { ReachInRanks(nodes, kids, kids[n.refId], fuel - 1, rank); }
    }
  }

  lemma {:induction false} ReachInMonotone(nodes: map<Id, Node>, kids: map<Id, Id>, id: Id, f: nat, g: nat)
    requires f <= g
    ensures ReachIn(nodes, kids, id, f) <= ReachIn(nodes, kids, id, g)
    decreases f
  {
    if f > 0 && id in nodes {
      var n := nodes[id];
      if Truthy(n.next) { ReachInMonotone(nodes, kids, n.next.value, f - 1, g - 1); }
      if n.refId in kids { ReachInMonotone(nodes, kids, kids[n.refId], f - 1, g - 1); }
    }
  }

  /** Fuel above the rank sees everything: more fuel visits nothing new. */
  lemma {:induction false} ReachInComplete(
    nodes: map<Id, Node>, kids: map<Id, Id>, id: Id, f: nat, g: nat, rank: map<Id, nat>)
    requires RankedIn(nodes, kids, rank) && id in nodes && rank[id] < f <= g
    ensures ReachIn(nodes, kids, id, f) == ReachIn(nodes, kids, id, g)
    decreases f
  {
    var n := nodes[id];
    assert DownIn(nodes, kids, rank, id);
    if Truthy(n.next) && n.next.value in nodes { ReachInComplete(nodes, kids, n.next.value, f - 1, g - 1, rank); }
    if n.refId in kids && kids[n.refId] in nodes { ReachInComplete(nodes, kids, kids[n.refId], f - 1, g - 1, rank); }
  }

  /** With fuel above the rank, what is visited from a visited node is visited from the start. */
  lemma {:induction false} ReachInTransitive(
    nodes: map<Id, Node>, kids: map<Id, Id>, a: Id, f: nat, c: Id, g: nat, rank: map<Id, nat>)
    requires RankedIn(nodes, kids, rank) && a in nodes && rank[a] < f && c in ReachIn(nodes, kids, a, f)
    ensures ReachIn(nodes, kids, c, g) <= ReachIn(nodes, kids, a, f)
    decreases f
  {
    if c == a {
      if g <= f { ReachInMonotone(nodes, kids, a, g, f); } else { ReachInComplete(nodes, kids, a, f, g, rank); }
    } else {
      var n := nodes[a];
      assert DownIn(nodes, kids, rank, a);
      if Truthy(n.next) && c in ReachIn(nodes, kids, n.next.value, f - 1) {
        ReachInTransitive(nodes, kids, n.next.value, f - 1, c, g, rank);
      } else {
        ReachInTransitive(nodes, kids, kids[n.refId], f - 1, c, g, rank);
      }
    }
  }

  /** Nothing outside `R` can be visited from a node in `R`. */
  ghost predicate ReachClosedIn(nodes: map<Id, Node>, kids: map<Id, Id>, R: set<Id>) {
    forall c, g: nat | c in R :: ReachIn(nodes, kids, c, g) <= R
  }

  /** With fuel above the rank, what can be visited from `a` is a closed set. */
  lemma ReachInIsClosed(nodes: map<Id, Node>, kids: map<Id, Id>, a: Id, f: nat, rank: map<Id, nat>)
    requires RankedIn(nodes, kids, rank) && a in nodes && rank[a] < f
    ensures ReachClosedIn(nodes, kids, ReachIn(nodes, kids, a, f))
  {
    forall c, g: nat | c in ReachIn(nodes, kids, a, f)
      ensures ReachIn(nodes, kids, c, g) <= ReachIn(nodes, kids, a, f)
    {
      ReachInTransitive(nodes, kids, a, f, c, g, rank);
    }
  }

  /**
   * When `n2` is `n1` without a closed set `R` of nodes, and the surviving
   * nodes keep their child links, what `n1` visits from `h` is what `n2`
   * visits from `h` plus nodes of `R`.
   */
  lemma {:induction false} ReachInCut(
    n1: map<Id, Node>, k1: map<Id, Id>, n2: map<Id, Node>, k2: map<Id, Id>, R: set<Id>, h: Id, f: nat)
    requires ReachClosedIn(n1, k1, R)
    requires NodesWithin(n2, n1) && n2.Keys == n1.Keys - R
    requires forall x | x in n2 && n2[x].refId in k1 :: n2[x].refId in k2 && k2[n2[x].refId] == k1[n2[x].refId]
    ensures ReachIn(n1, k1, h, f) <= R + ReachIn(n2, k2, h, f)
    decreases f
  {
    if f > 0 && h in n1 {
      if h in R {
        assert ReachIn(n1, k1, h, f) <= R;
      } else {
        var n := n1[h];
        assert h in n2 && n2[h] == n;
        if Truthy(n.next) { ReachInCut(n1, k1, n2, k2, R, n.next.value, f - 1); }
        if n.refId in k1 { ReachInCut(n1, k1, n2, k2, R, k1[n.refId], f - 1); }
      }
    }
  }


  /** With distinct `ref_id`s, deletion removes only the references of the nodes it removes. */
  lemma DeleteNodeTreeKeepsRefs(s: Store, nodeId: Id, now: string, fuel: nat)
    requires WellKeyed(s) && DistinctRefs(s)
    ensures RefsKept(s, DeleteNodeTree(s, nodeId, now, fuel).0)
  {
    DeleteNodeKeepsRefsWithin(s, now);
    DeleteNodeTreeKeeps(t => Shrinks(s, t) && WellKeyed(t) && RefsKept(s, t), s, nodeId, now, fuel);
  }

  lemma DeleteSiblingsKeepsRefs(s: Store, n: Node, now: string, fuel: nat)
    requires WellKeyed(s) && DistinctRefs(s)
    ensures RefsKept(s, DeleteSiblings(s, n, now, fuel).0)
  {
    DeleteNodeKeepsRefsWithin(s, now);
    DeleteSiblingsKeeps(t => Shrinks(s, t) && WellKeyed(t) && RefsKept(s, t), s, n, now, fuel);
  }

  /** `delete_node` keeps "`t` is a well-keyed part of `s` holding the references of its nodes". */
  lemma DeleteNodeKeepsRefsWithin(s: Store, now: string)
    requires DistinctRefs(s)
    ensures forall t: Store, id: Id :: Shrinks(s, t) && WellKeyed(t) && RefsKept(s, t) ==>
      var t' := DeleteNode(t, id, now).0; Shrinks(s, t') && WellKeyed(t') && RefsKept(s, t')
  {
    forall t: Store, id: Id | Shrinks(s, t) && WellKeyed(t) && RefsKept(s, t)
      ensures var t' := DeleteNode(t, id, now).0; Shrinks(s, t') && WellKeyed(t') && RefsKept(s, t')
    {
      var t' := DeleteNode(t, id, now).0;
      DistinctRefsShrinks(s, t);
      DeleteNodeKeepsRefs(t, id, now);
      DeleteNodeShrinks(t, id, now);
      ShrinksTransitive(s, t, t');
      RefsKeptTransitive(s, t, t');
    }
  }

  lemma RefsKeptTransitive(a: Store, b: Store, c: Store)
    requires Shrinks(a, b) && Shrinks(b, c) && RefsKept(a, b) && RefsKept(b, c)
    ensures RefsKept(a, c)
  {
    forall x | x in c.nodes && x in a.nodes && a.nodes[x].refId in a.references
      ensures a.nodes[x].refId in c.references
    {
      assert x in b.nodes && b.nodes[x] == a.nodes[x];
    }
  }

  lemma DeleteNodeKeepsRefs(s: Store, nodeId: Id, now: string)
    requires DistinctRefs(s)
    ensures RefsKept(s, DeleteNode(s, nodeId, now).0)
  {
  }

  /** On a store without cycles, fuel two above the start node's rank is enough to finish. */
  lemma {:induction false} DeleteNodeTreeFinishes(s: Store, nodeId: Id, now: string, fuel: nat, rank: map<Id, nat>)
    requires WellKeyed(s) && RankedBy(s, rank)
    requires fuel >= 1 && (nodeId in s.nodes ==> rank[nodeId] + 2 <= fuel)
    ensures DeleteNodeTree(s, nodeId, now, fuel).1
    decreases fuel, 1
  {
    if nodeId in s.nodes {
      var n := s.nodes[nodeId];
      var r1 := DeleteSiblings(s, n, now, fuel - 1);
      NextRanksBelow(s, nodeId, rank);
      if Truthy(n.next) { DeleteNodeTreeFinishes(s, n.next.value, now, fuel - 1, rank); }
      if r1.1 {
        DeleteSiblingsShrinks(s, n, now, fuel - 1);
        RankedShrinks(s, r1.0, rank);
        ChildHeadShrinks(s, r1.0, n.refId);
        DeleteRestFinishes(r1.0, n, nodeId, now, fuel - 1, rank);
      }
    }
  }

  lemma {:induction false} DeleteRestFinishes(t: Store, n: Node, nodeId: Id, now: string, fuel: nat, rank: map<Id, nat>)
    requires WellKeyed(t) && RankedBy(t, rank) && fuel >= 1
    requires ChildHead(t, n.refId).Some? && ChildHead(t, n.refId).value in t.nodes ==>
      rank[ChildHead(t, n.refId).value] + 2 <= fuel
    ensures DeleteRest(t, n, nodeId, now, fuel).1
    decreases fuel, 2
  {
    match ChildHead(t, n.refId)
    case None =>
    case Some(h) => DeleteNodeTreeFinishes(t, h, now, fuel, rank);
  }

  /** The stored `next` and child head of a ranked node sit below it. */
  lemma NextRanksBelow(s: Store, x: Id, rank: map<Id, nat>)
    requires RankedBy(s, rank) && x in s.nodes
    ensures var n := s.nodes[x];
      && x in rank
      && (Truthy(n.next) && n.next.value in s.nodes ==> n.next.value in rank && rank[n.next.value] < rank[x])
      && (ChildHead(s, n.refId).Some? && ChildHead(s, n.refId).value in s.nodes ==>
            ChildHead(s, n.refId).value in rank && rank[ChildHead(s, n.refId).value] < rank[x])
  {
    assert DownIn(s.nodes, Kids(s), rank, x);
    KidsAgree(s, s.nodes[x].refId);
  }

  /**
   * On a store without cycles and with distinct `ref_id`s, and with fuel
   * two above the start node's rank, the deletion finishes and removes
   * every node it could visit: the sibling chain and every child chain
   * below it, also when a container is shared by several references.
   */
  lemma {:induction false} DeleteNodeTreeRemovesReach(s: Store, nodeId: Id, now: string, fuel: nat, rank: map<Id, nat>)
    requires WellKeyed(s) && DistinctRefs(s) && RankedBy(s, rank)
    requires fuel >= 1 && (nodeId in s.nodes ==> rank[nodeId] + 2 <= fuel)
    ensures var r := DeleteNodeTree(s, nodeId, now, fuel);
      r.1 && forall k | k in Reach(s, nodeId, fuel) :: k !in r.0.nodes
    decreases fuel, 1
  {
    if nodeId in s.nodes {
      var n := s.nodes[nodeId];
      DeleteChildrenRemovesRest(s, nodeId, now, fuel - 1, rank);
      ReachUnfold(s, nodeId, fuel);
      var r1 := DeleteSiblings(s, n, now, fuel - 1);
      var r2 := DeleteChildren(r1.0, n, now, fuel - 1);
      assert DeleteRest(r1.0, n, nodeId, now, fuel - 1) == (DeleteNode(r2.0, nodeId, now).0, true);
    }
  }

  /** What the first step of a deletion from `n` could visit. */
  ghost function Front(s: Store, n: Node, fuel: nat): set<Id> {
    if Truthy(n.next) then Reach(s, n.next.value, fuel) else {}
  }

  /** What the second step of a deletion from `n` could visit. */
  ghost function ChildPart(s: Store, n: Node, fuel: nat): set<Id> {
    match ChildHead(s, n.refId)
    case None => {}
    case Some(h) => Reach(s, h, fuel)
  }

  lemma ReachUnfold(s: Store, id: Id, fuel: nat)
    requires fuel > 0 && id in s.nodes
    ensures Reach(s, id, fuel) == {id} + Front(s, s.nodes[id], fuel - 1) + ChildPart(s, s.nodes[id], fuel - 1)
  {
    KidsAgree(s, s.nodes[id].refId);
  }

  /** Both steps finish, and together they remove what either could visit in the original store. */
  lemma {:induction false} DeleteChildrenRemovesRest(s: Store, nodeId: Id, now: string, fuel: nat, rank: map<Id, nat>)
    requires WellKeyed(s) && DistinctRefs(s) && RankedBy(s, rank)
    requires nodeId in s.nodes && rank[nodeId] + 1 <= fuel
    ensures var n := s.nodes[nodeId];
      var r1 := DeleteSiblings(s, n, now, fuel);
      var r2 := DeleteChildren(r1.0, n, now, fuel);
      && r1.1 && r2.1
      && forall k | k in Front(s, n, fuel) + ChildPart(s, n, fuel) :: k !in r2.0.nodes
    decreases fuel, 4
  {
    var n := s.nodes[nodeId];
    NextRanksBelow(s, nodeId, rank);
    DeleteSiblingsRemovesFront(s, nodeId, now, fuel, rank);
    var t1 := DeleteSiblings(s, n, now, fuel).0;
    var t2 := DeleteChildren(t1, n, now, fuel).0;
    RefsKeptChildHead(s, t1, nodeId);
    match ChildHead(s, n.refId)
    case None =>
    case Some(h) =>
      DeleteNodeTreeRemovesReach(t1, h, now, fuel, rank);
      ReachAfterFront(s, t1, t2, Front(s, n, fuel), h, fuel);
  }

  /**
   * The first step removes exactly what it could visit, which is a closed
   * set below the start node, and leaves the rest of the store intact.
   */
  lemma {:induction false} DeleteSiblingsRemovesFront(s: Store, nodeId: Id, now: string, fuel: nat, rank: map<Id, nat>)
    requires WellKeyed(s) && DistinctRefs(s) && RankedBy(s, rank)
    requires nodeId in s.nodes && rank[nodeId] + 1 <= fuel
    ensures var n := s.nodes[nodeId];
      var t1 := DeleteSiblings(s, n, now, fuel);
      && t1.1
      && Shrinks(s, t1.0) && WellKeyed(t1.0) && DistinctRefs(t1.0) && RankedBy(t1.0, rank) && RefsKept(s, t1.0)
      && t1.0.nodes.Keys == s.nodes.Keys - Front(s, n, fuel)
      && ReachClosedIn(s.nodes, Kids(s), Front(s, n, fuel))
      && nodeId in t1.0.nodes
    decreases fuel, 3
  {
    var n := s.nodes[nodeId];
    NextRanksBelow(s, nodeId, rank);
    var t1 := DeleteSiblings(s, n, now, fuel).0;
    DeleteSiblingsShrinks(s, n, now, fuel);
    DeleteSiblingsKeepsRefs(s, n, now, fuel);
    DistinctRefsShrinks(s, t1);
    RankedShrinks(s, t1, rank);
    if Truthy(n.next) {
      var a := n.next.value;
      DeleteNodeTreeRemovesReach(s, a, now, fuel, rank);
      if a in s.nodes {
        ReachInRanks(s.nodes, Kids(s), a, fuel, rank);
        ReachInIsClosed(s.nodes, Kids(s), a, fuel, rank);
      } else {
        assert Front(s, n, fuel) == {};
      }
      forall k | k in s.nodes && k !in Front(s, n, fuel)
        ensures k in t1.nodes
      {
        DeleteNodeTreeKeepsUnreached(s, a, now, fuel, k);
      }
      assert forall k | k in Front(s, n, fuel) :: k in s.nodes && k !in t1.nodes;
    }
  }

  /**
   * After the first step removed a closed set `front`, the second step
   * removes what the original store could visit from the child head `h`.
   */
  lemma ReachAfterFront(s: Store, t1: Store, t2: Store, front: set<Id>, h: Id, f: nat)
    requires ReachClosedIn(s.nodes, Kids(s), front) && Shrinks(s, t1) && RefsKept(s, t1)
    requires t1.nodes.Keys == s.nodes.Keys - front
    requires t2.nodes.Keys <= t1.nodes.Keys
    requires forall k | k in Reach(t1, h, f) :: k !in t2.nodes
    ensures forall k | k in Reach(s, h, f) :: k !in t2.nodes
  {
    KidsKept(s, t1);
    ReachInCut(s.nodes, Kids(s), t1.nodes, Kids(t1), front, h, f);
  }

  /** A node that survives with its reference keeps its child link. */
  lemma RefsKeptChildHead(s: Store, t: Store, x: Id)
    requires Shrinks(s, t) && RefsKept(s, t) && x in t.nodes
    ensures ChildHead(t, t.nodes[x].refId) == ChildHead(s, s.nodes[x].refId)
  {
    ChildHeadShrinks(s, t, t.nodes[x].refId);
  }

  /** Surviving nodes keep their child links. */
  lemma KidsKept(s: Store, t: Store)
    requires Shrinks(s, t) && RefsKept(s, t)
    ensures forall x | x in t.nodes && t.nodes[x].refId in Kids(s) ::
      t.nodes[x].refId in Kids(t) && Kids(t)[t.nodes[x].refId] == Kids(s)[t.nodes[x].refId]
  {
    forall x | x in t.nodes && t.nodes[x].refId in Kids(s)
      ensures t.nodes[x].refId in Kids(t) && Kids(t)[t.nodes[x].refId] == Kids(s)[t.nodes[x].refId]
    {
      var r := t.nodes[x].refId;
      RefsKeptChildHead(s, t, x);
      KidsAgree(s, r);
      KidsAgree(t, r);
    }
  }

  lemma DistinctRefsShrinks(s: Store, t: Store)
    requires Shrinks(s, t) && DistinctRefs(s)
    ensures DistinctRefs(t)
  {
  }

  /**
   * Node 1 and node 2 name each other as `next`: the recursion never bottoms
   * out, and the error it ends in leaves the store as it was.
   */
  function CycleStore(): Store {
    Store(
      map[1 := Node(1, 0, None, Some(2), Some(2), "t", "t"),
          2 := Node(2, 0, None, Some(1), Some(1), "t", "t")],
      map[], map[])
  }

  lemma {:induction false} CycleDeletesNothing(id: Id, fuel: nat)
    requires id == 1 || id == 2
    ensures DeleteNodeTree(CycleStore(), id, "t", fuel) == (CycleStore(), false)
    decreases fuel
  {
    if fuel > 0 {
      var other: Id := 3 - id;
      CycleDeletesNothing(other, fuel - 1);
    }
  }

  // ---- move_node ------------------------------------------------------------

  /** The truthy `next` of `x` names a node whose `prev` is `x`. */
  ghost predicate NextOk(m: map<Id, Node>, x: Id)
    requires x in m
  {
    Truthy(m[x].next) ==> m[x].next.value in m && m[m[x].next.value].prev == Some(x)
  }

  /** The truthy `prev` of `x` names a node whose `next` is `x`. */
  ghost predicate PrevOk(m: map<Id, Node>, x: Id)
    requires x in m
  {
    Truthy(m[x].prev) ==> m[x].prev.value in m && m[m[x].prev.value].next == Some(x)
  }

  /** Sibling symmetry: every truthy sibling pointer exists and points back. */
  ghost predicate Symmetric(m: map<Id, Node>) {
    forall x | x in m :: NextOk(m, x) && PrevOk(m, x)
  }

  /** No node is its own sibling. */
  ghost predicate NoSelfLinks(m: map<Id, Node>) {
    forall x | x in m ::
      && !(Truthy(m[x].next) && m[x].next.value == x)
      && !(Truthy(m[x].prev) && m[x].prev.value == x)
  }

  /** No node is its own sibling, and no node has the same node on both sides. */
  ghost predicate LocallyAcyclic(m: map<Id, Node>) {
    && NoSelfLinks(m)
    && forall x | x in m :: !(Truthy(m[x].prev) && Truthy(m[x].next) && m[x].prev == m[x].next)
  }

  /** Every node but `id` is symmetric, and none of them points at `id`. */
  ghost predicate Detached(m: map<Id, Node>, id: Id) {
    forall x | x in m && x != id ::
      && NextOk(m, x) && PrevOk(m, x)
      && !(Truthy(m[x].next) && m[x].next.value == id)
      && !(Truthy(m[x].prev) && m[x].prev.value == id)
  }

  /** First half of `move_node`: splice the node's old neighbours together (both loaded before either is saved). */
  function Unlink(s: Store, n: Node, now: string): (r: Store)
    ensures r.references == s.references && r.components == s.components
  {
    var oldPrev := if Truthy(n.prev) then LoadNode(s, n.prev.value) else None;
    var oldNext := if Truthy(n.next) then LoadNode(s, n.next.value) else None;
    var s1 := if oldPrev.Some? then SaveNode(s, oldPrev.value.(next := n.next), now) else s;
    if oldNext.Some? then SaveNode(s1, oldNext.value.(prev := n.prev), now) else s1
  }

  /** The node an insertion after `after` will precede: the after-node's current truthy, loadable `next`. */
  function Successor(s: Store, after: Option<Id>): (r: Option<Node>)
    ensures r.Some? ==>
      && Truthy(after) && after.value in s.nodes
      && Truthy(s.nodes[after.value].next) && s.nodes[after.value].next.value in s.nodes
      && r.value == s.nodes[s.nodes[after.value].next.value]
  {
    if Truthy(after) && after.value in s.nodes && Truthy(s.nodes[after.value].next) then
      LoadNode(s, s.nodes[after.value].next.value)
    else None
  }

  /** Second half of `move_node`: link the node in after `after`, then save it with its new parent. */
  function LinkAfter(s: Store, n: Node, newParent: Option<Id>, after: Option<Id>, now: string): (r: Store)
    ensures r.references == s.references && r.components == s.components
  {
    var newAfter := if Truthy(after) then LoadNode(s, after.value) else None;
    var newBefore := Successor(s, after);
    var moved := n.(parent := newParent, prev := after,
                    next := if newBefore.Some? then Some(newBefore.value.nodeId) else None);
    var s1 := if newAfter.Some? then SaveNode(s, newAfter.value.(next := Some(n.nodeId)), now) else s;
    var s2 := if newBefore.Some? then SaveNode(s1, newBefore.value.(prev := Some(n.nodeId)), now) else s1;
    SaveNode(s2, moved, now)
  }

  /**
   * `move_node`: false, and no write, for a missing node. Otherwise the
   * node is unlinked and relinked; references and components — including
   * every container's `child` — are never touched.
   */
  function MoveNode(s: Store, nodeId: Id, newParent: Option<Id>, after: Option<Id>, now: string): (r: (Store, bool))
    ensures r.1 <==> nodeId in s.nodes
    ensures !r.1 ==> r.0 == s
    ensures r.0.references == s.references && r.0.components == s.components
  {
    match LoadNode(s, nodeId)
    case None => (s, false)
    case Some(n) => (LinkAfter(Unlink(s, n, now), n, newParent, after, now), true)
  }

  /** Where unlinking `id` redirects pointers: only its old `prev`'s `next` and its old `next`'s `prev`. */
  lemma UnlinkPointers(s: Store, id: Id, now: string)
    requires WellKeyed(s) && LocallyAcyclic(s.nodes) && id in s.nodes
    ensures var n := s.nodes[id];
      var s' := Unlink(s, n, now);
      && WellKeyed(s') && s'.nodes.Keys == s.nodes.Keys
      && s'.nodes[id] == n
      && forall y | y in s.nodes ::
           && s'.nodes[y].next == (if Truthy(n.prev) && y == n.prev.value then n.next else s.nodes[y].next)
           && s'.nodes[y].prev == (if Truthy(n.next) && y == n.next.value then n.prev else s.nodes[y].prev)
  {
  }

  /**
   * Unlinking a node of a symmetric, locally acyclic store without a node 0
   * detaches it and leaves its own record as it was.
   */
  lemma UnlinkDetaches(s: Store, id: Id, now: string)
    requires WellKeyed(s) && Symmetric(s.nodes) && LocallyAcyclic(s.nodes) && id in s.nodes
    requires 0 !in s.nodes
    ensures var s' := Unlink(s, s.nodes[id], now);
      && WellKeyed(s') && s'.nodes.Keys == s.nodes.Keys
      && s'.nodes[id] == s.nodes[id]
      && Detached(s'.nodes, id)
  {
    var n := s.nodes[id];
    var m := s.nodes;
    var m' := Unlink(s, n, now).nodes;
    UnlinkPointers(s, id, now);
    assert NextOk(m, id) && PrevOk(m, id);
    forall x | x in m' && x != id
      ensures NextOk(m', x) && PrevOk(m', x)
      ensures !(Truthy(m'[x].next) && m'[x].next.value == id)
      ensures !(Truthy(m'[x].prev) && m'[x].prev.value == id)
    {
      assert NextOk(m, x) && PrevOk(m, x);
      if Truthy(m'[x].next) {
        var y := m'[x].next.value;
        if !(Truthy(n.prev) && x == n.prev.value) {
          assert PrevOk(m, y);
        }
      }
      if Truthy(m'[x].prev) {
        var y := m'[x].prev.value;
        if !(Truthy(n.next) && x == n.next.value) {
          assert NextOk(m, y);
        }
      }
    }
  }

  /** Where linking `n` in after `after` redirects pointers: the after-node's `next`, its successor's `prev`, and `n` itself. */
  lemma LinkPointers(s: Store, n: Node, newParent: Option<Id>, after: Option<Id>, now: string)
    requires WellKeyed(s) && NoSelfLinks(s.nodes) && n.nodeId in s.nodes && Detached(s.nodes, n.nodeId)
    requires !Truthy(after) || (after.value in s.nodes && after.value != n.nodeId)
    ensures var s' := LinkAfter(s, n, newParent, after, now);
      var succ := Successor(s, after);
      && WellKeyed(s') && s'.nodes.Keys == s.nodes.Keys
      && s'.nodes[n.nodeId].prev == after
      && s'.nodes[n.nodeId].next == (if succ.Some? then Some(succ.value.nodeId) else None)
      && forall y | y in s.nodes && y != n.nodeId ::
           && s'.nodes[y].next == (if Truthy(after) && y == after.value then Some(n.nodeId) else s.nodes[y].next)
           && s'.nodes[y].prev == (if succ.Some? && y == succ.value.nodeId then Some(n.nodeId) else s.nodes[y].prev)
  {
    if Truthy(after) {
      assert NextOk(s.nodes, after.value);
    }
  }

  /** Linking a detached node in after an existing other node, or at no place, restores symmetry. */
  lemma LinkAfterRestores(s: Store, n: Node, newParent: Option<Id>, after: Option<Id>, now: string)
    requires WellKeyed(s) && NoSelfLinks(s.nodes) && n.nodeId in s.nodes && Detached(s.nodes, n.nodeId)
    requires !Truthy(after) || (after.value in s.nodes && after.value != n.nodeId)
    requires 0 !in s.nodes
    ensures var s' := LinkAfter(s, n, newParent, after, now);
      && WellKeyed(s') && s'.nodes.Keys == s.nodes.Keys
      && Symmetric(s'.nodes)
  {
    var id := n.nodeId;
    var m := s.nodes;
    var m' := LinkAfter(s, n, newParent, after, now).nodes;
    var succ := Successor(s, after);
    LinkPointers(s, n, newParent, after, now);
    if Truthy(after) { assert NextOk(m, after.value); }
    forall x | x in m'
      ensures NextOk(m', x) && PrevOk(m', x)
    {
      if x != id {
        assert NextOk(m, x) && PrevOk(m, x);
        if Truthy(m[x].next) && m[x].next.value != id { assert PrevOk(m, m[x].next.value); }
        if Truthy(m[x].prev) && m[x].prev.value != id { assert NextOk(m, m[x].prev.value); }
      }
    }
  }

  /**
   * Sibling symmetry survives `move_node` when the target place is none or
   * an existing node other than the moved one.
   */
  lemma MovePreservesSymmetry(s: Store, nodeId: Id, newParent: Option<Id>, after: Option<Id>, now: string)
    requires WellKeyed(s) && Symmetric(s.nodes) && LocallyAcyclic(s.nodes) && 0 !in s.nodes
    requires !Truthy(after) || (after.value in s.nodes && after.value != nodeId)
    ensures Symmetric(MoveNode(s, nodeId, newParent, after, now).0.nodes)
  {
    if nodeId in s.nodes {
      var n := s.nodes[nodeId];
      UnlinkDetaches(s, nodeId, now);
      var s1 := Unlink(s, n, now);
      UnlinkKeepsNoSelfLinks(s, nodeId, now);
      LinkAfterRestores(s1, n, newParent, after, now);
    }
  }

  /** Splicing the neighbours together creates no self-loop. */
  lemma UnlinkKeepsNoSelfLinks(s: Store, id: Id, now: string)
    requires WellKeyed(s) && LocallyAcyclic(s.nodes) && id in s.nodes
    ensures NoSelfLinks(Unlink(s, s.nodes[id], now).nodes)
  {
    UnlinkPointers(s, id, now);
  }

  /**
   * The moved node ends with the new parent, `prev` equal to `after`, and
   * `next` equal to what followed the after-node once the old neighbours
   * were spliced; the after-node and that successor point back to it.
   */
  lemma MoveNodeEffects(s: Store, nodeId: Id, newParent: Option<Id>, after: Option<Id>, now: string)
    requires WellKeyed(s) && Symmetric(s.nodes) && LocallyAcyclic(s.nodes) && 0 !in s.nodes
    requires nodeId in s.nodes
    requires !Truthy(after) || (after.value in s.nodes && after.value != nodeId)
    ensures var s1 := Unlink(s, s.nodes[nodeId], now);
      var s' := MoveNode(s, nodeId, newParent, after, now).0;
      var succ := Successor(s1, after);
      && s'.nodes.Keys == s.nodes.Keys
      && s'.nodes[nodeId].parent == newParent
      && s'.nodes[nodeId].prev == after
      && s'.nodes[nodeId].next == (if succ.Some? then Some(succ.value.nodeId) else None)
      && s'.nodes[nodeId].refId == s.nodes[nodeId].refId
      && (Truthy(after) ==> s'.nodes[after.value].next == Some(nodeId))
      && (succ.Some? ==> s'.nodes[succ.value.nodeId].prev == Some(nodeId))
  {
    var n := s.nodes[nodeId];
    UnlinkDetaches(s, nodeId, now);
    UnlinkKeepsNoSelfLinks(s, nodeId, now);
    LinkPointers(Unlink(s, n, now), n, newParent, after, now);
  }

  /**
   * The two-node cycle of `CycleStore` is symmetric but has `prev == next`
   * at both nodes. Moving node 1 saves two stale copies of node 2 in turn,
   * the second overwriting the first, and node 2 is left naming node 1 as
   * `next` while node 1 no longer names it as `prev`.
   */
  lemma MoveInTwoCycle()
    ensures WellKeyed(CycleStore()) && Symmetric(CycleStore().nodes) && NoSelfLinks(CycleStore().nodes)
    ensures !LocallyAcyclic(CycleStore().nodes)
    ensures !Symmetric(MoveNode(CycleStore(), 1, None, None, "t").0.nodes)
  {
    var m := MoveNode(CycleStore(), 1, None, None, "t").0.nodes;
    assert m[2].next == Some(1) && m[1].prev == None;
    assert !NextOk(m, 2);
  }
}
