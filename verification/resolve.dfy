/**
 * The read-only resolver `resolve_node` of backend/database.py: a node is
 * followed to its reference and component, the component's config is merged
 * with the reference's overrides, and a container's children are resolved
 * along its child chain in order.
 */
module Resolution {
  import opened Wrappers
  import opened Values
  import opened NodeEntity
  import opened ReferenceEntity
  import opened Components
  import opened Registry
  import opened Database
  import opened Chains

  /** The dictionary `resolve_node` returns. */
  datatype ResolvedNode = ResolvedNode(
    nodeId: Id,
    refId: Id,
    compId: Id,
    typeName: string,
    config: Config,
    children: seq<ResolvedNode>)

  /**
   * `Missing` is the source's None; `Exhausted` stands for a resolution
   * that does not end within the nesting fuel or walks a cyclic chain,
   * where the source recurses or loops forever.
   */
  datatype Resolution = Missing | Resolved(view: ResolvedNode) | Exhausted

  datatype ChainResolution = Chain(items: seq<ResolvedNode>) | ChainExhausted

  /** The component a node leads to through its reference, when both exist. */
  function ComponentOf(s: Store, id: Id): Option<Component> {
    if id in s.nodes && s.nodes[id].refId in s.references
    then LoadComponentById(s, s.references[s.nodes[id].refId].compId)
    else None
  }

  /** The head of the child chain the resolver walks: a truthy `child` of a container. */
  function ChildChainHead(b: Body): (r: Option<Id>)
    ensures r.Some? ==> IsContainer(b) && r == b.child && r.value != 0
    ensures IsContainer(b) && Truthy(b.child) ==> r == b.child
  {
    if IsContainer(b) && Truthy(b.child) then b.child else None
  }

  /**
   * `resolve_node`: node, then reference (looked up even for a `ref_id` of
   * 0), then component by id; any of them missing gives `Missing`. `fuel`
   * bounds how deeply containers nest.
   */
  function Resolve(s: Store, id: Id, fuel: nat): (r: Resolution)
    ensures r.Resolved? ==> id in s.nodes && s.nodes[id].refId in s.references && ComponentOf(s, id).Some?
    ensures r.Resolved? ==>
      var n := s.nodes[id];
      var ref := s.references[n.refId];
      var c := ComponentOf(s, id).value;
      && r.view.nodeId == n.nodeId && r.view.refId == ref.refId
      && r.view.compId == c.compId && r.view.typeName == TypeName(c.body)
      && r.view.config == MergeConfig(ref, GetConfig(c.body))
      && (ChildChainHead(c.body).None? ==> r.view.children == [])
    decreases fuel, 1, 0
  {
    match LoadNode(s, id)
    case None => Missing
    case Some(n) =>
      match LoadReference(s, n.refId)
      case None => Missing
      case Some(ref) =>
        match LoadComponentById(s, ref.compId)
        case None => Missing
        case Some(c) =>
          match ResolveChain(s, ChildChainHead(c.body), fuel, {})
          case ChainExhausted => Exhausted
          case Chain(items) =>
            Resolved(ResolvedNode(n.nodeId, ref.refId, c.compId, TypeName(c.body),
                                  MergeConfig(ref, GetConfig(c.body)), items))
  }

  /** Resolution gives None exactly when the node, its reference or its component is missing. */
  lemma ResolveMissing(s: Store, id: Id, fuel: nat)
    ensures Resolve(s, id, fuel).Missing? <==>
      || id !in s.nodes
      || s.nodes[id].refId !in s.references
      || LoadComponentById(s, s.references[s.nodes[id].refId].compId).None?
  {
  }

  /** A chain gives up exactly when one of its ids does not finish resolving. */
  lemma {:induction false} CollectGivesUp(s: Store, ids: seq<Id>, fuel: nat)
    ensures Collect(s, ids, fuel).ChainExhausted? <==> exists i | 0 <= i < |ids| :: Resolve(s, ids[i], fuel).Exhausted?
  {
    if |ids| > 0 {
      CollectGivesUp(s, ids[1..], fuel);
      if exists i | 0 <= i < |ids[1..]| :: Resolve(s, ids[1..][i], fuel).Exhausted? {
        var i :| 0 <= i < |ids[1..]| && Resolve(s, ids[1..][i], fuel).Exhausted?;
        assert Resolve(s, ids[i + 1], fuel).Exhausted?;
      }
      if i :| 0 <= i < |ids| && Resolve(s, ids[i], fuel).Exhausted? {
        if i > 0 { assert Resolve(s, ids[1..][i - 1], fuel).Exhausted?; }
      }
    }
  }

  /** When every id resolves, a chain yields one item per id, in order. */
  lemma {:induction false} CollectAllResolved(s: Store, ids: seq<Id>, fuel: nat)
    requires forall i | 0 <= i < |ids| :: Resolve(s, ids[i], fuel).Resolved?
    ensures Collect(s, ids, fuel).Chain?
    ensures |Collect(s, ids, fuel).items| == |ids|
    ensures forall i | 0 <= i < |ids| :: Collect(s, ids, fuel).items[i] == Resolve(s, ids[i], fuel).view
  {
    if |ids| > 0 {
      assert forall i | 0 <= i < |ids[1..]| :: ids[1..][i] == ids[i + 1];
      CollectAllResolved(s, ids[1..], fuel);
      assert Resolve(s, ids[0], fuel).Resolved?;
    }
  }

  /**
   * The loop over a child chain: resolve each id, keep what resolves, then
   * move to that id's `next` — or stop when the id has no node.
   */
  function ResolveChain(s: Store, cur: Option<Id>, fuel: nat, visited: set<Id>): (r: ChainResolution)
    ensures !Truthy(cur) ==> r == Chain([])
    decreases fuel, 0, |s.nodes.Keys - visited|
  {
    if !Truthy(cur) then Chain([])
    else if cur.value in visited || fuel == 0 then ChainExhausted
    else
      var id := cur.value;
      var here := Resolve(s, id, fuel - 1);
      if here.Exhausted? then ChainExhausted
      else
        var kept := if here.Resolved? then [here.view] else [];
        if id !in s.nodes then Chain(kept)
        else
          VisitShrinks(s.nodes.Keys, visited, id);
          match ResolveChain(s, s.nodes[id].next, fuel, visited + {id})
          case ChainExhausted => ChainExhausted
          case Chain(rest) => Chain(kept + rest)
  }

  /**
   * Reference definition of a chain's result: resolve every id of the walk
   * in order, keep the ones that resolve, and give up if any does not end.
   */
  function Collect(s: Store, ids: seq<Id>, fuel: nat): (r: ChainResolution)
    ensures r.Chain? ==> |r.items| <= |ids|
  {
    if |ids| == 0 then Chain([])
    else
      var here := Resolve(s, ids[0], fuel);
      match Collect(s, ids[1..], fuel)
      case ChainExhausted => ChainExhausted
      case Chain(rest) =>
        if here.Exhausted? then ChainExhausted
        else if here.Resolved? then Chain([here.view] + rest)
        else Chain(rest)
  }

  /**
   * Children come out in chain order: the chain loop equals resolving,
   * in order, the ids of the walk along `next`, dropping those that do not
   * resolve.
   */
  lemma {:induction false} ResolveChainFollowsChain(s: Store, cur: Option<Id>, fuel: nat, visited: set<Id>)
    requires fuel > 0
    ensures ResolveChain(s, cur, fuel, visited) == ChainByIds(s, cur, fuel, visited)
    decreases |s.nodes.Keys - visited|
  {
    if Truthy(cur) && cur.value !in visited {
      var id := cur.value;
      if id !in s.nodes {
        assert ChainIds(s, cur, visited) == Some([id]);
        ResolveMissing(s, id, fuel - 1);
        CollectCons(s, id, [], fuel - 1);
        assert [id] + [] == [id];
      } else {
        VisitShrinks(s.nodes.Keys, visited, id);
        ResolveChainFollowsChain(s, s.nodes[id].next, fuel, visited + {id});
        ChainStep(s, cur, fuel, visited);
      }
    }
  }

  /** What the chain loop should give, by the reference definition. */
  function ChainByIds(s: Store, cur: Option<Id>, fuel: nat, visited: set<Id>): ChainResolution
    requires fuel > 0
  {
    match ChainIds(s, cur, visited)
    case None => ChainExhausted
    case Some(ids) => Collect(s, ids, fuel - 1)
  }

  /** One step of the chain loop agrees with the reference definition once the rest of the chain does. */
  lemma ChainStep(s: Store, cur: Option<Id>, fuel: nat, visited: set<Id>)
    requires fuel > 0 && Truthy(cur) && cur.value !in visited && cur.value in s.nodes
    requires var next := s.nodes[cur.value].next;
      ResolveChain(s, next, fuel, visited + {cur.value}) == ChainByIds(s, next, fuel, visited + {cur.value})
    ensures ResolveChain(s, cur, fuel, visited) == ChainByIds(s, cur, fuel, visited)
  {
    var id := cur.value;
    var next := s.nodes[id].next;
    var here := Resolve(s, id, fuel - 1);
    var kept := if here.Resolved? then [here.view] else [];
    var tail := ResolveChain(s, next, fuel, visited + {id});
    VisitShrinks(s.nodes.Keys, visited, id);
    assert ResolveChain(s, cur, fuel, visited) ==
      if here.Exhausted? then ChainExhausted
      else match tail
        case ChainExhausted => ChainExhausted
        case Chain(rest) => Chain(kept + rest);
    match ChainIds(s, next, visited + {id})
    case None =>
    case Some(rest) =>
      assert ChainIds(s, cur, visited) == Some([id] + rest);
      CollectCons(s, id, rest, fuel - 1);
      match tail
      case ChainExhausted =>
      case Chain(items) =>
        assert [] + items == items;
  }

  lemma CollectCons(s: Store, id: Id, rest: seq<Id>, fuel: nat)
    ensures Collect(s, [id] + rest, fuel) ==
      var here := Resolve(s, id, fuel);
      match Collect(s, rest, fuel)
      case ChainExhausted => ChainExhausted
      case Chain(items) =>
        if here.Exhausted? then ChainExhausted
        else if here.Resolved? then Chain([here.view] + items)
        else Chain(items)
  {
    assert ([id] + rest)[0] == id && ([id] + rest)[1..] == rest;
  }

  /**
   * A resolved node's children are the chain loop's items over the chain
   * under its component's `child`, which by the reference definition are
   * the chain's ids, resolved in order, with the unresolvable ones dropped.
   */
  lemma ResolvedChildrenFollowChain(s: Store, id: Id, fuel: nat)
    requires fuel > 0
    requires Resolve(s, id, fuel).Resolved?
    ensures var head := ChildChainHead(ComponentOf(s, id).value.body);
      && ChainIds(s, head, {}).Some?
      && Collect(s, ChainIds(s, head, {}).value, fuel - 1) == Chain(Resolve(s, id, fuel).view.children)
  {
    var head := ChildChainHead(ComponentOf(s, id).value.body);
    assert ResolveChain(s, head, fuel, {}) == Chain(Resolve(s, id, fuel).view.children);
    ResolveChainFollowsChain(s, head, fuel, {});
  }
}
