/**
 * The graph logic of the node routes (backend/routes/nodes.py): adding a
 * child component under a node, creating a node, and patching a node's
 * pointers. Request parsing is abstracted into small request records; the
 * ids `generate_id` would draw are parameters.
 */
module NodeRoutes {
  import opened Wrappers
  import opened Values
  import opened NodeEntity
  import opened ReferenceEntity
  import opened Components
  import opened Registry
  import opened Database
  import opened RefCounting
  import opened NodeTree
  import opened Chains
  import opened Integrity

  // ---- ids --------------------------------------------------------------------

  /** The range `generate_id` draws from as written: 0 is included. */
  predicate GeneratedIdAsWritten(id: Id) {
    0 <= id <= 0xFFFF_FFFF
  }

  /**
   * The range the rest of the code needs: every pointer test is a
   * truthiness test, so a record with id 0 cannot be linked to.
   */
  predicate GeneratedId(id: Id) {
    1 <= id <= 0xFFFF_FFFF
  }

  /**
   * Ids drawn for new records collide with nothing: no record has them and
   * no record points at them. The source never checks this; a random draw
   * from 2^32 values makes a collision unlikely, not impossible.
   */
  ghost predicate FreshIds(s: Store, compId: Id, refId: Id, childId: Id) {
    && (forall k | k in s.components :: k.1 != compId)
    && (forall r | r in s.references :: s.references[r].compId != compId)
    && refId !in s.references
    && (forall x | x in s.nodes :: s.nodes[x].refId != refId)
    && childId !in s.nodes
    && (forall x | x in s.nodes :: s.nodes[x].next != Some(childId) && s.nodes[x].prev != Some(childId))
    && (forall k | k in s.components :: IsContainer(s.components[k].body) ==> s.components[k].body.child != Some(childId))
  }

  // ---- add_child_to_node ------------------------------------------------------

  /** The body of an add-child request; an absent `config` is `Obj(map[])`. */
  datatype AddChildRequest = AddChildRequest(componentType: Option<string>, config: Value, after: Option<Id>)

  /**
   * The parent's component when it is a container. The parent's `ref_id` is
   * looked up as it is, without a truthiness test.
   */
  function ParentContainer(s: Store, parent: Node): (r: Option<Component>)
    ensures r.Some? ==> IsContainer(r.value.body) && r.value in s.components.Values
  {
    match LoadReference(s, parent.refId)
    case None => None
    case Some(ref) =>
      match LoadComponentById(s, ref.compId)
      case None => None
      case Some(c) => if IsContainer(c.body) then Some(c) else None
  }

  /** The head of a container's child chain; None for no container. */
  function HeadOf(pc: Option<Component>): Option<Id> {
    if pc.Some? && IsContainer(pc.value.body) then pc.value.body.child else None
  }

  /**
   * Where the new child goes: after the requested node, or, when no
   * (truthy) after-node was requested and the container already has a
   * (truthy) first child, after the last node of that chain. None when the
   * walk to the end of the chain never ends.
   */
  function InsertionPoint(s: Store, head: Option<Id>, after: Option<Id>): (r: Option<Option<Id>>)
    ensures Truthy(after) || !Truthy(head) ==> r == Some(after)
    ensures !Truthy(after) && Truthy(head) ==>
      && (r.None? <==> ChainIds(s, head, {}).None?)
      && (r.Some? ==>
            var ids := ChainIds(s, head, {}).value;
            r.value == Some(ids[|ids| - 1]))
  {
    if !Truthy(after) && Truthy(head) then
      LastInChainIsChainEnd(s, head.value, {});
      match LastInChain(s, head.value, {})
      case None => None
      case Some(last) => Some(Some(last))
    else Some(after)
  }

  /** The record store after the new component and its reference are saved. */
  function Prepared(s: Store, comp: Component, refId: Id, now: string): Store {
    CreateReferenceToComponent(SaveComponent(s, comp, now), comp.compId, None, 0, refId, now).0
  }

  /** The new node's successor: the after-node's current `next`, when the after-node loads. */
  function NextAfter(s: Store, after: Option<Id>): Option<Id> {
    if Truthy(after) && after.value in s.nodes then s.nodes[after.value].next else None
  }

  /**
   * Save the new node between `after` and its successor, point both
   * neighbours at it (each loaded after the previous save), and make it the
   * container's first child when the container had none.
   */
  function Place(s: Store, parentId: Id, after: Option<Id>, pc: Option<Component>,
                 refId: Id, childId: Id, now: string): (r: Store)
    ensures r.references == s.references
    ensures childId in r.nodes
  {
    var next := NextAfter(s, after);
    var s3 := SaveNode(s, Node(childId, refId, Some(parentId), after, next, now, now), now);
    var s4 := if Truthy(after) && after.value in s3.nodes
              then SaveNode(s3, s3.nodes[after.value].(next := Some(childId)), now) else s3;
    var s5 := if Truthy(next) && next.value in s4.nodes
              then SaveNode(s4, s4.nodes[next.value].(prev := Some(childId)), now) else s4;
    if pc.Some? && IsContainer(pc.value.body) && !Truthy(pc.value.body.child)
    then SaveComponent(s5, pc.value.(body := pc.value.body.(child := Some(childId))), now)
    else s5
  }

  /** True when a request names no usable component type. */
  predicate MissingType(t: Option<string>) {
    t.None? || t.value == ""
  }

  /**
   * `add_child_to_node`: create a component and a reference to it, then a
   * node for it under `parentId`, linked in after `req.after` or at the end
   * of the parent container's chain. `compId`, `refId` and `childId` are the
   * ids `generate_id` draws.
   */
  function AddChild(s: Store, parentId: Id, req: AddChildRequest,
                    compId: Id, refId: Id, childId: Id, now: string): (r: (Store, Result<Id>))
    ensures parentId !in s.nodes ==> r == (s, Err(NotFound))
    ensures parentId in s.nodes && (MissingType(req.componentType) || req.componentType.value !in ComponentTypes) ==>
      r == (s, Err(BadRequest))
    ensures r.1.Err? && r.1.error != Diverges ==> r.0 == s
    ensures r.1.Ok? ==> r.1.value == childId && childId in r.0.nodes && refId in r.0.references
  {
    match LoadNode(s, parentId)
    case None => (s, Err(NotFound))
    case Some(parent) =>
      if MissingType(req.componentType) || req.componentType.value !in ComponentTypes then (s, Err(BadRequest))
      else
        match NewComponent(req, compId, now)
        case Err(e) => (s, Err(e))
        case Ok(comp) => AddParsed(s, parentId, parent, comp, req.after, refId, childId, now)
  }

  /** The component `add_child_to_node` parses from the request: the tag, the config, and a drawn id. */
  function NewComponent(req: AddChildRequest, compId: Id, now: string): (r: Result<Component>)
    requires req.componentType.Some?
    ensures req.componentType.value !in ComponentTypes ==> r == Err(ValueError)
    ensures r.Ok? ==>
      && r.value.compId == compId && r.value.referenceCount == 0
      && TypeName(r.value.body) == req.componentType.value
  {
    ComponentFromDict(map["type" := Str(req.componentType.value), "config" := req.config, "comp_id" := Int(compId)], now)
  }

  /** The writes of `add_child_to_node` once the component has parsed. */
  function AddParsed(s: Store, parentId: Id, parent: Node, comp: Component, after: Option<Id>,
                     refId: Id, childId: Id, now: string): (r: (Store, Result<Id>))
    ensures r.1 == Ok(childId) || r.1 == Err(Diverges)
    ensures r.1.Ok? ==> childId in r.0.nodes && refId in r.0.references
  {
    var s2 := Prepared(s, comp, refId, now);
    var pc := ParentContainer(s2, parent);
    match InsertionPoint(s2, HeadOf(pc), after)
    case None => (s2, Err(Diverges))
    case Some(a) => (Place(s2, parentId, a, pc, refId, childId, now), Ok(childId))
  }

  // ---- add_child_to_node: records ----------------------------------------------

  /** The id scan only looks at the entries stored under that id. */
  lemma {:induction false} FirstHitSameId(c1: map<CompKey, Component>, c2: map<CompKey, Component>, id: Id, types: seq<string>)
    requires forall t | t in types :: (t, id) in c1 <==> (t, id) in c2
    ensures FirstHit(c1, id, types) == FirstHit(c2, id, types)
    decreases |types|
  {
    if |types| > 0 {
      FirstHitSameId(c1, c2, id, types[1..]);
    }
  }

  /** The id scan finds the only key stored under that id, when its tag is scanned. */
  lemma {:induction false} FirstHitOnly(c: map<CompKey, Component>, key: CompKey, types: seq<string>)
    requires key in c && key.0 in types
    requires forall k | k in c && k.1 == key.1 :: k == key
    ensures FirstHit(c, key.1, types) == Some(key)
    decreases |types|
  {
    if types[0] != key.0 {
      assert (types[0], key.1) !in c;
      FirstHitOnly(c, key, types[1..]);
    }
  }

  /** Raising the count of the only component stored under its id. */
  lemma IncrementOnly(s: Store, key: CompKey, now: string)
    requires key in s.components
    requires forall k | k in s.components && k.1 == key.1 :: k == key
    requires TypeName(s.components[key].body) == key.0 && s.components[key].compId == key.1
    ensures IncrementComponentRefCount(s, key.1, now).0
         == s.(components := s.components[key := IncrementReferenceCount(s.components[key], now)])
  {
    TypeNamesRegistered(s.components[key].body);
    FirstHitOnly(s.components, key, ComponentTypes);
    var c := IncrementReferenceCount(s.components[key], now);
    assert c.(updatedAt := now) == c;
  }

  /** Saving a component under a fresh id makes it the only one with that id. */
  lemma SaveFreshOnly(s: Store, comp: Component, now: string)
    requires forall k | k in s.components :: k.1 != comp.compId
    ensures var key := (TypeName(comp.body), comp.compId);
      var s1 := SaveComponent(s, comp, now);
      && key in s1.components && s1.components[key] == comp.(updatedAt := now)
      && forall k | k in s1.components && k.1 == key.1 :: k == key
  {
  }

  /**
   * Saving the parsed component under a fresh id and referencing it: the
   * component is stored with a count of one more than parsed, and the
   * reference is added with `node_id` 0; nothing else changes.
   */
  lemma PreparedRecords(s: Store, comp: Component, refId: Id, now: string)
    requires forall k | k in s.components :: k.1 != comp.compId
    ensures var s2 := Prepared(s, comp, refId, now);
      var key := (TypeName(comp.body), comp.compId);
      && s2.nodes == s.nodes
      && s2.references == s.references[refId := Reference(refId, 0, comp.compId, None, now, now)]
      && s2.components == s.components[key := comp.(referenceCount := comp.referenceCount + 1, updatedAt := now)]
  {
    var key := (TypeName(comp.body), comp.compId);
    var s1 := SaveComponent(s, comp, now);
    SaveFreshOnly(s, comp, now);
    IncrementOnly(s1, key, now);
    var c := IncrementReferenceCount(s1.components[key], now);
    assert c == comp.(referenceCount := comp.referenceCount + 1, updatedAt := now);
  }

  /** The new records leave the lookup of any other component id as it was. */
  lemma PreparedLookup(s: Store, comp: Component, refId: Id, now: string, cid: Id)
    requires cid != comp.compId && forall k | k in s.components :: k.1 != comp.compId
    ensures var s2 := Prepared(s, comp, refId, now);
      var hit := FindComponentKey(s, cid);
      && FindComponentKey(s2, cid) == hit
      && (hit.Some? ==> s2.components[hit.value] == s.components[hit.value])
  {
    var s2 := Prepared(s, comp, refId, now);
    PreparedRecords(s, comp, refId, now);
    FirstHitSameId(s.components, s2.components, cid, ComponentTypes);
  }

  /** With fresh ids the parent's container is the same before and after the new records are saved. */
  lemma PreparedParent(s: Store, comp: Component, refId: Id, now: string, parent: Node)
    requires forall k | k in s.components :: k.1 != comp.compId
    requires forall r | r in s.references :: s.references[r].compId != comp.compId
    requires parent.refId != refId
    ensures ParentContainer(Prepared(s, comp, refId, now), parent) == ParentContainer(s, parent)
  {
    var s2 := Prepared(s, comp, refId, now);
    PreparedRecords(s, comp, refId, now);
    assert LoadReference(s2, parent.refId) == LoadReference(s, parent.refId);
    if parent.refId in s.references {
      PreparedComponentById(s, comp, refId, now, s.references[parent.refId].compId);
    }
  }

  /** The new records leave the component found under any other id as it was. */
  lemma PreparedComponentById(s: Store, comp: Component, refId: Id, now: string, cid: Id)
    requires cid != comp.compId && forall k | k in s.components :: k.1 != comp.compId
    ensures LoadComponentById(Prepared(s, comp, refId, now), cid) == LoadComponentById(s, cid)
  {
    PreparedLookup(s, comp, refId, now, cid);
  }

  /** The append walk only reads nodes. */
  lemma {:induction false} LastInChainReadsNodes(s: Store, t: Store, cur: Id, visited: set<Id>)
    requires cur != 0 && s.nodes == t.nodes
    ensures LastInChain(s, cur, visited) == LastInChain(t, cur, visited)
    decreases |s.nodes.Keys - visited|
  {
    if cur !in visited && cur in s.nodes && Truthy(s.nodes[cur].next) {
      VisitShrinks(s.nodes.Keys, visited, cur);
      LastInChainReadsNodes(s, t, s.nodes[cur].next.value, visited + {cur});
    }
  }

  /** Where a successful add places the new node, computed on the store before the add. */
  function Placement(s: Store, parentId: Id, req: AddChildRequest): Option<Option<Id>>
    requires parentId in s.nodes
  {
    InsertionPoint(s, HeadOf(ParentContainer(s, s.nodes[parentId])), req.after)
  }

  /**
   * A successful add, with fresh ids, is the parsed component and its
   * reference saved, followed by the placement computed on the original
   * store.
   */
  lemma AddChildSteps(s: Store, parentId: Id, req: AddChildRequest,
                      compId: Id, refId: Id, childId: Id, now: string)
    requires FreshIds(s, compId, refId, childId)
    requires AddChild(s, parentId, req, compId, refId, childId, now).1.Ok?
    ensures parentId in s.nodes && req.componentType.Some? && NewComponent(req, compId, now).Ok?
    ensures Placement(s, parentId, req).Some?
    ensures var comp := NewComponent(req, compId, now).value;
      && comp.compId == compId && comp.referenceCount == 0
      && TypeName(comp.body) == req.componentType.value
      && AddChild(s, parentId, req, compId, refId, childId, now).0
         == Place(Prepared(s, comp, refId, now), parentId, Placement(s, parentId, req).value,
                  ParentContainer(s, s.nodes[parentId]), refId, childId, now)
  {
    AddChildIsParsed(s, parentId, req, compId, refId, childId, now);
    var parent := s.nodes[parentId];
    var comp := NewComponent(req, compId, now).value;
    ParsedSteps(s, parentId, parent, comp, req.after, refId, childId, now);
  }

  /** Past its checks, the route is the writes of the parsed component. */
  lemma AddChildIsParsed(s: Store, parentId: Id, req: AddChildRequest,
                         compId: Id, refId: Id, childId: Id, now: string)
    requires AddChild(s, parentId, req, compId, refId, childId, now).1.Ok?
    ensures parentId in s.nodes && req.componentType.Some? && NewComponent(req, compId, now).Ok?
    ensures AddChild(s, parentId, req, compId, refId, childId, now)
         == AddParsed(s, parentId, s.nodes[parentId], NewComponent(req, compId, now).value, req.after, refId, childId, now)
  {
  }

  /** The writes after parsing, with the placement computed on the original store. */
  lemma ParsedSteps(s: Store, parentId: Id, parent: Node, comp: Component, after: Option<Id>,
                    refId: Id, childId: Id, now: string)
    requires forall k | k in s.components :: k.1 != comp.compId
    requires forall r | r in s.references :: s.references[r].compId != comp.compId
    requires parent.refId != refId
    ensures var head := HeadOf(ParentContainer(s, parent));
      var r := AddParsed(s, parentId, parent, comp, after, refId, childId, now);
      && (r.1.Ok? <==> InsertionPoint(s, head, after).Some?)
      && (r.1.Ok? ==>
            r.0 == Place(Prepared(s, comp, refId, now), parentId, InsertionPoint(s, head, after).value,
                         ParentContainer(s, parent), refId, childId, now))
  {
    var s2 := Prepared(s, comp, refId, now);
    PreparedRecords(s, comp, refId, now);
    PreparedParent(s, comp, refId, now, parent);
    var head := HeadOf(ParentContainer(s, parent));
    if !Truthy(after) && Truthy(head) {
      LastInChainReadsNodes(s, s2, head.value, {});
    }
    assert InsertionPoint(s2, head, after) == InsertionPoint(s, head, after);
  }

  /** The container update of `Place`: only a container without a first child is rewritten, under its own key. */
  lemma PlaceComponents(s: Store, parentId: Id, after: Option<Id>, pc: Option<Component>,
                        refId: Id, childId: Id, now: string)
    ensures var r := Place(s, parentId, after, pc, refId, childId, now);
      r.components
        == if pc.Some? && IsContainer(pc.value.body) && !Truthy(pc.value.body.child)
           then s.components[(TypeName(pc.value.body), pc.value.compId)
                               := pc.value.(body := pc.value.body.(child := Some(childId)), updatedAt := now)]
           else s.components
  {
  }

  /**
   * A successful add creates the component under its requested tag with
   * `reference_count` 1 and a reference to it whose `node_id` stays 0, so
   * the usage list of the new component is empty.
   */
  lemma AddChildRecords(s: Store, parentId: Id, req: AddChildRequest,
                        compId: Id, refId: Id, childId: Id, now: string)
    requires WellKeyed(s) && FreshIds(s, compId, refId, childId)
    requires AddChild(s, parentId, req, compId, refId, childId, now).1.Ok?
    ensures var s' := AddChild(s, parentId, req, compId, refId, childId, now).0;
      && req.componentType.Some?
      && NewComponent(req, compId, now).Ok?
      && var key := (req.componentType.value, compId);
      && key in s'.components
      && s'.components[key].referenceCount == 1
      && s'.components[key].body == NewComponent(req, compId, now).value.body
      && s'.references == s.references[refId := Reference(refId, 0, compId, None, now, now)]
      && GetComponentUsages(s', compId) == {}
  {
    AddChildSteps(s, parentId, req, compId, refId, childId, now);
    var s' := AddChild(s, parentId, req, compId, refId, childId, now).0;
    var parent := s.nodes[parentId];
    var comp := NewComponent(req, compId, now).value;
    var s2 := Prepared(s, comp, refId, now);
    var pc := ParentContainer(s, parent);
    PreparedRecords(s, comp, refId, now);
    PlaceComponents(s2, parentId, Placement(s, parentId, req).value, pc, refId, childId, now);
    var key := (req.componentType.value, compId);
    if pc.Some? {
      assert pc.value.compId != compId;
    }
    assert s'.components[key] == s2.components[key];
    assert s'.references == s2.references;
    UsagesOfUnplacedReference(s', compId, refId);
  }

  /** A component whose only reference has no node is not listed as used. */
  lemma UsagesOfUnplacedReference(s: Store, compId: Id, refId: Id)
    requires refId in s.references && s.references[refId].nodeId == 0
    requires forall r | r in s.references && r != refId :: s.references[r].compId != compId
    ensures GetComponentUsages(s, compId) == {}
  {
  }

  // ---- add_child_to_node: links ---------------------------------------------------

  /** What `Place` does to the nodes: the new node, the after-node's `next` and its successor's `prev`. */
  lemma PlaceNodes(s: Store, parentId: Id, after: Option<Id>, pc: Option<Component>,
                   refId: Id, childId: Id, now: string)
    requires forall x | x in s.nodes :: s.nodes[x].nodeId == x
    requires childId !in s.nodes && !(Truthy(after) && after.value == childId)
    requires forall x | x in s.nodes :: s.nodes[x].next != Some(childId)
    ensures var r := Place(s, parentId, after, pc, refId, childId, now);
      var next := NextAfter(s, after);
      && r.nodes.Keys == s.nodes.Keys + {childId}
      && r.nodes[childId] == Node(childId, refId, Some(parentId), after, next, now, now)
      && forall x | x in s.nodes ::
           && r.nodes[x].next == (if Truthy(after) && x == after.value then Some(childId) else s.nodes[x].next)
           && r.nodes[x].prev == (if Truthy(next) && x == next.value then Some(childId) else s.nodes[x].prev)
           && r.nodes[x].nodeId == x
           && r.nodes[x].refId == s.nodes[x].refId
           && r.nodes[x].parent == s.nodes[x].parent
  {
    var next := NextAfter(s, after);
    var s3 := SaveNode(s, Node(childId, refId, Some(parentId), after, next, now, now), now);
    var s4 := if Truthy(after) && after.value in s3.nodes
              then SaveNode(s3, s3.nodes[after.value].(next := Some(childId)), now) else s3;
    var s5 := if Truthy(next) && next.value in s4.nodes
              then SaveNode(s4, s4.nodes[next.value].(prev := Some(childId)), now) else s4;
    assert Place(s, parentId, after, pc, refId, childId, now).nodes == s5.nodes;
    assert s4.nodes.Keys == s3.nodes.Keys == s5.nodes.Keys;
    forall x | x in s.nodes
      ensures s4.nodes[x].next == (if Truthy(after) && x == after.value then Some(childId) else s.nodes[x].next)
      ensures s4.nodes[x].prev == s.nodes[x].prev
      ensures s4.nodes[x].nodeId == x && s4.nodes[x].refId == s.nodes[x].refId && s4.nodes[x].parent == s.nodes[x].parent
    {
      assert s3.nodes[x] == s.nodes[x];
    }
    forall x | x in s.nodes
      ensures s5.nodes[x].next == s4.nodes[x].next
      ensures s5.nodes[x].prev == (if Truthy(next) && x == next.value then Some(childId) else s.nodes[x].prev)
      ensures s5.nodes[x].nodeId == x && s5.nodes[x].refId == s.nodes[x].refId && s5.nodes[x].parent == s.nodes[x].parent
    {
    }
  }

  /** The append walk ends at its start or at a node some other node's `next` names. */
  lemma {:induction false} LastInChainFrom(s: Store, cur: Id, visited: set<Id>)
    requires cur != 0
    ensures var r := LastInChain(s, cur, visited);
      r.Some? && r.value != cur ==> exists x | x in s.nodes :: s.nodes[x].next == r
    decreases |s.nodes.Keys - visited|
  {
    if cur !in visited && cur in s.nodes && Truthy(s.nodes[cur].next) {
      var nx := s.nodes[cur].next.value;
      VisitShrinks(s.nodes.Keys, visited, cur);
      LastInChainFrom(s, nx, visited + {cur});
    }
  }

  /** With fresh ids, the new node is never placed after itself. */
  lemma PlacementNotChild(s: Store, parentId: Id, req: AddChildRequest, compId: Id, refId: Id, childId: Id)
    requires FreshIds(s, compId, refId, childId) && parentId in s.nodes
    requires req.after != Some(childId)
    requires Placement(s, parentId, req).Some?
    ensures var a := Placement(s, parentId, req).value;
      !(Truthy(a) && a.value == childId)
  {
    var pc := ParentContainer(s, s.nodes[parentId]);
    var head := HeadOf(pc);
    if !Truthy(req.after) && Truthy(head) {
      var k :| k in s.components && s.components[k] == pc.value;
      LastInChainFrom(s, head.value, {});
    }
  }

  /**
   * A successful add saves the new node with the parent, its place as `prev`
   * and the after-node's former `next`; the after-node and that successor
   * are pointed at it, and no other pointer changes. Without a requested
   * after-node, the place is the end of the parent container's chain.
   */
  lemma AddChildLinks(s: Store, parentId: Id, req: AddChildRequest,
                      compId: Id, refId: Id, childId: Id, now: string)
    requires WellKeyed(s) && FreshIds(s, compId, refId, childId)
    requires req.after != Some(childId)
    requires AddChild(s, parentId, req, compId, refId, childId, now).1.Ok?
    ensures parentId in s.nodes && Placement(s, parentId, req).Some?
    ensures var s' := AddChild(s, parentId, req, compId, refId, childId, now).0;
      var a := Placement(s, parentId, req).value;
      var next := NextAfter(s, a);
      && s'.nodes.Keys == s.nodes.Keys + {childId}
      && s'.nodes[childId] == Node(childId, refId, Some(parentId), a, next, now, now)
      && forall x | x in s.nodes ::
           && s'.nodes[x].next == (if Truthy(a) && x == a.value then Some(childId) else s.nodes[x].next)
           && s'.nodes[x].prev == (if Truthy(next) && x == next.value then Some(childId) else s.nodes[x].prev)
           && s'.nodes[x].nodeId == x
           && s'.nodes[x].refId == s.nodes[x].refId
           && s'.nodes[x].parent == s.nodes[x].parent
  {
    AddChildSteps(s, parentId, req, compId, refId, childId, now);
    var comp := NewComponent(req, compId, now).value;
    var s2 := Prepared(s, comp, refId, now);
    PreparedRecords(s, comp, refId, now);
    PlacementNotChild(s, parentId, req, compId, refId, childId);
    PlaceNodes(s2, parentId, Placement(s, parentId, req).value, ParentContainer(s, s.nodes[parentId]), refId, childId, now);
  }

  /** Every container's truthy first child is an existing node. */
  ghost predicate ChildHeadsExist(s: Store) {
    forall k | k in s.components ::
      IsContainer(s.components[k].body) && Truthy(s.components[k].body.child) ==> s.components[k].body.child.value in s.nodes
  }

  /**
   * Splicing a fresh node `c` in after `a` (an existing node, or no place)
   * keeps sibling symmetry and creates no self-link.
   */
  lemma SpliceSymmetric(m: map<Id, Node>, m': map<Id, Node>, a: Option<Id>, c: Id)
    requires Symmetric(m) && NoSelfLinks(m) && 0 !in m
    requires c != 0 && c !in m
    requires forall x | x in m :: m[x].next != Some(c) && m[x].prev != Some(c)
    requires !Truthy(a) || a.value in m
    requires var next := if Truthy(a) then m[a.value].next else None;
      && m'.Keys == m.Keys + {c}
      && m'[c].prev == a && m'[c].next == next
      && forall x | x in m ::
           && m'[x].next == (if Truthy(a) && x == a.value then Some(c) else m[x].next)
           && m'[x].prev == (if Truthy(next) && x == next.value then Some(c) else m[x].prev)
    ensures Symmetric(m') && NoSelfLinks(m')
  {
    var next := if Truthy(a) then m[a.value].next else None;
    if Truthy(a) {
      assert NextOk(m, a.value);
    }
    forall x | x in m'
      ensures NextOk(m', x) && PrevOk(m', x)
    {
      if x != c {
        assert NextOk(m, x) && PrevOk(m, x);
        if Truthy(m[x].next) { assert PrevOk(m, m[x].next.value); }
        if Truthy(m[x].prev) { assert NextOk(m, m[x].prev.value); }
      }
    }
  }

  /**
   * Sibling symmetry survives a successful add when the ids are fresh, the
   * requested after-node is none or an existing node, and every container's
   * first child exists.
   */
  lemma AddChildPreservesSymmetry(s: Store, parentId: Id, req: AddChildRequest,
                                  compId: Id, refId: Id, childId: Id, now: string)
    requires WellKeyed(s) && FreshIds(s, compId, refId, childId) && GeneratedId(childId)
    requires Symmetric(s.nodes) && NoSelfLinks(s.nodes) && 0 !in s.nodes && ChildHeadsExist(s)
    requires !Truthy(req.after) || req.after.value in s.nodes
    requires AddChild(s, parentId, req, compId, refId, childId, now).1.Ok?
    ensures var s' := AddChild(s, parentId, req, compId, refId, childId, now).0;
      Symmetric(s'.nodes) && NoSelfLinks(s'.nodes) && 0 !in s'.nodes
  {
    AddChildLinks(s, parentId, req, compId, refId, childId, now);
    var s' := AddChild(s, parentId, req, compId, refId, childId, now).0;
    var a := Placement(s, parentId, req).value;
    PlacementExists(s, parentId, req);
    SpliceSymmetric(s.nodes, s'.nodes, a, childId);
  }

  /** In a symmetric store whose container heads exist, the place a new node goes is none or an existing node. */
  lemma PlacementExists(s: Store, parentId: Id, req: AddChildRequest)
    requires Symmetric(s.nodes) && ChildHeadsExist(s) && parentId in s.nodes
    requires !Truthy(req.after) || req.after.value in s.nodes
    requires Placement(s, parentId, req).Some?
    ensures var a := Placement(s, parentId, req).value;
      !Truthy(a) || a.value in s.nodes
  {
    var pc := ParentContainer(s, s.nodes[parentId]);
    var head := HeadOf(pc);
    if !Truthy(req.after) && Truthy(head) {
      var k :| k in s.components && s.components[k] == pc.value;
      LastInChainFrom(s, head.value, {});
      var last := LastInChain(s, head.value, {});
      if last.value != head.value {
        var x :| x in s.nodes && s.nodes[x].next == last;
        assert NextOk(s.nodes, x);
      }
    }
  }

  // ---- add_child_to_node: the parent container and the counts ---------------------

  /** Whether the add makes the new node the first child of the parent container `pc`. */
  predicate FillsEmptyContainer(pc: Option<Component>) {
    pc.Some? && IsContainer(pc.value.body) && !Truthy(pc.value.body.child)
  }

  /** The components after the new records are saved and the node is placed. */
  lemma PreparedPlaceComponents(s: Store, comp: Component, refId: Id, parentId: Id, a: Option<Id>,
                                pc: Option<Component>, childId: Id, now: string)
    requires WellKeyed(s) && forall k | k in s.components :: k.1 != comp.compId
    requires pc.Some? ==> pc.value in s.components.Values
    ensures var s' := Place(Prepared(s, comp, refId, now), parentId, a, pc, refId, childId, now);
      var key := (TypeName(comp.body), comp.compId);
      && s'.components.Keys == s.components.Keys + {key}
      && s'.components[key] == comp.(referenceCount := comp.referenceCount + 1, updatedAt := now)
      && forall k | k in s.components ::
           if FillsEmptyContainer(pc) && s.components[k] == pc.value
           then s'.components[k] == pc.value.(body := pc.value.body.(child := Some(childId)), updatedAt := now)
           else s'.components[k] == s.components[k]
  {
    var key := (TypeName(comp.body), comp.compId);
    PreparedRecords(s, comp, refId, now);
    PlacedComponents(s, Prepared(s, comp, refId, now), key, comp.(referenceCount := comp.referenceCount + 1, updatedAt := now),
                     parentId, a, pc, refId, childId, now);
  }

  /** `Place` on a store holding one component more than `s`. */
  lemma PlacedComponents(s: Store, s2: Store, key: CompKey, added: Component, parentId: Id, a: Option<Id>,
                         pc: Option<Component>, refId: Id, childId: Id, now: string)
    requires WellKeyed(s) && key !in s.components
    requires pc.Some? ==> pc.value in s.components.Values
    requires s2.components == s.components[key := added]
    ensures var s' := Place(s2, parentId, a, pc, refId, childId, now);
      && s'.components.Keys == s.components.Keys + {key}
      && s'.components[key] == added
      && forall k | k in s.components ::
           if FillsEmptyContainer(pc) && s.components[k] == pc.value
           then s'.components[k] == pc.value.(body := pc.value.body.(child := Some(childId)), updatedAt := now)
           else s'.components[k] == s.components[k]
  {
    var s' := Place(s2, parentId, a, pc, refId, childId, now);
    PlaceComponents(s2, parentId, a, pc, refId, childId, now);
    if FillsEmptyContainer(pc) {
      var k0 :| k0 in s.components && s.components[k0] == pc.value;
      assert k0 == (TypeName(pc.value.body), pc.value.compId);
      assert s'.components == s2.components[k0 := pc.value.(body := pc.value.body.(child := Some(childId)), updatedAt := now)];
    } else {
      assert s'.components == s2.components;
    }
  }

  /**
   * A successful add stores one new component, and makes the new node the
   * parent container's first child only when that container had no
   * (truthy) first child; every other component keeps its record.
   */
  lemma AddChildFirstChild(s: Store, parentId: Id, req: AddChildRequest,
                           compId: Id, refId: Id, childId: Id, now: string)
    requires WellKeyed(s) && FreshIds(s, compId, refId, childId)
    requires AddChild(s, parentId, req, compId, refId, childId, now).1.Ok?
    ensures parentId in s.nodes && req.componentType.Some?
    ensures var s' := AddChild(s, parentId, req, compId, refId, childId, now).0;
      s'.components.Keys == s.components.Keys + {(req.componentType.value, compId)}
    ensures var s' := AddChild(s, parentId, req, compId, refId, childId, now).0;
      var pc := ParentContainer(s, s.nodes[parentId]);
      forall k | k in s.components ::
        if FillsEmptyContainer(pc) && s.components[k] == pc.value
        then s'.components[k] == pc.value.(body := pc.value.body.(child := Some(childId)), updatedAt := now)
        else s'.components[k] == s.components[k]
  {
    AddChildSteps(s, parentId, req, compId, refId, childId, now);
    var comp := NewComponent(req, compId, now).value;
    PreparedPlaceComponents(s, comp, refId, parentId, Placement(s, parentId, req).value,
                            ParentContainer(s, s.nodes[parentId]), childId, now);
  }

  /** Counts and ids of components, and the references, are all that count exactness reads. */
  lemma CountsExactFrom(s: Store, t: Store)
    requires RefCountsExact(s) && t.references == s.references && t.components.Keys == s.components.Keys
    requires forall k | k in s.components ::
      t.components[k].referenceCount == s.components[k].referenceCount && t.components[k].compId == s.components[k].compId
    ensures RefCountsExact(t)
  {
  }

  /**
   * Saving one fresh component with count 1 and one reference to it,
   * rewriting one container's first child and adding a node keeps the store
   * well keyed and every count exact.
   */
  lemma AddedRecordsExact(s: Store, s': Store, comp: Component, ref: Reference, fill: Option<Component>)
    requires Counted(s)
    requires forall k | k in s.components :: k.1 != comp.compId
    requires forall r | r in s.references :: s.references[r].compId != comp.compId
    requires ref.refId !in s.references && ref.compId == comp.compId
    requires comp.referenceCount == 1 && (fill.Some? ==> IsContainer(fill.value.body))
    requires var key := (TypeName(comp.body), comp.compId);
      && s'.components.Keys == s.components.Keys + {key}
      && s'.components[key] == comp
      && forall k | k in s.components ::
           if fill.Some? && s.components[k] == fill.value
           then s'.components[k].referenceCount == fill.value.referenceCount
             && s'.components[k].compId == fill.value.compId
             && TypeName(s'.components[k].body) == TypeName(fill.value.body)
           else s'.components[k] == s.components[k]
    requires s'.references == s.references[ref.refId := ref]
    requires forall x | x in s'.nodes :: s'.nodes[x].nodeId == x
    ensures Counted(s')
  {
    var key := (TypeName(comp.body), comp.compId);
    NoRefsTo(s.references, comp.compId);
    RefsToInsert(s.references, ref.refId, ref, comp.compId);
    assert RefsTo(s'.references, comp.compId) == {ref.refId};
    forall k | k in s'.components
      ensures s'.components[k].referenceCount == |RefsTo(s'.references, s'.components[k].compId)|
      ensures s'.components[k].compId == k.1 && TypeName(s'.components[k].body) == k.0
    {
      if k != key {
        RefsToInsert(s.references, ref.refId, ref, k.1);
      }
    }
  }

  /** No reference names an id no reference carries. */
  lemma NoRefsTo(refs: map<Id, Reference>, cid: Id)
    requires forall r | r in refs :: refs[r].compId != cid
    ensures RefsTo(refs, cid) == {}
  {
    assert forall r | r in refs :: r !in RefsTo(refs, cid);
  }

  /** Placing a node keeps every node stored under its own id. */
  lemma PlaceKeyed(s: Store, parentId: Id, after: Option<Id>, pc: Option<Component>,
                   refId: Id, childId: Id, now: string)
    requires forall x | x in s.nodes :: s.nodes[x].nodeId == x
    ensures var r := Place(s, parentId, after, pc, refId, childId, now);
      forall x | x in r.nodes :: r.nodes[x].nodeId == x
  {
  }

  /** Saving the new records and placing the node keeps the store well keyed and every count exact. */
  lemma PreparedPlaceExact(s: Store, comp: Component, refId: Id, parentId: Id, a: Option<Id>,
                           pc: Option<Component>, childId: Id, now: string)
    requires Counted(s)
    requires forall k | k in s.components :: k.1 != comp.compId
    requires forall r | r in s.references :: s.references[r].compId != comp.compId
    requires refId !in s.references && comp.referenceCount == 0
    requires pc.Some? ==> pc.value in s.components.Values && IsContainer(pc.value.body)
    ensures var s' := Place(Prepared(s, comp, refId, now), parentId, a, pc, refId, childId, now);
      Counted(s')
  {
    var s2 := Prepared(s, comp, refId, now);
    var s' := Place(s2, parentId, a, pc, refId, childId, now);
    PreparedRecords(s, comp, refId, now);
    PreparedPlaceComponents(s, comp, refId, parentId, a, pc, childId, now);
    PlaceKeyed(s2, parentId, a, pc, refId, childId, now);
    AddedRecordsExact(s, s', comp.(referenceCount := 1, updatedAt := now), Reference(refId, 0, comp.compId, None, now, now),
                      if FillsEmptyContainer(pc) then pc else None);
  }

  /** A successful add with fresh ids keeps the store well keyed and every count exact. */
  lemma AddChildKeepsCountsExact(s: Store, parentId: Id, req: AddChildRequest,
                                 compId: Id, refId: Id, childId: Id, now: string)
    requires Counted(s) && FreshIds(s, compId, refId, childId)
    requires AddChild(s, parentId, req, compId, refId, childId, now).1.Ok?
    ensures var s' := AddChild(s, parentId, req, compId, refId, childId, now).0;
      Counted(s')
  {
    AddChildSteps(s, parentId, req, compId, refId, childId, now);
    PreparedPlaceExact(s, NewComponent(req, compId, now).value, refId, parentId, Placement(s, parentId, req).value,
                       ParentContainer(s, s.nodes[parentId]), childId, now);
  }

  /** With ids drawn from the corrected range, a successful add never stores a node 0. */
  lemma AddChildKeepsZeroOut(s: Store, parentId: Id, req: AddChildRequest,
                             compId: Id, refId: Id, childId: Id, now: string)
    requires WellKeyed(s) && FreshIds(s, compId, refId, childId) && GeneratedId(childId)
    requires 0 !in s.nodes && req.after != Some(childId)
    requires AddChild(s, parentId, req, compId, refId, childId, now).1.Ok?
    ensures 0 !in AddChild(s, parentId, req, compId, refId, childId, now).0.nodes
  {
    AddChildLinks(s, parentId, req, compId, refId, childId, now);
  }

  /**
   * Node 0 in front of node 5: symmetric, because a `prev` of 0 is falsy
   * and asks for no partner. Only an id drawn as 0 puts a node 0 there.
   */
  function ZeroStore(): Store {
    Store(
      map[0 := Node(0, 1, None, None, Some(5), "t", "t"),
          5 := Node(5, 2, None, Some(0), None, "t", "t")],
      map[], map[])
  }

  /**
   * The id range as written admits 0, and a node 0 breaks `move_node`:
   * moving node 5 to no place leaves node 0's `next` pointing at it while
   * node 5 no longer points back.
   */
  lemma ZeroIdBreaksMove()
    ensures GeneratedIdAsWritten(0) && !GeneratedId(0)
    ensures WellKeyed(ZeroStore()) && Symmetric(ZeroStore().nodes) && LocallyAcyclic(ZeroStore().nodes)
    ensures !Symmetric(MoveNode(ZeroStore(), 5, None, None, "t").0.nodes)
  {
    var s := ZeroStore();
    assert NextOk(s.nodes, 0) && PrevOk(s.nodes, 0) && NextOk(s.nodes, 5) && PrevOk(s.nodes, 5);
    var m := MoveNode(s, 5, None, None, "t").0.nodes;
    assert m[0].next == Some(5) && m[5].prev == None;
    assert !NextOk(m, 0);
  }

  // ---- create_node ------------------------------------------------------------------

  /** The body of a create-node request. */
  datatype CreateNodeRequest = CreateNodeRequest(
    refId: Option<Id>,
    compId: Option<Id>,
    componentType: Option<string>,
    overrides: Option<Config>,
    parent: Option<Id>,
    prev: Option<Id>,
    next: Option<Id>)

  /**
   * `create_node`: use the given reference, or (when no truthy `ref_id` is
   * given) create one to the component named by tag and id; then save the
   * node with exactly the requested pointers. `newRefId` and `nodeId` are
   * the ids `generate_id` draws.
   */
  function CreateNode(s: Store, req: CreateNodeRequest, newRefId: Id, nodeId: Id, now: string): (r: (Store, Result<Id>))
    ensures r.1.Err? ==> r.0 == s
    ensures r.1.Ok? ==> r.1.value == nodeId
    ensures Truthy(req.refId) ==>
      (if req.refId.value in s.references then r.1.Ok? else r.1 == Err(NotFound))
    ensures !Truthy(req.refId) && (!Truthy(req.compId) || MissingType(req.componentType)) ==> r.1 == Err(BadRequest)
    ensures !Truthy(req.refId) && Truthy(req.compId) && !MissingType(req.componentType) ==>
      if req.componentType.value !in ComponentTypes then r.1 == Err(BadRequest)
      else if (req.componentType.value, req.compId.value) !in s.components then r.1 == Err(NotFound)
      else r.1.Ok?
    ensures r.1.Ok? ==>
      var ref := if Truthy(req.refId) then req.refId.value else newRefId;
      r.0.nodes == s.nodes[nodeId := Node(nodeId, ref, req.parent, req.prev, req.next, now, now)]
    ensures r.1.Ok? && Truthy(req.refId) ==> r.0.references == s.references && r.0.components == s.components
    ensures r.1.Ok? && !Truthy(req.refId) ==>
      r.0.references == s.references[newRefId := Reference(newRefId, 0, req.compId.value, req.overrides, now, now)]
  {
    match NodeReference(s, req, newRefId, now)
    case Err(e) => (s, Err(e))
    case Ok((s1, ref)) =>
      (SaveNode(s1, Node(nodeId, ref, req.parent, req.prev, req.next, now, now), now), Ok(nodeId))
  }

  /** The reference a new node will use, and the store after creating it when needed. */
  function NodeReference(s: Store, req: CreateNodeRequest, newRefId: Id, now: string): Result<(Store, Id)> {
    if !Truthy(req.refId) then
      if !Truthy(req.compId) || MissingType(req.componentType) then Err(BadRequest)
      else if req.componentType.value !in ComponentTypes then Err(BadRequest)
      else if (req.componentType.value, req.compId.value) !in s.components then Err(NotFound)
      else Ok(CreateReferenceToComponent(s, req.compId.value, req.overrides, 0, newRefId, now))
    else if req.refId.value !in s.references then Err(NotFound)
    else Ok((s, req.refId.value))
  }

  /**
   * Creating a node keeps every count exact: the reference it creates is
   * fresh and bumps its component once; a given reference is reused as is.
   * The new node is written under its own id.
   */
  lemma CreateNodeKeepsCountsExact(s: Store, req: CreateNodeRequest, newRefId: Id, nodeId: Id, now: string)
    requires Counted(s)
    requires newRefId !in s.references
    ensures var s' := CreateNode(s, req, newRefId, nodeId, now).0;
      Counted(s')
  {
    match NodeReference(s, req, newRefId, now)
    case Err(_) =>
    case Ok((s1, ref)) =>
      NodeReferenceKeepsCountsExact(s, req, newRefId, now);
      var node := Node(nodeId, ref, req.parent, req.prev, req.next, now, now);
      assert CreateNode(s, req, newRefId, nodeId, now).0 == SaveNode(s1, node, now);
      SaveNodeKeepsCounts(s1, node, now);
  }

  /** The reference step of `create_node` keeps every count exact. */
  lemma NodeReferenceKeepsCountsExact(s: Store, req: CreateNodeRequest, newRefId: Id, now: string)
    requires Counted(s)
    requires newRefId !in s.references
    ensures NodeReference(s, req, newRefId, now).Ok? ==>
      var s1 := NodeReference(s, req, newRefId, now).value.0;
      WellKeyed(s1) && UniqueCompIds(s1) && RefCountsExact(s1)
  {
    if !Truthy(req.refId) && NodeReference(s, req, newRefId, now).Ok? {
      CreateReferenceKeepsCountsExact(s, req.compId.value, req.overrides, 0, newRefId, now);
    }
  }

  /** Saving a node under its own id keeps the store's shape and counts. */
  lemma SaveNodeKeepsCounts(s: Store, n: Node, now: string)
    requires Counted(s)
    ensures var s' := SaveNode(s, n, now);
      Counted(s')
  {
  }

  // ---- update_node ------------------------------------------------------------------

  /** The keys a PUT body carries: absent keys are None; a present key may set a pointer to null. */
  datatype NodePatch = NodePatch(
    refId: Option<Id>,
    parent: Option<Option<Id>>,
    prev: Option<Option<Id>>,
    next: Option<Option<Id>>)

  /** The value of a field after a patch: the patched value when the key is present. */
  function Patched<T>(field: Option<T>, current: T): (r: T)
    ensures field.None? ==> r == current
    ensures field.Some? ==> r == field.value
  {
    match field
    case None => current
    case Some(v) => v
  }

  /**
   * `update_node_endpoint`: overwrite the four fields the body names and
   * save the node; neighbours are never touched, so the caller keeps the
   * links symmetric.
   */
  function UpdateNode(s: Store, nodeId: Id, patch: NodePatch, now: string): (r: (Store, Result<Id>))
    ensures r.1.Ok? <==> nodeId in s.nodes
    ensures r.1.Err? ==> r.1 == Err(NotFound) && r.0 == s
    ensures r.1.Ok? ==> r.1.value == nodeId
    ensures r.0.references == s.references && r.0.components == s.components
    ensures r.1.Ok? ==>
      var n := s.nodes[nodeId];
      r.0.nodes == s.nodes[n.nodeId := n.(refId := Patched(patch.refId, n.refId),
                                         parent := Patched(patch.parent, n.parent),
                                         prev := Patched(patch.prev, n.prev),
                                         next := Patched(patch.next, n.next),
                                         updatedAt := now)]
  {
    match LoadNode(s, nodeId)
    case None => (s, Err(NotFound))
    case Some(existing) =>
      var updated := existing.(refId := Patched(patch.refId, existing.refId),
                               parent := Patched(patch.parent, existing.parent),
                               prev := Patched(patch.prev, existing.prev),
                               next := Patched(patch.next, existing.next));
      (SaveNode(s, updated, now), Ok(nodeId))
  }

  /** An empty body only refreshes the node's timestamp. */
  lemma UpdateNodeEmptyPatch(s: Store, nodeId: Id, now: string)
    requires WellKeyed(s) && nodeId in s.nodes
    ensures var s' := UpdateNode(s, nodeId, NodePatch(None, None, None, None), now).0;
      && s'.nodes.Keys == s.nodes.Keys
      && s'.nodes[nodeId] == s.nodes[nodeId].(updatedAt := now)
      && forall id | id in s.nodes && id != nodeId :: s'.nodes[id] == s.nodes[id]
  {
  }

  /** Sending the same body twice leaves the store as sending it once. */
  lemma UpdateNodeIdempotent(s: Store, nodeId: Id, patch: NodePatch, now: string)
    requires WellKeyed(s)
    ensures var s1 := UpdateNode(s, nodeId, patch, now).0;
      UpdateNode(s1, nodeId, patch, now) == UpdateNode(s, nodeId, patch, now)
  {
    if nodeId in s.nodes {
      var n := s.nodes[nodeId];
      var n1 := n.(refId := Patched(patch.refId, n.refId),
                   parent := Patched(patch.parent, n.parent),
                   prev := Patched(patch.prev, n.prev),
                   next := Patched(patch.next, n.next),
                   updatedAt := now);
      var s1 := UpdateNode(s, nodeId, patch, now).0;
      assert s1.nodes == s.nodes[nodeId := n1];
      assert s1.nodes[nodeId] == n1;
      assert UpdateNode(s1, nodeId, patch, now).0.nodes == s1.nodes[nodeId := n1];
      assert s1.nodes[nodeId := n1] == s1.nodes;
    }
  }

  /** An update keeps the store well keyed and touches only the named node. */
  lemma UpdateNodeOnly(s: Store, nodeId: Id, patch: NodePatch, now: string)
    requires WellKeyed(s)
    ensures var s' := UpdateNode(s, nodeId, patch, now).0;
      && WellKeyed(s')
      && s'.nodes.Keys == s.nodes.Keys
      && forall id | id in s.nodes && id != nodeId :: s'.nodes[id] == s.nodes[id]
  {
  }
}
