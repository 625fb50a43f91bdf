/**
 * Reference-count bookkeeping of backend/database.py: creating and deleting
 * references, the count helpers they call, and the refusal to delete a
 * component that is still referenced (backend/routes/components.py).
 */
module RefCounting {
  import opened Wrappers
  import opened Values
  import opened ReferenceEntity
  import opened Components
  import opened Registry
  import opened Database

  /** `increment_component_ref_count`: false, and no write, when no component has this id. */
  function IncrementComponentRefCount(s: Store, compId: Id, now: string): (r: (Store, bool))
    ensures r.1 <==> LoadComponentById(s, compId).Some?
    ensures !r.1 ==> r.0 == s
    ensures r.0.nodes == s.nodes && r.0.references == s.references
    ensures WellKeyed(s) ==> SameComponents(s, r.0) && WellKeyed(r.0)
  {
    match FindComponentKey(s, compId)
    case None => (s, false)
    case Some(k) =>
      var c := IncrementReferenceCount(s.components[k], now);
      RecountKeepsShape(s, k, c, now);
      (SaveComponent(s, c, now), true)
  }

  /** `decrement_component_ref_count`: false, and no write, when no component has this id. */
  function DecrementComponentRefCount(s: Store, compId: Id, now: string): (r: (Store, bool))
    ensures r.1 <==> LoadComponentById(s, compId).Some?
    ensures !r.1 ==> r.0 == s
    ensures r.0.nodes == s.nodes && r.0.references == s.references
    ensures WellKeyed(s) ==> SameComponents(s, r.0) && WellKeyed(r.0)
  {
    match FindComponentKey(s, compId)
    case None => (s, false)
    case Some(k) =>
      var c := DecrementReferenceCount(s.components[k], now);
      RecountKeepsShape(s, k, c, now);
      (SaveComponent(s, c, now), true)
  }

  /** Rewriting a component with its own body and id keeps the store's shape. */
  lemma RecountKeepsShape(s: Store, k: CompKey, c: Component, now: string)
    requires k in s.components && c.body == s.components[k].body && c.compId == s.components[k].compId
    ensures WellKeyed(s) ==>
      var s' := SaveComponent(s, c, now);
      SameComponents(s, s') && WellKeyed(s')
  {
    if WellKeyed(s) {
      var s' := SaveComponent(s, c, now);
      assert (TypeName(c.body), c.compId) == k;
      assert s'.components == s.components[k := c.(updatedAt := now)];
    }
  }

  /**
   * `create_reference_to_component`: bump the target's count, then save the
   * new reference — even when no component has that id.
   */
  function CreateReferenceToComponent(
    s: Store, compId: Id, overrides: Option<Config>, nodeId: Id, refId: Id, now: string): (r: (Store, Id))
    ensures r.1 == refId
    ensures r.0.references == s.references[refId := Reference(refId, nodeId, compId, overrides, now, now)]
    ensures r.0.nodes == s.nodes
    ensures LoadComponentById(s, compId).None? ==> r.0.components == s.components
  {
    var (s1, _) := IncrementComponentRefCount(s, compId, now);
    var ref := Reference(refId, nodeId, compId, overrides, now, now);
    (SaveReference(s1, ref, now), refId)
  }

  /** Creating a reference adds one to the count of exactly the components with the target id. */
  lemma CreateReferenceCounts(
    s: Store, compId: Id, overrides: Option<Config>, nodeId: Id, refId: Id, now: string)
    requires WellKeyed(s) && UniqueCompIds(s)
    ensures var s' := CreateReferenceToComponent(s, compId, overrides, nodeId, refId, now).0;
      && SameComponents(s, s')
      && forall k | k in s.components ::
           s'.components[k].referenceCount
             == s.components[k].referenceCount + (if k.1 == compId then 1 else 0)
  {
    IncrementCountsWhenCounted(s, compId, now);
  }

  /**
   * `delete_reference`: on an existing reference, decrement its component's
   * count and remove it; on a missing id, report false and change nothing.
   */
  function DeleteReference(s: Store, refId: Id, now: string): (r: (Store, bool))
    ensures r.1 <==> refId in s.references
    ensures !r.1 ==> r.0 == s
    ensures r.1 ==> r.0.references == s.references - {refId}
    ensures r.0.nodes == s.nodes
  {
    match LoadReference(s, refId)
    case None => (s, false)
    case Some(ref) =>
      var (s1, _) := DecrementComponentRefCount(s, ref.compId, now);
      (s1.(references := s1.references - {refId}), true)
  }

  /**
   * Deleting an existing reference takes one from the count of exactly the
   * components with its target id, never below zero.
   */
  lemma DeleteReferenceCounts(s: Store, refId: Id, now: string)
    requires WellKeyed(s) && UniqueCompIds(s) && refId in s.references
    ensures var s' := DeleteReference(s, refId, now).0;
      var cid := s.references[refId].compId;
      && SameComponents(s, s')
      && forall k | k in s.components ::
           s'.components[k].referenceCount
             == if k.1 == cid && s.components[k].referenceCount > 0
                then s.components[k].referenceCount - 1
                else s.components[k].referenceCount
  {
    DecrementCountsWhenCounted(s, s.references[refId].compId, now);
  }

  /** Deleting a reference only removes it and adjusts a count. */
  lemma DeleteReferenceShrinks(s: Store, refId: Id, now: string)
    requires WellKeyed(s)
    ensures var s' := DeleteReference(s, refId, now).0;
      Shrinks(s, s') && WellKeyed(s')
  {
    if refId in s.references {
      var s' := DeleteReference(s, refId, now).0;
      var s1 := DecrementComponentRefCount(s, s.references[refId].compId, now).0;
      assert s'.components == s1.components;
      assert SameComponents(s, s1) && WellKeyed(s1);
      assert s'.nodes == s.nodes && s'.references == s.references - {refId};
      SubStoreShape(s, s1, s');
    }
  }

  /** Removing records from a well-keyed store whose components were only recounted. */
  lemma SubStoreShape(s: Store, s1: Store, s': Store)
    requires WellKeyed(s) && SameComponents(s, s1) && WellKeyed(s1)
    requires s'.components == s1.components
    requires forall id | id in s'.nodes :: id in s.nodes && s'.nodes[id] == s.nodes[id]
    requires forall id | id in s'.references :: id in s.references && s'.references[id] == s.references[id]
    ensures Shrinks(s, s') && WellKeyed(s')
  {
  }

  /** What deleting a component by type and id led to. */
  datatype DeleteOutcome = Deleted | UnknownType | Missing | StillReferenced(count: int)

  /**
   * The component-delete route: an unknown tag or a missing component is
   * reported, and a component whose `reference_count` is positive is never
   * removed.
   */
  function DeleteComponent(s: Store, typeName: string, compId: Id): (r: (Store, DeleteOutcome))
    ensures r.1.Deleted? <==>
      typeName in ComponentTypes && (typeName, compId) in s.components
      && s.components[(typeName, compId)].referenceCount <= 0
    ensures r.1.Deleted? ==> r.0.components == s.components - {(typeName, compId)}
    ensures !r.1.Deleted? ==> r.0 == s
    ensures r.0.nodes == s.nodes && r.0.references == s.references
  {
    if typeName !in ComponentTypes then (s, UnknownType)
    else if (typeName, compId) !in s.components then (s, Missing)
    else if s.components[(typeName, compId)].referenceCount > 0 then
      (s, StillReferenced(s.components[(typeName, compId)].referenceCount))
    else (s.(components := s.components - {(typeName, compId)}), Deleted)
  }

  // ---- counts ---------------------------------------------------------------

  /** The count helper raises exactly the count of the component with that id. */
  lemma IncrementCounts(s: Store, compId: Id, now: string)
    requires WellKeyed(s) && UniqueCompIds(s)
    ensures var s' := IncrementComponentRefCount(s, compId, now).0;
      && SameComponents(s, s')
      && forall k | k in s.components ::
           s'.components[k].referenceCount
             == s.components[k].referenceCount + (if k.1 == compId then 1 else 0)
  {
    var s' := IncrementComponentRefCount(s, compId, now).0;
    if k0 :| k0 in s.components && k0.1 == compId {
      FindUnique(s, k0);
      var c := IncrementReferenceCount(s.components[k0], now);
      assert (TypeName(c.body), c.compId) == k0;
      assert s'.components == s.components[k0 := c.(updatedAt := now)];
      forall k | k in s.components
        ensures s'.components[k].referenceCount
                  == s.components[k].referenceCount + (if k.1 == compId then 1 else 0)
      {
        if k.1 == compId { assert k == k0; }
      }
    } else {
      assert FindComponentKey(s, compId).None?;
    }
  }

  /** The count helper lowers, floored at zero, exactly the count of the component with that id. */
  lemma DecrementCounts(s: Store, compId: Id, now: string)
    requires WellKeyed(s) && UniqueCompIds(s)
    ensures var s' := DecrementComponentRefCount(s, compId, now).0;
      && SameComponents(s, s')
      && forall k | k in s.components ::
           s'.components[k].referenceCount
             == if k.1 == compId && s.components[k].referenceCount > 0
                then s.components[k].referenceCount - 1
                else s.components[k].referenceCount
  {
    var s' := DecrementComponentRefCount(s, compId, now).0;
    if k0 :| k0 in s.components && k0.1 == compId {
      FindUnique(s, k0);
      var c := DecrementReferenceCount(s.components[k0], now);
      assert (TypeName(c.body), c.compId) == k0;
      assert s'.components == s.components[k0 := c.(updatedAt := now)];
      forall k | k in s.components
        ensures s'.components[k].referenceCount
                  == if k.1 == compId && s.components[k].referenceCount > 0
                     then s.components[k].referenceCount - 1
                     else s.components[k].referenceCount
      {
        if k.1 == compId { assert k == k0; }
      }
    } else {
      assert FindComponentKey(s, compId).None?;
    }
  }

  /** `IncrementCounts` for a store of any shape, as an implication. */
  lemma IncrementCountsWhenCounted(s: Store, compId: Id, now: string)
    ensures WellKeyed(s) && UniqueCompIds(s) ==>
      var s' := IncrementComponentRefCount(s, compId, now).0;
      && SameComponents(s, s')
      && forall k | k in s.components ::
           s'.components[k].referenceCount
             == s.components[k].referenceCount + (if k.1 == compId then 1 else 0)
  {
    if WellKeyed(s) && UniqueCompIds(s) { IncrementCounts(s, compId, now); }
  }

  /** `DecrementCounts` for a store of any shape, as an implication. */
  lemma DecrementCountsWhenCounted(s: Store, compId: Id, now: string)
    ensures WellKeyed(s) && UniqueCompIds(s) ==>
      var s' := DecrementComponentRefCount(s, compId, now).0;
      && SameComponents(s, s')
      && forall k | k in s.components ::
           s'.components[k].referenceCount
             == if k.1 == compId && s.components[k].referenceCount > 0
                then s.components[k].referenceCount - 1
                else s.components[k].referenceCount
  {
    if WellKeyed(s) && UniqueCompIds(s) { DecrementCounts(s, compId, now); }
  }

  /**
   * Creating a reference under a fresh id keeps every component's count
   * equal to the number of live references to it.
   */
  lemma CreateReferenceKeepsCountsExact(
    s: Store, compId: Id, overrides: Option<Config>, nodeId: Id, refId: Id, now: string)
    requires Counted(s)
    requires refId !in s.references
    ensures var s' := CreateReferenceToComponent(s, compId, overrides, nodeId, refId, now).0;
      Counted(s')
  {
    var s' := CreateReferenceToComponent(s, compId, overrides, nodeId, refId, now).0;
    var ref := Reference(refId, nodeId, compId, overrides, now, now);
    var s1 := IncrementComponentRefCount(s, compId, now).0;
    IncrementCounts(s, compId, now);
    assert s'.components == s1.components;
    assert s'.references == s.references[refId := ref.(updatedAt := now)];
    forall k | k in s'.components
      ensures s'.components[k].referenceCount == |RefsTo(s'.references, s'.components[k].compId)|
    {
      InsertedReferenceCount(s, s', refId, ref.(updatedAt := now), k);
    }
  }

  /** One component's count after a reference to `r.compId` is inserted under a fresh id. */
  lemma InsertedReferenceCount(s: Store, s': Store, refId: Id, r: Reference, k: CompKey)
    requires WellKeyed(s) && RefCountsExact(s) && refId !in s.references && k in s.components
    requires s'.references == s.references[refId := r]
    requires SameComponents(s, s')
    requires s'.components[k].referenceCount
               == s.components[k].referenceCount + (if k.1 == r.compId then 1 else 0)
    ensures s'.components[k].referenceCount == |RefsTo(s'.references, s'.components[k].compId)|
  {
    RefsToInsert(s.references, refId, r, k.1);
  }

  /**
   * Deleting a reference keeps every component's count equal to the number
   * of live references to it: the floor at zero never bites, because the
   * reference being deleted is itself counted.
   */
  lemma DeleteReferenceKeepsCountsExact(s: Store, refId: Id, now: string)
    requires Counted(s)
    ensures var s' := DeleteReference(s, refId, now).0;
      Counted(s')
  {
    if refId in s.references {
      var s' := DeleteReference(s, refId, now).0;
      var cid := s.references[refId].compId;
      DecrementCounts(s, cid, now);
      assert s'.components == DecrementComponentRefCount(s, cid, now).0.components;
      ShapePreserved(s, s');
      forall k | k in s'.components
        ensures s'.components[k].referenceCount == |RefsTo(s'.references, s'.components[k].compId)|
      {
        DeletedReferenceCount(s, s', refId, k);
      }
    }
  }

  /** One component's count after its reference `refId` is deleted. */
  lemma DeletedReferenceCount(s: Store, s': Store, refId: Id, k: CompKey)
    requires WellKeyed(s) && RefCountsExact(s) && refId in s.references && k in s.components
    requires s'.references == s.references - {refId}
    requires SameComponents(s, s')
    requires s'.components[k].referenceCount
               == if k.1 == s.references[refId].compId && s.components[k].referenceCount > 0
                  then s.components[k].referenceCount - 1
                  else s.components[k].referenceCount
    ensures s'.components[k].referenceCount == |RefsTo(s'.references, s'.components[k].compId)|
  {
    RefsToRemove(s.references, refId, k.1);
    if k.1 == s.references[refId].compId {
      assert refId in RefsTo(s.references, k.1);
    }
  }

  /** Record shapes survive when components keep their bodies and records are only removed. */
  lemma ShapePreserved(s: Store, s': Store)
    requires WellKeyed(s) && UniqueCompIds(s) && SameComponents(s, s')
    requires forall id | id in s'.nodes :: id in s.nodes && s'.nodes[id] == s.nodes[id]
    requires forall id | id in s'.references :: id in s.references && s'.references[id] == s.references[id]
    ensures WellKeyed(s') && UniqueCompIds(s')
  {
  }
}
