/**
 * The record store of backend/database.py with file I/O replaced by three
 * id-keyed maps: `nodes/{node_id}.json`, `references/{ref_id}.json` and
 * `components/{type}/{comp_id}.json`. Components are keyed by (type tag, id)
 * because each type has its own directory, so the same id can exist under
 * two tags; `LoadComponentById` scans the tags in registry order.
 */
module Database {
  import opened Wrappers
  import opened Values
  import opened NodeEntity
  import opened ReferenceEntity
  import opened Components
  import opened Registry

  /** A component file's location: its type directory and its id. */
  type CompKey = (string, Id)

  datatype Store = Store(
    nodes: map<Id, Node>,
    references: map<Id, Reference>,
    components: map<CompKey, Component>)

  // ---- loads ----------------------------------------------------------------

  function LoadNode(s: Store, id: Id): Option<Node> {
    if id in s.nodes then Some(s.nodes[id]) else None
  }

  function LoadReference(s: Store, id: Id): Option<Reference> {
    if id in s.references then Some(s.references[id]) else None
  }

  /** The first tag of `types`, in order, under which a component with this id is stored. */
  function FirstHit(comps: map<CompKey, Component>, id: Id, types: seq<string>): (r: Option<CompKey>)
    ensures r.None? <==> forall i | 0 <= i < |types| :: (types[i], id) !in comps
    ensures r.Some? ==> r.value in comps && r.value.1 == id
    ensures r.Some? ==>
      exists i | 0 <= i < |types| ::
        && types[i] == r.value.0
        && forall j | 0 <= j < i :: (types[j], id) !in comps
    decreases |types|
  {
    if |types| == 0 then None
    else if (types[0], id) in comps then
      assert types[0] == types[0];
      Some((types[0], id))
    else
      var r := FirstHit(comps, id, types[1..]);
      if r.Some? then
        var i :| 0 <= i < |types[1..]| && types[1..][i] == r.value.0
                 && forall j | 0 <= j < i :: (types[1..][j], id) !in comps;
        assert types[i + 1] == r.value.0;
        assert forall j | 0 <= j < i + 1 :: (types[j], id) !in comps by {
          forall j | 0 <= j < i + 1 ensures (types[j], id) !in comps {
            if j > 0 { assert types[j] == types[1..][j - 1]; }
          }
        }
        r
      else
        assert forall i | 0 <= i < |types| :: (types[i], id) !in comps by {
          forall i | 0 <= i < |types| ensures (types[i], id) !in comps {
            if i > 0 { assert types[i] == types[1..][i - 1]; }
          }
        }
        r
  }

  function FindComponentKey(s: Store, id: Id): Option<CompKey> {
    FirstHit(s.components, id, ComponentTypes)
  }

  /** `load_component_by_id`: the first hit scanning the registered tags in order. */
  function LoadComponentById(s: Store, id: Id): (r: Option<Component>)
    ensures r.None? <==> forall t | t in ComponentTypes :: (t, id) !in s.components
    ensures r.Some? ==> r.value in s.components.Values
  {
    match FindComponentKey(s, id)
    case None => None
    case Some(k) => Some(s.components[k])
  }

  // ---- saves and deletes ----------------------------------------------------

  /** `save_node`: refresh `updated_at` and write the record under its own id. */
  function SaveNode(s: Store, n: Node, now: string): Store {
    s.(nodes := s.nodes[n.nodeId := n.(updatedAt := now)])
  }

  function SaveReference(s: Store, r: Reference, now: string): Store {
    s.(references := s.references[r.refId := r.(updatedAt := now)])
  }

  /** `save_component`: written under its own type directory and id. */
  function SaveComponent(s: Store, c: Component, now: string): Store {
    s.(components := s.components[(TypeName(c.body), c.compId) := c.(updatedAt := now)])
  }

  // ---- store invariants -------------------------------------------------------

  /** Every record sits under the key its own fields name (what the save functions maintain). */
  ghost predicate WellKeyed(s: Store) {
    && (forall id | id in s.nodes :: s.nodes[id].nodeId == id)
    && (forall id | id in s.references :: s.references[id].refId == id)
    && (forall k | k in s.components :: s.components[k].compId == k.1 && TypeName(s.components[k].body) == k.0)
  }

  /** No component id is stored under two type tags (random ids are never checked for this). */
  ghost predicate UniqueCompIds(s: Store) {
    forall k1, k2 | k1 in s.components && k2 in s.components && k1.1 == k2.1 :: k1 == k2
  }

  /** The live references that point at component id `cid`. */
  function RefsTo(refs: map<Id, Reference>, cid: Id): set<Id> {
    set r | r in refs && refs[r].compId == cid
  }

  /** Every component's `reference_count` equals the number of live references to it. */
  ghost predicate RefCountsExact(s: Store) {
    forall k | k in s.components :: s.components[k].referenceCount == |RefsTo(s.references, s.components[k].compId)|
  }

  /** The bookkeeping invariant: records under their own keys, unique component ids, exact counts. */
  ghost predicate Counted(s: Store) {
    WellKeyed(s) && UniqueCompIds(s) && RefCountsExact(s)
  }

  /** Components keep their keys, ids and bodies; only counts and timestamps may differ. */
  ghost predicate SameComponents(s: Store, t: Store) {
    && t.components.Keys == s.components.Keys
    && forall k | k in s.components ::
         && t.components[k].body == s.components[k].body
         && t.components[k].compId == s.components[k].compId
  }

  /**
   * `t` arises from `s` by deleting nodes and references and adjusting
   * component counts: every surviving node and reference is unchanged.
   */
  ghost predicate Shrinks(s: Store, t: Store) {
    && (forall id | id in t.nodes :: id in s.nodes && t.nodes[id] == s.nodes[id])
    && (forall id | id in t.references :: id in s.references && t.references[id] == s.references[id])
    && SameComponents(s, t)
  }

  /** The scan only looks at which keys exist. */
  lemma FirstHitSameKeys(c1: map<CompKey, Component>, c2: map<CompKey, Component>, id: Id, types: seq<string>)
    requires c1.Keys == c2.Keys
    ensures FirstHit(c1, id, types) == FirstHit(c2, id, types)
    decreases |types|
  {
    if |types| > 0 {
      assert (types[0], id) in c1 <==> (types[0], id) in c2;
      FirstHitSameKeys(c1, c2, id, types[1..]);
    }
  }

  /** With unique ids, the id lookup finds exactly the component stored under that id. */
  lemma FindUnique(s: Store, k: CompKey)
    requires WellKeyed(s) && UniqueCompIds(s) && k in s.components
    ensures FindComponentKey(s, k.1) == Some(k)
  {
    TypeNamesRegistered(s.components[k].body);
    var i :| 0 <= i < |ComponentTypes| && ComponentTypes[i] == k.0;
    assert (ComponentTypes[i], k.1) in s.components;
  }

  lemma RefsToInsert(refs: map<Id, Reference>, rid: Id, r: Reference, cid: Id)
    requires rid !in refs
    ensures r.compId == cid ==> RefsTo(refs[rid := r], cid) == RefsTo(refs, cid) + {rid}
    ensures r.compId != cid ==> RefsTo(refs[rid := r], cid) == RefsTo(refs, cid)
  {
  }

  lemma RefsToRemove(refs: map<Id, Reference>, rid: Id, cid: Id)
    ensures RefsTo(refs - {rid}, cid) == RefsTo(refs, cid) - {rid}
  {
  }
}
