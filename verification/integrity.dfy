/**
 * Whole-graph checks of backend/database.py: `validate_integrity`, which
 * reports every dangling id and every wrong reference count, and
 * `get_component_usages`, which lists the nodes using a component.
 */
module Integrity {
  import opened Wrappers
  import opened Values
  import opened NodeEntity
  import opened ReferenceEntity
  import opened Components
  import opened Registry
  import opened Database

  /** One reported error; each constructor is one message of the source, with its ids. */
  datatype Diagnostic =
    | InvalidRef(nodeId: Id, refId: Id)
    | InvalidParent(nodeId: Id, parent: Id)
    | InvalidPrev(nodeId: Id, prev: Id)
    | InvalidNext(nodeId: Id, next: Id)
    | InvalidComp(refId: Id, compId: Id)
    | CountMismatch(typeName: string, compId: Id, actual: int, expected: int)

  /** A truthy pointer that names no node. */
  predicate Dangling(s: Store, p: Option<Id>) {
    Truthy(p) && p.value !in s.nodes
  }

  /**
   * The node checks: the reference is looked up whatever its id (0
   * included); parent and siblings only when truthy.
   */
  function NodeDiagnostics(s: Store, n: Node): (ds: set<Diagnostic>)
    ensures InvalidRef(n.nodeId, n.refId) in ds <==> n.refId !in s.references
    ensures Truthy(n.parent) ==> (InvalidParent(n.nodeId, n.parent.value) in ds <==> n.parent.value !in s.nodes)
    ensures Truthy(n.prev) ==> (InvalidPrev(n.nodeId, n.prev.value) in ds <==> n.prev.value !in s.nodes)
    ensures Truthy(n.next) ==> (InvalidNext(n.nodeId, n.next.value) in ds <==> n.next.value !in s.nodes)
    ensures |ds| <= 4
  {
    (if n.refId !in s.references then {InvalidRef(n.nodeId, n.refId)} else {})
    + (if Dangling(s, n.parent) then {InvalidParent(n.nodeId, n.parent.value)} else {})
    + (if Dangling(s, n.prev) then {InvalidPrev(n.nodeId, n.prev.value)} else {})
    + (if Dangling(s, n.next) then {InvalidNext(n.nodeId, n.next.value)} else {})
  }

  /** The number of references carrying `comp_id` — the source's `actual_counts`. */
  function ExpectedCount(s: Store, compId: Id): nat {
    |RefsTo(s.references, compId)|
  }

  /** The messages of the node loop. */
  function NodeErrors(s: Store): set<Diagnostic> {
    set id, d | id in s.nodes && d in NodeDiagnostics(s, s.nodes[id]) :: d
  }

  /** The messages of the reference loop: a reference whose component no tag holds. */
  function RefErrors(s: Store): set<Diagnostic> {
    set id | id in s.references && LoadComponentById(s, s.references[id].compId).None? ::
      InvalidComp(s.references[id].refId, s.references[id].compId)
  }

  /** The messages of the count loop, over the components of the registered tags. */
  function CountErrors(s: Store): set<Diagnostic> {
    set k | k in s.components && k.0 in ComponentTypes
              && s.components[k].referenceCount != ExpectedCount(s, s.components[k].compId) ::
      CountMismatch(TypeName(s.components[k].body), s.components[k].compId,
                    s.components[k].referenceCount, ExpectedCount(s, s.components[k].compId))
  }

  /** `validate_integrity`: the set of its messages (the listing order of files is not modelled). */
  function ValidateIntegrity(s: Store): (errors: set<Diagnostic>)
    ensures errors == {} <==> NodeErrors(s) == {} && RefErrors(s) == {} && CountErrors(s) == {}
  {
    NodeErrors(s) + RefErrors(s) + CountErrors(s)
  }

  /**
   * The graph the checker accepts, stated directly: every node's reference
   * exists and its truthy pointers name nodes, every reference's component
   * exists, and every listed component's count is its number of references.
   */
  ghost predicate Consistent(s: Store) {
    && NodesConsistent(s)
    && (forall id | id in s.references ::
          exists t | t in ComponentTypes :: (t, s.references[id].compId) in s.components)
    && (forall k | k in s.components && k.0 in ComponentTypes ::
          s.components[k].referenceCount == |RefsTo(s.references, s.components[k].compId)|)
  }

  ghost predicate NodesConsistent(s: Store) {
    forall id | id in s.nodes ::
      && s.nodes[id].refId in s.references
      && !Dangling(s, s.nodes[id].parent)
      && !Dangling(s, s.nodes[id].prev)
      && !Dangling(s, s.nodes[id].next)
  }

  /** The checker reports nothing exactly on a consistent graph. */
  lemma ValidateEmptyIffConsistent(s: Store)
    ensures ValidateIntegrity(s) == {} <==> Consistent(s)
  {
    NodeErrorsEmptyIff(s);
    RefErrorsEmptyIff(s);
    CountErrorsEmptyIff(s);
  }

  /** A node draws no message exactly when its reference exists and no truthy pointer dangles. */
  lemma NodeDiagnosticsEmptyIff(s: Store, n: Node)
    ensures NodeDiagnostics(s, n) == {} <==>
      n.refId in s.references && !Dangling(s, n.parent) && !Dangling(s, n.prev) && !Dangling(s, n.next)
  {
  }

  lemma NodeErrorsEmptyIff(s: Store)
    ensures NodeErrors(s) == {} <==> NodesConsistent(s)
  {
    forall id | id in s.nodes { NodeDiagnosticsEmptyIff(s, s.nodes[id]); }
    if id :| id in s.nodes && NodeDiagnostics(s, s.nodes[id]) != {} {
      var d :| d in NodeDiagnostics(s, s.nodes[id]);
      NodeErrorReported(s, id, d);
    }
  }

  lemma NodeErrorReported(s: Store, id: Id, d: Diagnostic)
    requires id in s.nodes && d in NodeDiagnostics(s, s.nodes[id])
    ensures d in NodeErrors(s)
  {
  }

  lemma RefErrorsEmptyIff(s: Store)
    ensures RefErrors(s) == {} <==>
      forall id | id in s.references :: exists t | t in ComponentTypes :: (t, s.references[id].compId) in s.components
  {
    if id :| id in s.references && LoadComponentById(s, s.references[id].compId).None? {
      var r := s.references[id];
      assert InvalidComp(r.refId, r.compId) in RefErrors(s);
    }
  }

  lemma CountErrorsEmptyIff(s: Store)
    ensures CountErrors(s) == {} <==>
      forall k | k in s.components && k.0 in ComponentTypes ::
        s.components[k].referenceCount == |RefsTo(s.references, s.components[k].compId)|
  {
    if k :| k in s.components && k.0 in ComponentTypes
            && s.components[k].referenceCount != ExpectedCount(s, s.components[k].compId) {
      var c := s.components[k];
      assert CountMismatch(TypeName(c.body), c.compId, c.referenceCount, ExpectedCount(s, c.compId)) in CountErrors(s);
    }
  }

  /** Exact reference counts leave the count loop silent. */
  lemma ExactCountsReportNoMismatch(s: Store)
    requires RefCountsExact(s)
    ensures CountErrors(s) == {}
  {
    CountErrorsEmptyIff(s);
  }

  /**
   * `get_component_usages`: the (ref_id, node_id) pairs of references to
   * the component whose truthy `node_id` names a node.
   */
  function GetComponentUsages(s: Store, compId: Id): (usages: set<(Id, Id)>)
    ensures forall u | u in usages :: exists r | r in RefsTo(s.references, compId) ::
      && s.references[r].nodeId != 0 && s.references[r].nodeId in s.nodes
      && u == (s.references[r].refId, s.nodes[s.references[r].nodeId].nodeId)
    ensures forall r | r in RefsTo(s.references, compId) ::
      s.references[r].nodeId != 0 && s.references[r].nodeId in s.nodes ==>
        (s.references[r].refId, s.nodes[s.references[r].nodeId].nodeId) in usages
    ensures WellKeyed(s) ==> forall r | r in RefsTo(s.references, compId) ::
      s.references[r].nodeId != 0 && s.references[r].nodeId in s.nodes ==> (r, s.references[r].nodeId) in usages
  {
    set r | r in RefsTo(s.references, compId)
              && s.references[r].nodeId != 0 && s.references[r].nodeId in s.nodes ::
      (s.references[r].refId, s.nodes[s.references[r].nodeId].nodeId)
  }

  /** The pair a reference contributes to the usage list, were its node to exist. */
  function UsageOf(s: Store, r: Id): (Id, Id)
    requires r in s.references
  {
    var ref := s.references[r];
    (ref.refId, if ref.nodeId in s.nodes then s.nodes[ref.nodeId].nodeId else 0)
  }

  /** A component is listed as used at most as often as its exact count says. */
  lemma UsagesBoundedByCount(s: Store, k: CompKey)
    requires RefCountsExact(s) && k in s.components
    ensures |GetComponentUsages(s, s.components[k].compId)| <= s.components[k].referenceCount
  {
    var cid := s.components[k].compId;
    var refs := RefsTo(s.references, cid);
    var image := set r | r in refs :: UsageOf(s, r);
    assert GetComponentUsages(s, cid) <= image;
    UsageImageNoLarger(s, refs);
    SubsetCard(GetComponentUsages(s, cid), image);
  }

  lemma SubsetCard<T>(a: set<T>, b: set<T>)
    requires a <= b
    ensures |a| <= |b|
  {
    assert b == a + (b - a);
  }

  /** Mapping references to their usage pairs gives no more elements. */
  lemma {:induction false} UsageImageNoLarger(s: Store, xs: set<Id>)
    requires xs <= s.references.Keys
    ensures |set x | x in xs :: UsageOf(s, x)| <= |xs|
    decreases |xs|
  {
    if x :| x in xs {
      var rest := xs - {x};
      UsageImageNoLarger(s, rest);
      assert (set y | y in xs :: UsageOf(s, y)) == (set y | y in rest :: UsageOf(s, y)) + {UsageOf(s, x)};
    }
  }
}
