/** The Node record: one position in the content tree (backend/entities/node.py). */
module NodeEntity {
  import opened Wrappers
  import opened Values

  /**
   * A tree position. `refId` names the Reference this position shows;
   * `parent`, `prev` and `next` link it into its parent's doubly-linked
   * sibling chain.
   */
  datatype Node = Node(
    nodeId: Id,
    refId: Id,
    parent: Option<Id>,
    prev: Option<Id>,
    next: Option<Id>,
    createdAt: string,
    updatedAt: string)

  /** The keys `Node.to_dict` writes. */
  const NodeKeys: set<string> :=
    {"node_id", "ref_id", "parent_node_id", "previous_node_id", "next_node_id", "created_at", "updated_at"}

  /** `Node.to_dict`. */
  function NodeToDict(n: Node): (d: Config)
    ensures d.Keys == NodeKeys
    ensures d["node_id"] == Int(n.nodeId) && d["ref_id"] == Int(n.refId)
  {
    map[
      "node_id" := Int(n.nodeId),
      "ref_id" := Int(n.refId),
      "parent_node_id" := OptInt(n.parent),
      "previous_node_id" := OptInt(n.prev),
      "next_node_id" := OptInt(n.next),
      "created_at" := Str(n.createdAt),
      "updated_at" := Str(n.updatedAt)]
  }

  /**
   * `Node.from_dict`: `node_id` and `ref_id` are required, the three
   * pointers default to None and the timestamps to the current time `now`.
   */
  function NodeFromDict(d: Config, now: string): (r: Result<Node>)
    ensures r.Ok? <==>
      && "node_id" in d && "ref_id" in d
      && Fits(d, "node_id", IntField) && Fits(d, "ref_id", IntField)
      && Fits(d, "parent_node_id", OptIntField) && Fits(d, "previous_node_id", OptIntField)
      && Fits(d, "next_node_id", OptIntField)
      && Fits(d, "created_at", StrField) && Fits(d, "updated_at", StrField)
    ensures r.Ok? ==> Int(r.value.nodeId) == d["node_id"] && Int(r.value.refId) == d["ref_id"]
    ensures r.Ok? && "parent_node_id" !in d ==> r.value.parent.None?
    ensures r.Ok? && "previous_node_id" !in d ==> r.value.prev.None?
    ensures r.Ok? && "next_node_id" !in d ==> r.value.next.None?
    ensures r.Ok? && "created_at" !in d ==> r.value.createdAt == now
    ensures r.Ok? && "updated_at" !in d ==> r.value.updatedAt == now
  {
    var nodeId :- RequireInt(d, "node_id");
    var refId :- RequireInt(d, "ref_id");
    var parent :- GetOptInt(d, "parent_node_id");
    var prev :- GetOptInt(d, "previous_node_id");
    var next :- GetOptInt(d, "next_node_id");
    var createdAt :- GetStr(d, "created_at", now);
    var updatedAt :- GetStr(d, "updated_at", now);
    Ok(Node(nodeId, refId, parent, prev, next, createdAt, updatedAt))
  }

  /** Every field of a node, timestamps included, survives a save and a load. */
  lemma NodeRoundTrip(n: Node, now: string)
    ensures NodeFromDict(NodeToDict(n), now) == Ok(n)
  {
    var d := NodeToDict(n);
    assert GetOptInt(d, "parent_node_id") == Ok(n.parent) by { assert d["parent_node_id"] == OptInt(n.parent); }
    assert GetOptInt(d, "previous_node_id") == Ok(n.prev) by { assert d["previous_node_id"] == OptInt(n.prev); }
    assert GetOptInt(d, "next_node_id") == Ok(n.next) by { assert d["next_node_id"] == OptInt(n.next); }
  }
}
