/**
 * The Reference record: the indirection between a tree position and a
 * component, with per-position config overrides (backend/entities/reference.py).
 */
module ReferenceEntity {
  import opened Wrappers
  import opened Values

  datatype Reference = Reference(
    refId: Id,
    nodeId: Id,               // back-pointer to the owning Node; 0 when unset
    compId: Id,
    overrides: Option<Config>,
    createdAt: string,
    updatedAt: string)

  const ReferenceKeys: set<string> :=
    {"ref_id", "node_id", "comp_id", "overrides", "created_at", "updated_at"}

  /** `Reference.to_dict`. */
  function ReferenceToDict(r: Reference): (d: Config)
    ensures d.Keys == ReferenceKeys
    ensures d["overrides"] == OptObj(r.overrides)
  {
    map[
      "ref_id" := Int(r.refId),
      "node_id" := Int(r.nodeId),
      "comp_id" := Int(r.compId),
      "overrides" := OptObj(r.overrides),
      "created_at" := Str(r.createdAt),
      "updated_at" := Str(r.updatedAt)]
  }

  /**
   * `Reference.from_dict`: `ref_id`, `node_id` and `comp_id` are required,
   * `overrides` defaults to None and the timestamps to `now`.
   */
  function ReferenceFromDict(d: Config, now: string): (r: Result<Reference>)
    ensures r.Ok? <==>
      && "ref_id" in d && "node_id" in d && "comp_id" in d
      && Fits(d, "ref_id", IntField) && Fits(d, "node_id", IntField) && Fits(d, "comp_id", IntField)
      && Fits(d, "overrides", OptObjField)
      && Fits(d, "created_at", StrField) && Fits(d, "updated_at", StrField)
    ensures r.Ok? ==>
      && Int(r.value.refId) == d["ref_id"] && Int(r.value.nodeId) == d["node_id"]
      && Int(r.value.compId) == d["comp_id"]
    ensures r.Ok? && "overrides" !in d ==> r.value.overrides.None?
  {
    var refId :- RequireInt(d, "ref_id");
    var nodeId :- RequireInt(d, "node_id");
    var compId :- RequireInt(d, "comp_id");
    var overrides :- GetOptObj(d, "overrides");
    var createdAt :- GetStr(d, "created_at", now);
    var updatedAt :- GetStr(d, "updated_at", now);
    Ok(Reference(refId, nodeId, compId, overrides, createdAt, updatedAt))
  }

  /** Every field of a reference survives a save and a load. */
  lemma ReferenceRoundTrip(r: Reference, now: string)
    ensures ReferenceFromDict(ReferenceToDict(r), now) == Ok(r)
  {
    var d := ReferenceToDict(r);
    assert GetOptObj(d, "overrides") == Ok(r.overrides);
  }

  /**
   * `Reference.merge_config`: a shallow, key-wise update of a copy of the
   * component's base config with this position's overrides. A nested value
   * in the overrides replaces the base value wholesale.
   */
  function MergeConfig(ref: Reference, base: Config): (merged: Config)
    ensures ref.overrides.None? ==> merged == base
    ensures ref.overrides.Some? ==> merged.Keys == base.Keys + ref.overrides.value.Keys
    ensures ref.overrides.Some? ==>
      forall k | k in ref.overrides.value :: merged[k] == ref.overrides.value[k]
    ensures ref.overrides.Some? ==>
      forall k | k in base && k !in ref.overrides.value :: merged[k] == base[k]
  {
    if ref.overrides.None? || |ref.overrides.value| == 0 then base
    else base + ref.overrides.value
  }

  /** Empty overrides behave exactly like absent ones. */
  lemma MergeEmptyOverrides(ref: Reference, base: Config)
    requires ref.overrides == Some(map[])
    ensures MergeConfig(ref, base) == base
  {
  }

  /** Applying the same overrides a second time changes nothing. */
  lemma MergeIdempotent(ref: Reference, base: Config)
    ensures MergeConfig(ref, MergeConfig(ref, base)) == MergeConfig(ref, base)
  {
  }
}
