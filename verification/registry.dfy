/**
 * The component type registry and the tag dispatch used to deserialise any
 * component (backend/entities/__init__.py, and the `COMPONENT_TYPES` list of
 * backend/database.py, which holds the same 14 tags in the same order).
 */
module Registry {
  import opened Wrappers
  import opened Values
  import opened Components
  import opened Containers
  import opened Units
  import opened Media
  import opened Leaf

  /** The registered type tags, in registry order. */
  const ComponentTypes: seq<string> := [
    "ViewContainer", "ListContainer", "InlineContainer", "StyleContainer",
    "SectionUnit", "PlainTextUnit", "AlertUnit", "MarkdownUnit", "LinkUnit",
    "ImageMedia", "VideoMedia", "PDFMedia",
    "ExperienceComponent", "TagListComponent"]

  const ContainerTypes: seq<string> := ComponentTypes[..4]

  /** A component's `get_config`, dispatched on its variant. */
  function GetConfig(b: Body): (cfg: Config)
    ensures IsContainer(b) ==> "child_node_id" in cfg
    ensures !IsContainer(b) ==> "child_node_id" !in cfg
  {
    if IsContainer(b) then ContainerConfig(b)
    else if IsUnit(b) then UnitConfig(b)
    else if IsMedia(b) then MediaVariantConfig(b)
    else LeafConfig(b)
  }

  /** The variant half of `COMPONENT_TYPES[t].from_dict`. */
  function ParseBody(typeName: string, cfg: Config): (r: Result<Body>)
    ensures r.Ok? ==> TypeName(r.value) == typeName
  {
    if typeName in ContainerTypes then ParseContainer(typeName, cfg)
    else if typeName in ["SectionUnit", "PlainTextUnit", "AlertUnit", "MarkdownUnit", "LinkUnit"] then
      ParseUnit(typeName, cfg)
    else if typeName in ["ImageMedia", "VideoMedia", "PDFMedia"] then ParseMedia(typeName, cfg)
    else ParseLeaf(typeName, cfg)
  }

  /** `to_dict` of any component: the base dictionary plus `config`. */
  function ComponentToDict(c: Component): (d: Config)
    ensures d.Keys == BaseKeys + {"config"}
    ensures d["config"] == Obj(GetConfig(c.body))
    ensures d["type"] == Str(TypeName(c.body))
  {
    BaseDict(c)["config" := Obj(GetConfig(c.body))]
  }

  /**
   * `component_from_dict`: dispatch on the `type` field to the registered
   * class. A missing or unregistered tag is a `ValueError`, never a default.
   * `comp_id` is required; the count defaults to 0, timestamps to `now` and
   * the config to the empty map.
   */
  function ComponentFromDict(data: Config, now: string): (r: Result<Component>)
    ensures "type" !in data || !data["type"].Str? || data["type"].s !in ComponentTypes ==>
      r == Err(ValueError)
    ensures r.Ok? ==> data["type"] == Str(TypeName(r.value.body))
    ensures r.Ok? && "reference_count" !in data ==> r.value.referenceCount == 0
    ensures r.Ok? && "comp_id" in data ==> data["comp_id"] == Int(r.value.compId)
    ensures "comp_id" !in data ==> r.Err?
    ensures r.Ok? <==>
      && "type" in data && data["type"].Str? && data["type"].s in ComponentTypes
      && Fits(data, "config", ObjField)
      && "comp_id" in data && Fits(data, "comp_id", IntField)
      && Fits(data, "reference_count", IntField)
      && Fits(data, "created_at", StrField) && Fits(data, "updated_at", StrField)
      && ParseBody(data["type"].s, if "config" in data then data["config"].fields else map[]).Ok?
  {
    if "type" !in data || !data["type"].Str? || data["type"].s !in ComponentTypes then
      Err(ValueError)
    else
      var typeName := data["type"].s;
      var cfg :- GetObj(data, "config");
      var compId :- RequireInt(data, "comp_id");
      var referenceCount :- GetInt(data, "reference_count", 0);
      var createdAt :- GetStr(data, "created_at", now);
      var updatedAt :- GetStr(data, "updated_at", now);
      var body :- ParseBody(typeName, cfg);
      Ok(Component(compId, referenceCount, createdAt, updatedAt, body))
  }

  /** Every variant's tag is registered; containers' tags are exactly the first four. */
  lemma TypeNamesRegistered(b: Body)
    ensures TypeName(b) in ComponentTypes
    ensures TypeName(b) in ContainerTypes <==> IsContainer(b)
  {
  }

  /** The registry holds 14 distinct tags and the four container tags parse to containers. */
  lemma RegistryShape(t: string, cfg: Config)
    ensures |ComponentTypes| == 14
    ensures forall i, j | 0 <= i < j < |ComponentTypes| :: ComponentTypes[i] != ComponentTypes[j]
    ensures t in ContainerTypes && ParseBody(t, cfg).Ok? ==> IsContainer(ParseBody(t, cfg).value)
    ensures t !in ContainerTypes && ParseBody(t, cfg).Ok? ==> !IsContainer(ParseBody(t, cfg).value)
  {
  }

  /** `component_from_dict(c.to_dict())` reconstructs `c` for every registered variant. */
  lemma ComponentRoundTrip(c: Component, now: string)
    ensures ComponentFromDict(ComponentToDict(c), now) == Ok(c)
  {
    TypeNamesRegistered(c.body);
    ParseBodyRoundTrip(c.body);
  }

  /** The tag dispatch parses every variant's own config back to it. */
  lemma ParseBodyRoundTrip(b: Body)
    ensures ParseBody(TypeName(b), GetConfig(b)) == Ok(b)
  {
    if IsContainer(b) {
      ContainerParses(b);
    } else if IsUnit(b) {
      UnitParses(b);
    } else if IsMedia(b) {
      MediaParses(b);
    } else {
      LeafParses(b);
    }
  }

  lemma ContainerParses(b: Body)
    requires IsContainer(b)
    ensures ParseBody(TypeName(b), GetConfig(b)) == Ok(b)
  {
    var t := TypeName(b);
    ContainerConfigRoundTrip(b);
    TypeNamesRegistered(b);
    assert GetConfig(b) == ContainerConfig(b);
  }

  lemma UnitParses(b: Body)
    requires IsUnit(b)
    ensures ParseBody(TypeName(b), GetConfig(b)) == Ok(b)
  {
    var t := TypeName(b);
    UnitConfigRoundTrip(b);
    TypeNamesRegistered(b);
    assert t in ["SectionUnit", "PlainTextUnit", "AlertUnit", "MarkdownUnit", "LinkUnit"];
    assert GetConfig(b) == UnitConfig(b);
  }

  lemma MediaParses(b: Body)
    requires IsMedia(b)
    ensures ParseBody(TypeName(b), GetConfig(b)) == Ok(b)
  {
    var t := TypeName(b);
    MediaConfigRoundTrip(b);
    TypeNamesRegistered(b);
    assert t !in ["SectionUnit", "PlainTextUnit", "AlertUnit", "MarkdownUnit", "LinkUnit"];
    assert t in ["ImageMedia", "VideoMedia", "PDFMedia"];
    assert GetConfig(b) == MediaVariantConfig(b);
  }

  lemma LeafParses(b: Body)
    requires IsLeaf(b)
    ensures ParseBody(TypeName(b), GetConfig(b)) == Ok(b)
  {
    var t := TypeName(b);
    LeafConfigRoundTrip(b);
    TypeNamesRegistered(b);
    assert t !in ["SectionUnit", "PlainTextUnit", "AlertUnit", "MarkdownUnit", "LinkUnit"];
    assert t !in ["ImageMedia", "VideoMedia", "PDFMedia"];
    assert GetConfig(b) == LeafConfig(b);
  }
}
