/**
 * Config and deserialisation of the two leaf components
 * (backend/entities/leaf.py). They derive from `Component`, not `Container`.
 */
module Leaf {
  import opened Wrappers
  import opened Values
  import opened Components

  predicate IsLeaf(b: Body) {
    b.ExperienceComponent? || b.TagListComponent?
  }

  /** `get_config` of a leaf component. */
  function LeafConfig(b: Body): (cfg: Config)
    requires IsLeaf(b)
    ensures b.ExperienceComponent? ==>
      cfg.Keys == {"position", "company", "start_date", "end_date", "image", "content"}
    ensures b.TagListComponent? ==> cfg.Keys == {"custom_tags"}
  {
    match b
    case ExperienceComponent(position, company, startDate, endDate, image, content) =>
      map[
        "position" := Str(position),
        "company" := Str(company),
        "start_date" := Str(startDate),
        "end_date" := Str(endDate),
        "image" := OptStr(image),
        "content" := Str(content)]
    case TagListComponent(customTags) =>
      map["custom_tags" := Arr(EncodeStrs(customTags))]
  }

  function ParseLeaf(typeName: string, cfg: Config): (r: Result<Body>)
    ensures typeName == "ExperienceComponent" ==>
      (r.Ok? <==> Fits(cfg, "position", StrField) && Fits(cfg, "company", StrField)
                  && Fits(cfg, "start_date", StrField) && Fits(cfg, "end_date", StrField)
                  && Fits(cfg, "image", OptStrField) && Fits(cfg, "content", StrField))
    ensures typeName == "TagListComponent" ==> (r.Ok? <==> Fits(cfg, "custom_tags", StrListField))
    ensures typeName !in {"ExperienceComponent", "TagListComponent"} ==> r == Err(ValueError)
    ensures r.Ok? ==> IsLeaf(r.value) && !IsContainer(r.value) && TypeName(r.value) == typeName
    ensures r.Ok? && r.value.ExperienceComponent? ==>
      && ("position" !in cfg ==> r.value.position == "")
      && ("company" !in cfg ==> r.value.company == "")
      && ("start_date" !in cfg ==> r.value.startDate == "")
      && ("end_date" !in cfg ==> r.value.endDate == "")
      && ("image" !in cfg ==> r.value.image.None?)
      && ("content" !in cfg ==> r.value.content == "")
    ensures r.Ok? && r.value.TagListComponent? && "custom_tags" !in cfg ==> r.value.customTags == []
  {
    match typeName
    case "ExperienceComponent" =>
      var position :- GetStr(cfg, "position", "");
      var company :- GetStr(cfg, "company", "");
      var startDate :- GetStr(cfg, "start_date", "");
      var endDate :- GetStr(cfg, "end_date", "");
      var image :- GetOptStr(cfg, "image");
      var content :- GetStr(cfg, "content", "");
      Ok(ExperienceComponent(position, company, startDate, endDate, image, content))
    case "TagListComponent" =>
      var customTags :- GetStrList(cfg, "custom_tags");
      Ok(TagListComponent(customTags))
    case _ => Err(ValueError)
  }

  /** Both leaf components' configs read back to the same component. */
  lemma LeafConfigRoundTrip(b: Body)
    requires IsLeaf(b)
    ensures ParseLeaf(TypeName(b), LeafConfig(b)) == Ok(b)
  {
    var cfg := LeafConfig(b);
    match b
    case ExperienceComponent(_, _, _, _, image, _) =>
      assert GetOptStr(cfg, "image") == Ok(image);
    case TagListComponent(customTags) =>
      StrsRoundTrip(customTags);
      assert GetStrList(cfg, "custom_tags") == Ok(customTags);
  }
}
