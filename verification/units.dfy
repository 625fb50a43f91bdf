/** Config and deserialisation of the five unit variants (backend/entities/units.py). */
module Units {
  import opened Wrappers
  import opened Values
  import opened Components

  predicate IsUnit(b: Body) {
    b.SectionUnit? || b.PlainTextUnit? || b.AlertUnit? || b.MarkdownUnit? || b.LinkUnit?
  }

  /** `get_config` of a unit. */
  function UnitConfig(b: Body): (cfg: Config)
    requires IsUnit(b)
    ensures b.SectionUnit? ==> cfg.Keys == {"text", "level"}
    ensures b.PlainTextUnit? || b.MarkdownUnit? ==> cfg.Keys == {"content"}
    ensures b.AlertUnit? ==> cfg.Keys == {"content", "variant"}
    ensures b.LinkUnit? ==> cfg.Keys == {"basic_link"}
  {
    match b
    case SectionUnit(text, level) => map["text" := Str(text), "level" := Str(level)]
    case PlainTextUnit(content) => map["content" := Str(content)]
    case AlertUnit(content, variant) => map["content" := Str(content), "variant" := Str(variant)]
    case MarkdownUnit(content) => map["content" := Str(content)]
    case LinkUnit(basicLink) => map["basic_link" := OptObj(basicLink)]
  }

  /** The variant fields of a unit's `from_dict`, read only from the config sub-map. */
  function ParseUnit(typeName: string, cfg: Config): (r: Result<Body>)
    ensures typeName == "SectionUnit" ==> (r.Ok? <==> Fits(cfg, "text", StrField) && Fits(cfg, "level", StrField))
    ensures typeName == "PlainTextUnit" || typeName == "MarkdownUnit" ==> (r.Ok? <==> Fits(cfg, "content", StrField))
    ensures typeName == "AlertUnit" ==> (r.Ok? <==> Fits(cfg, "content", StrField) && Fits(cfg, "variant", StrField))
    ensures typeName == "LinkUnit" ==> (r.Ok? <==> Fits(cfg, "basic_link", OptObjField))
    ensures typeName !in {"SectionUnit", "PlainTextUnit", "AlertUnit", "MarkdownUnit", "LinkUnit"} ==>
      r == Err(ValueError)
    ensures r.Ok? ==> IsUnit(r.value) && TypeName(r.value) == typeName
    ensures r.Ok? && r.value.SectionUnit? && "text" !in cfg ==> r.value.text == ""
    ensures r.Ok? && r.value.SectionUnit? && "level" !in cfg ==> r.value.level == "h1"
    ensures r.Ok? && (r.value.PlainTextUnit? || r.value.AlertUnit? || r.value.MarkdownUnit?) && "content" !in cfg ==>
      r.value.content == ""
    ensures r.Ok? && r.value.AlertUnit? && "variant" !in cfg ==> r.value.variant == "info"
    ensures r.Ok? && r.value.LinkUnit? && "basic_link" !in cfg ==> r.value.basicLink.None?
  {
    match typeName
    case "SectionUnit" =>
      var text :- GetStr(cfg, "text", "");
      var level :- GetStr(cfg, "level", "h1");
      Ok(SectionUnit(text, level))
    case "PlainTextUnit" =>
      var content :- GetStr(cfg, "content", "");
      Ok(PlainTextUnit(content))
    case "AlertUnit" =>
      var content :- GetStr(cfg, "content", "");
      var variant :- GetStr(cfg, "variant", "info");
      Ok(AlertUnit(content, variant))
    case "MarkdownUnit" =>
      var content :- GetStr(cfg, "content", "");
      Ok(MarkdownUnit(content))
    case "LinkUnit" =>
      var basicLink :- GetOptObj(cfg, "basic_link");
      Ok(LinkUnit(basicLink))
    case _ => Err(ValueError)
  }

  /** Every unit's config reads back to the same unit. */
  lemma UnitConfigRoundTrip(b: Body)
    requires IsUnit(b)
    ensures ParseUnit(TypeName(b), UnitConfig(b)) == Ok(b)
  {
    if b.LinkUnit? {
      assert GetOptObj(UnitConfig(b), "basic_link") == Ok(b.basicLink);
    }
  }
}
