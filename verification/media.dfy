/** Config and deserialisation of the three media variants (backend/entities/media.py). */
module Media {
  import opened Wrappers
  import opened Values
  import opened Components

  /** `get_config` of a media component: `_media_config` plus its variant fields. */
  function MediaVariantConfig(b: Body): (cfg: Config)
    requires IsMedia(b)
    ensures "src" in cfg && cfg["src"] == Str(b.src)
    ensures b.ImageMedia? ==> cfg.Keys == MediaConfig(b.src).Keys + {"alt", "caption"}
    ensures b.VideoMedia? ==> cfg.Keys == MediaConfig(b.src).Keys + {"autoplay", "muted", "controls"}
    ensures b.PDFMedia? ==> cfg.Keys == MediaConfig(b.src).Keys + {"title", "height", "display_title"}
  {
    match b
    case ImageMedia(src, alt, caption) =>
      MediaConfig(src)["alt" := OptStr(alt)]["caption" := OptStr(caption)]
    case VideoMedia(src, autoplay, muted, controls) =>
      MediaConfig(src)["autoplay" := Bool(autoplay)]["muted" := Bool(muted)]["controls" := Bool(controls)]
    case PDFMedia(src, title, height, displayTitle) =>
      MediaConfig(src)["title" := OptStr(title)]["height" := Str(height)]["display_title" := Bool(displayTitle)]
  }

  /** The variant fields of a media component's `from_dict`. */
  function ParseMedia(typeName: string, cfg: Config): (r: Result<Body>)
    ensures typeName == "ImageMedia" ==>
      (r.Ok? <==> Fits(cfg, "src", StrField) && Fits(cfg, "alt", OptStrField) && Fits(cfg, "caption", OptStrField))
    ensures typeName == "VideoMedia" ==>
      (r.Ok? <==> Fits(cfg, "src", StrField) && Fits(cfg, "autoplay", BoolField)
                  && Fits(cfg, "muted", BoolField) && Fits(cfg, "controls", BoolField))
    ensures typeName == "PDFMedia" ==>
      (r.Ok? <==> Fits(cfg, "src", StrField) && Fits(cfg, "title", OptStrField)
                  && Fits(cfg, "height", StrField) && Fits(cfg, "display_title", BoolField))
    ensures typeName !in {"ImageMedia", "VideoMedia", "PDFMedia"} ==> r == Err(ValueError)
    ensures r.Ok? ==> IsMedia(r.value) && TypeName(r.value) == typeName
    ensures r.Ok? && "src" !in cfg ==> r.value.src == ""
    ensures r.Ok? && r.value.ImageMedia? && "alt" !in cfg ==> r.value.alt.None?
    ensures r.Ok? && r.value.ImageMedia? && "caption" !in cfg ==> r.value.caption.None?
    ensures r.Ok? && r.value.VideoMedia? && "autoplay" !in cfg ==> !r.value.autoplay
    ensures r.Ok? && r.value.VideoMedia? && "muted" !in cfg ==> !r.value.muted
    ensures r.Ok? && r.value.VideoMedia? && "controls" !in cfg ==> r.value.controls
    ensures r.Ok? && r.value.PDFMedia? && "title" !in cfg ==> r.value.pdfTitle.None?
    ensures r.Ok? && r.value.PDFMedia? && "height" !in cfg ==> r.value.height == "600px"
    ensures r.Ok? && r.value.PDFMedia? && "display_title" !in cfg ==> r.value.displayTitle
  {
    match typeName
    case "ImageMedia" =>
      var src :- GetStr(cfg, "src", "");
      var alt :- GetOptStr(cfg, "alt");
      var caption :- GetOptStr(cfg, "caption");
      Ok(ImageMedia(src, alt, caption))
    case "VideoMedia" =>
      var src :- GetStr(cfg, "src", "");
      var autoplay :- GetBool(cfg, "autoplay", false);
      var muted :- GetBool(cfg, "muted", false);
      var controls :- GetBool(cfg, "controls", true);
      Ok(VideoMedia(src, autoplay, muted, controls))
    case "PDFMedia" =>
      var src :- GetStr(cfg, "src", "");
      var title :- GetOptStr(cfg, "title");
      var height :- GetStr(cfg, "height", "600px");
      var displayTitle :- GetBool(cfg, "display_title", true);
      Ok(PDFMedia(src, title, height, displayTitle))
    case _ => Err(ValueError)
  }

  /** Every media component's config reads back to the same component. */
  lemma MediaConfigRoundTrip(b: Body)
    requires IsMedia(b)
    ensures ParseMedia(TypeName(b), MediaVariantConfig(b)) == Ok(b)
  {
    var cfg := MediaVariantConfig(b);
    match b
    case ImageMedia(_, alt, caption) =>
      assert GetOptStr(cfg, "alt") == Ok(alt);
      assert GetOptStr(cfg, "caption") == Ok(caption);
    case VideoMedia(_, _, _, _) =>
    case PDFMedia(_, title, _, _) =>
      assert GetOptStr(cfg, "title") == Ok(title);
  }
}
