/** Config and deserialisation of the four container variants (backend/entities/containers.py). */
module Containers {
  import opened Wrappers
  import opened Values
  import opened Components

  /** `get_config` of a container: its variant fields plus `child_node_id`. */
  function ContainerConfig(b: Body): (cfg: Config)
    requires IsContainer(b)
    ensures "child_node_id" in cfg && cfg["child_node_id"] == OptInt(b.child)
    ensures b.ViewContainer? ==>
      cfg.Keys == {"path", "name", "title", "browser_title", "description", "tag_ids", "child_node_id"}
    ensures b.ListContainer? ==>
      cfg.Keys == {"list_type", "display_mode", "name", "show_name", "child_node_id"}
    ensures b.InlineContainer? ==> cfg.Keys == {"child_node_id"}
    ensures b.StyleContainer? ==> cfg.Keys == {"is_transparent", "child_node_id"}
  {
    match b
    case ViewContainer(child, path, name, title, browserTitle, description, tagIds) =>
      map[
        "path" := Str(path),
        "name" := Str(name),
        "title" := Str(title),
        "browser_title" := Str(browserTitle),
        "description" := OptStr(description),
        "tag_ids" := Arr(EncodeInts(tagIds)),
        "child_node_id" := OptInt(child)]
    case ListContainer(child, listType, displayMode, listName, showName) =>
      map[
        "list_type" := Str(listType),
        "display_mode" := Str(displayMode),
        "name" := OptStr(listName),
        "show_name" := Bool(showName),
        "child_node_id" := OptInt(child)]
    case InlineContainer(child) =>
      map["child_node_id" := OptInt(child)]
    case StyleContainer(child, isTransparent) =>
      map["is_transparent" := Bool(isTransparent), "child_node_id" := OptInt(child)]
  }

  /** The variant fields of `ViewContainer.from_dict`, read from the config sub-map. */
  function ParseViewContainer(cfg: Config): (r: Result<Body>)
    ensures r.Ok? <==>
      && Fits(cfg, "path", StrField) && Fits(cfg, "name", StrField) && Fits(cfg, "title", StrField)
      && Fits(cfg, "browser_title", StrField) && Fits(cfg, "description", OptStrField)
      && Fits(cfg, "tag_ids", IntListField) && Fits(cfg, "child_node_id", OptIntField)
    ensures r.Ok? ==> r.value.ViewContainer?
    ensures r.Ok? && "path" !in cfg ==> r.value.path == ""
    ensures r.Ok? && "name" !in cfg ==> r.value.name == ""
    ensures r.Ok? && "title" !in cfg ==> r.value.title == ""
    ensures r.Ok? && "browser_title" !in cfg ==> r.value.browserTitle == ""
    ensures r.Ok? && "description" !in cfg ==> r.value.description.None?
    ensures r.Ok? && "tag_ids" !in cfg ==> r.value.tagIds == []
    ensures r.Ok? && "child_node_id" !in cfg ==> r.value.child.None?
  {
    var path :- GetStr(cfg, "path", "");
    var name :- GetStr(cfg, "name", "");
    var title :- GetStr(cfg, "title", "");
    var browserTitle :- GetStr(cfg, "browser_title", "");
    var description :- GetOptStr(cfg, "description");
    var tagIds :- GetIntList(cfg, "tag_ids");
    var child :- GetOptInt(cfg, "child_node_id");
    Ok(ViewContainer(child, path, name, title, browserTitle, description, tagIds))
  }

  function ParseListContainer(cfg: Config): (r: Result<Body>)
    ensures r.Ok? <==>
      && Fits(cfg, "list_type", StrField) && Fits(cfg, "display_mode", StrField)
      && Fits(cfg, "name", OptStrField) && Fits(cfg, "show_name", BoolField)
      && Fits(cfg, "child_node_id", OptIntField)
    ensures r.Ok? ==> r.value.ListContainer?
    ensures r.Ok? && "list_type" !in cfg ==> r.value.listType == "View"
    ensures r.Ok? && "display_mode" !in cfg ==> r.value.displayMode == "list"
    ensures r.Ok? && "name" !in cfg ==> r.value.listName.None?
    ensures r.Ok? && "show_name" !in cfg ==> r.value.showName
    ensures r.Ok? && "child_node_id" !in cfg ==> r.value.child.None?
  {
    var listType :- GetStr(cfg, "list_type", "View");
    var displayMode :- GetStr(cfg, "display_mode", "list");
    var listName :- GetOptStr(cfg, "name");
    var showName :- GetBool(cfg, "show_name", true);
    var child :- GetOptInt(cfg, "child_node_id");
    Ok(ListContainer(child, listType, displayMode, listName, showName))
  }

  function ParseInlineContainer(cfg: Config): (r: Result<Body>)
    ensures r.Ok? <==> Fits(cfg, "child_node_id", OptIntField)
    ensures r.Ok? ==> r.value.InlineContainer?
    ensures r.Ok? && "child_node_id" !in cfg ==> r.value.child.None?
  {
    var child :- GetOptInt(cfg, "child_node_id");
    Ok(InlineContainer(child))
  }

  function ParseStyleContainer(cfg: Config): (r: Result<Body>)
    ensures r.Ok? <==> Fits(cfg, "is_transparent", BoolField) && Fits(cfg, "child_node_id", OptIntField)
    ensures r.Ok? ==> r.value.StyleContainer?
    ensures r.Ok? && "is_transparent" !in cfg ==> !r.value.isTransparent
    ensures r.Ok? && "child_node_id" !in cfg ==> r.value.child.None?
  {
    var isTransparent :- GetBool(cfg, "is_transparent", false);
    var child :- GetOptInt(cfg, "child_node_id");
    Ok(StyleContainer(child, isTransparent))
  }

  /** Dispatch on a container's type tag. */
  function ParseContainer(typeName: string, cfg: Config): Result<Body> {
    match typeName
    case "ViewContainer" => ParseViewContainer(cfg)
    case "ListContainer" => ParseListContainer(cfg)
    case "InlineContainer" => ParseInlineContainer(cfg)
    case "StyleContainer" => ParseStyleContainer(cfg)
    case _ => Err(ValueError)
  }

  /** Every container's config, `child_node_id` included, reads back to the same container. */
  lemma ContainerConfigRoundTrip(b: Body)
    requires IsContainer(b)
    ensures ParseContainer(TypeName(b), ContainerConfig(b)) == Ok(b)
  {
    var cfg := ContainerConfig(b);
    assert GetOptInt(cfg, "child_node_id") == Ok(b.child);
    match b
    case ViewContainer(_, _, _, _, _, description, tagIds) =>
      IntsRoundTrip(tagIds);
      assert GetOptStr(cfg, "description") == Ok(description);
      assert GetIntList(cfg, "tag_ids") == Ok(tagIds);
    case ListContainer(_, _, _, listName, _) =>
      assert GetOptStr(cfg, "name") == Ok(listName);
    case InlineContainer(_) =>
    case StyleContainer(_, _) =>
  }
}
