/**
 * The component hierarchy as one closed tagged union
 * (backend/entities/component.py and the variant files).
 *
 * Containers (`ViewContainer`, `ListContainer`, `InlineContainer`,
 * `StyleContainer`) carry `child`, the head of their children's sibling
 * chain; units, media and the two leaf components carry inline config only.
 */
module Components {
  import opened Wrappers
  import opened Values

  datatype Body =
    | ViewContainer(child: Option<Id>, path: string, name: string, title: string,
                    browserTitle: string, description: Option<string>, tagIds: seq<int>)
    | ListContainer(child: Option<Id>, listType: string, displayMode: string,
                    listName: Option<string>, showName: bool)
    | InlineContainer(child: Option<Id>)
    | StyleContainer(child: Option<Id>, isTransparent: bool)
    | SectionUnit(text: string, level: string)
    | PlainTextUnit(content: string)
    | AlertUnit(content: string, variant: string)
    | MarkdownUnit(content: string)
    | LinkUnit(basicLink: Option<Config>)
    | ImageMedia(src: string, alt: Option<string>, caption: Option<string>)
    | VideoMedia(src: string, autoplay: bool, muted: bool, controls: bool)
    | PDFMedia(src: string, pdfTitle: Option<string>, height: string, displayTitle: bool)
    | ExperienceComponent(position: string, company: string, startDate: string,
                          endDate: string, image: Option<string>, content: string)
    | TagListComponent(customTags: seq<string>)

  /** The fields every component shares, plus its variant. */
  datatype Component = Component(
    compId: Id,
    referenceCount: int,
    createdAt: string,
    updatedAt: string,
    body: Body)

  /** `isinstance(comp, Container)`. */
  predicate IsContainer(b: Body) {
    b.ViewContainer? || b.ListContainer? || b.InlineContainer? || b.StyleContainer?
  }

  predicate IsMedia(b: Body) {
    b.ImageMedia? || b.VideoMedia? || b.PDFMedia?
  }

  /** The class's fixed `type` tag. */
  function TypeName(b: Body): string {
    match b
    case ViewContainer(_, _, _, _, _, _, _) => "ViewContainer"
    case ListContainer(_, _, _, _, _) => "ListContainer"
    case InlineContainer(_) => "InlineContainer"
    case StyleContainer(_, _) => "StyleContainer"
    case SectionUnit(_, _) => "SectionUnit"
    case PlainTextUnit(_) => "PlainTextUnit"
    case AlertUnit(_, _) => "AlertUnit"
    case MarkdownUnit(_) => "MarkdownUnit"
    case LinkUnit(_) => "LinkUnit"
    case ImageMedia(_, _, _) => "ImageMedia"
    case VideoMedia(_, _, _, _) => "VideoMedia"
    case PDFMedia(_, _, _, _) => "PDFMedia"
    case ExperienceComponent(_, _, _, _, _, _) => "ExperienceComponent"
    case TagListComponent(_) => "TagListComponent"
  }

  /** `Container.has_children`: compares with None, so a child id of 0 counts. */
  function HasChildren(b: Body): (r: bool)
    requires IsContainer(b)
    ensures r <==> b.child != None
  {
    b.child.Some?
  }

  /** `Component.increment_reference_count`: one more reference, timestamp refreshed. */
  function IncrementReferenceCount(c: Component, now: string): (r: Component)
    ensures r.referenceCount == c.referenceCount + 1
    ensures r.compId == c.compId && r.body == c.body && r.createdAt == c.createdAt
    ensures r.updatedAt == now
  {
    c.(referenceCount := c.referenceCount + 1, updatedAt := now)
  }

  /**
   * `Component.decrement_reference_count`: one fewer reference, but a count
   * that is not positive is left alone (the source only logs a warning), so
   * a count that starts non-negative never goes negative.
   */
  function DecrementReferenceCount(c: Component, now: string): (r: Component)
    ensures c.referenceCount > 0 ==> r.referenceCount == c.referenceCount - 1 && r.updatedAt == now
    ensures c.referenceCount <= 0 ==> r == c
    ensures c.referenceCount >= 0 ==> r.referenceCount >= 0
    ensures r.compId == c.compId && r.body == c.body && r.createdAt == c.createdAt
  {
    if c.referenceCount > 0 then c.(referenceCount := c.referenceCount - 1, updatedAt := now)
    else c
  }

  const BaseKeys: set<string> := {"comp_id", "type", "reference_count", "created_at", "updated_at"}

  /** `Component._component_base_dict`: the identity, tag, count and timestamps. */
  function BaseDict(c: Component): (d: Config)
    ensures d.Keys == BaseKeys
    ensures d["type"] == Str(TypeName(c.body))
    ensures d["comp_id"] == Int(c.compId) && d["reference_count"] == Int(c.referenceCount)
  {
    map[
      "comp_id" := Int(c.compId),
      "type" := Str(TypeName(c.body)),
      "reference_count" := Int(c.referenceCount),
      "created_at" := Str(c.createdAt),
      "updated_at" := Str(c.updatedAt)]
  }

  /** `MediaUnit._media_config`: only the source path. */
  function MediaConfig(src: string): (cfg: Config)
    ensures cfg.Keys == {"src"} && cfg["src"] == Str(src)
  {
    map["src" := Str(src)]
  }
}
