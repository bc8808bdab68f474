/** The HTML-facing helpers of the sidebar parsers, over the abstract element model:
    layout detection, header recognition, expandability, and the lookups for a menu's
    children.  Text cleaning is `MarkdownConverter.CleanExtractedText`, which this
    component duplicates character for character. */
module HtmlCleaner {
  import opened Wrappers
  import opened Text
  import opened Structure
  import opened MarkdownConverter
  import opened Seqs

  const HierarchicalLayout := "hierarchical_with_leading_header"
  const FlatLayout := "flat_with_trailing_header"
  const UnknownLayout := "unknown"
  const UnknownHeader := "Unknown Header"

  /** What the layout heuristic counts over the whole page: header `li`s, and clickable
      `li`s with and without an `id` attribute. */
  datatype PageCounts = PageCounts(headers: nat, itemsWithIds: nat, itemsWithoutIds: nat)

  /** The configured layout (hierarchical when none is configured); an "unknown"
      layout is guessed from the counts. */
  function DetectStructureType(configured: Option<string>, counts: PageCounts): (layout: string)
    ensures configured.GetOr(HierarchicalLayout) != UnknownLayout ==> layout == configured.GetOr(HierarchicalLayout)
    ensures configured == Some(UnknownLayout) ==>
      (layout == FlatLayout <==> counts.itemsWithoutIds > counts.itemsWithIds && counts.headers > 0)
    ensures configured == Some(UnknownLayout) ==> layout == FlatLayout || layout == HierarchicalLayout
  {
    var layout := configured.GetOr(HierarchicalLayout);
    if layout == UnknownLayout then
      if counts.itemsWithoutIds > counts.itemsWithIds && counts.headers > 0 then FlatLayout
      else HierarchicalLayout
    else layout
  }

  /** An app item is a header when it holds a header `li`; its text is the cleaned
      anchor text, or "Unknown Header" without an anchor. */
  function ExtractHeaderInfo(app: AppItem): (header: Option<string>)
    ensures header.Some? <==> app.header.Some?
    ensures header.Some? && app.header.value.anchorText.None? ==> header.value == UnknownHeader
    ensures header.Some? && app.header.value.anchorText.Some? ==>
      header.value == CleanExtractedText(app.header.value.anchorText.value)
  {
    match app.header
    case None => None
    case Some(h) =>
      match h.anchorText
      case None => Some(UnknownHeader)
      case Some(t) => Some(CleanExtractedText(t))
  }

  /** A header's anchor text is cleaned to its words separated by single spaces. */
  lemma HeaderTextNormalized(app: AppItem)
    requires app.header.Some? && app.header.value.anchorText.Some?
    ensures Normalized(ExtractHeaderInfo(app).value)
    ensures Words(ExtractHeaderInfo(app).value) == Words(RemoveAll(app.header.value.anchorText.value, AngularMarker))
  {
    CleanNormalizes(app.header.value.anchorText.value);
  }

  /** An element is expandable when it holds any of the four expander icons. */
  function IsExpandableElement(li: ClickableLi): (expandable: bool)
    ensures !expandable <==>
      !li.expanderIcon && !li.expandedIcon && !li.chevronRight && !li.chevronDown
  {
    var standard := li.expanderIcon || li.expandedIcon;
    standard || li.chevronRight || li.chevronDown
  }

  /** Index of the first tag at or after `from` (text nodes are not siblings for this
      lookup). */
  function NextTag(sibs: seq<Node>, from: nat): (j: Option<nat>)
    ensures j.Some? ==> from <= j.value < |sibs| && sibs[j.value].Tag?
    ensures j.Some? ==> forall k | from <= k < j.value :: sibs[k].TextNode?
    ensures j.None? ==> forall k | from <= k < |sibs| :: sibs[k].TextNode?
    decreases |sibs| - from
  {
    if from >= |sibs| then None
    else if sibs[from].Tag? then Some(from)
    else NextTag(sibs, from + 1)
  }

  /** The children of the menu at `sibs[i]`: the child nodes of the next sibling tag
      when that tag is a `ul`. */
  function FindMenuChildren(sibs: seq<Node>, i: nat): (ul: Option<seq<Node>>)
    ensures ul.Some? <==> NextTag(sibs, i + 1).Some? && sibs[NextTag(sibs, i + 1).value].name == ListTag
    ensures ul.Some? ==> ul.value == sibs[NextTag(sibs, i + 1).value].kids
  {
    match NextTag(sibs, i + 1)
    case None => None
    case Some(j) =>
      if sibs[j].name == ListTag then
        Some(sibs[j].kids)
      else None
  }

  /** The nested clickable elements of a menu that carry an id, in document order,
      leaving out the menu element itself. */
  function FindNestedItems(li: ClickableLi): (r: seq<ClickableLi>)
    ensures forall k | 0 <= k < |r| :: Truthy(r[k].id) && r[k] in li.nested
    ensures forall k | 0 <= k < |li.nested| :: Truthy(li.nested[k].id) ==> li.nested[k] in r
    ensures |r| <= |li.nested|
    ensures r == Filter(li.nested, HasId)
  {
    KeepWithId(li.nested, li)
  }

  /** The element carries a non-empty id. */
  predicate HasId(n: ClickableLi) {
    Truthy(n.id)
  }

  function KeepWithId(nested: seq<ClickableLi>, self: ClickableLi): (r: seq<ClickableLi>)
    requires forall k | 0 <= k < |nested| :: nested[k] < self
    ensures forall k | 0 <= k < |r| :: Truthy(r[k].id) && r[k] in nested
    ensures forall k | 0 <= k < |nested| :: Truthy(nested[k].id) ==> nested[k] in r
    ensures |r| <= |nested|
    ensures r == Filter(nested, HasId)
    decreases |nested|
  {
    if nested == [] then []
    else
      var n := nested[0];
      var rest := KeepWithId(nested[1..], self);
      assert forall k | 1 <= k < |nested| :: nested[k] == nested[1..][k - 1];
      if n != self && Truthy(n.id) then [n] + rest else rest
  }
}
