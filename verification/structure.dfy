/** The shapes the sidebar parsers read and produce.

    The parsed structure is a list of header groups, each holding items and menus, where
    a menu holds further items.  The HTML side is abstracted: an element of the sidebar is
    either a text node (no tag name) or a tag with a name; an `app-api-doc-item` tag is
    described by what the selectors find inside it, and a `ul` tag by its child nodes. */
module Structure {
  import opened Wrappers

  /** A parsed item or menu: the dictionary with keys `text`, `id`, `type`,
      `is_expandable` and `children` (an absent `children` key is the empty list). */
  datatype Item = Item(id: Option<string>, text: string, kind: string, expandable: bool, children: seq<Item>)

  /** A header group: the header's text (absent when the key is missing) and its items. */
  datatype HeaderGroup = HeaderGroup(headerText: Option<string>, children: seq<Item>)

  /** One entry of the flattened list. */
  datatype FlatEntry = FlatEntry(
    id: Option<string>,
    text: string,
    kind: string,
    header: string,
    menu: Option<string>,
    parentMenuText: Option<string>,
    level: nat)

  /** What the selectors see inside a clickable `li.toc-item-highlight`:
      its `id` attribute, the stripped text of the first match of each text selector
      (`""` when the selector matches nothing), in the order the menu and the item
      extraction try them, the stripped text of the whole `li`, which expander icons it
      holds, and the `li.toc-item-highlight` elements nested inside it, in document order. */
  datatype ClickableLi = ClickableLi(
    id: Option<string>,
    menuTexts: seq<string>,
    itemTexts: seq<string>,
    allText: string,
    expanderIcon: bool,
    expandedIcon: bool,
    chevronRight: bool,
    chevronDown: bool,
    nested: seq<ClickableLi>)

  /** The header `li` of an item, with the stripped text of its anchor if it has one. */
  datatype HeaderLi = HeaderLi(anchorText: Option<string>)

  /** What the selectors see inside an `app-api-doc-item`. */
  datatype AppItem = AppItem(header: Option<HeaderLi>, clickable: Option<ClickableLi>)

  /** A child of the sidebar's root `ul` (or of a nested `ul`). */
  datatype Node =
    | TextNode
    | Tag(name: string, app: AppItem, kids: seq<Node>)

  const AppItemTag := "app-api-doc-item"
  const ListTag := "ul"
}
