/** Flattening of the parsed sidebar tree into the ordered list of entries to process.
    Each entry records its header, the text of the menu it sits in and its depth. */
module Flattening {
  import opened Wrappers
  import opened Text
  import opened Structure
  import opened MarkdownConverter
  import opened Seqs

  const DefaultHeader := "Unknown Header"

  /** Number of items in a tree, the root included. */
  function Size(item: Item): nat
    decreases item
  {
    1 + SizeAll(item.children)
  }

  function SizeAll(items: seq<Item>): nat
    decreases items
  {
    if items == [] then 0 else Size(items[0]) + SizeAll(items[1..])
  }

  /** Only an expandable menu with children is descended into. */
  predicate ShouldProcessChildren(item: Item) {
    item.kind == "menu" && item.expandable && item.children != []
  }

  function CreateFlatEntry(item: Item, header: string, menu: Option<string>, parentMenuText: Option<string>, level: nat): (e: FlatEntry)
    ensures e.id == item.id && e.kind == item.kind && e.header == header
    ensures e.menu == menu && e.parentMenuText == parentMenuText && e.level == level
    ensures Normalized(e.text)
  {
    FormatItemEntry(EntryData(item.id, Some(item.text), Some(item.kind), header, menu, parentMenuText, Some(level)))
  }

  /** What every entry below a node at depth `level` looks like: same header, at least
      that deep, the given menu texts at that exact depth, and deeper entries inside a
      menu whose text is both their menu and their parent menu text. */
  predicate EntriesBelow(r: seq<FlatEntry>, header: string, menu: Option<string>, parentMenuText: Option<string>, level: nat) {
    forall i | 0 <= i < |r| ::
      r[i].header == header
      && r[i].level >= level
      && (r[i].level == level ==> r[i].menu == menu && r[i].parentMenuText == parentMenuText)
      && (r[i].level > level ==> r[i].menu.Some? && r[i].menu == r[i].parentMenuText)
  }

  /** Flattens one item and, for an expandable menu, its subtree, in pre-order. An item
      that fails validation is dropped together with its subtree. */
  function FlattenItem(item: Item, header: string, menu: Option<string>, parentMenuText: Option<string>, level: nat): (r: seq<FlatEntry>)
    ensures |r| <= Size(item)
    ensures r != [] <==> ValidateItemData(item)
    ensures r != [] ==> r[0] == CreateFlatEntry(item, header, menu, parentMenuText, level)
    ensures EntriesBelow(r, header, menu, parentMenuText, level)
    ensures forall i | 1 <= i < |r| :: r[i].level > level
    decreases item
  {
    if !ValidateItemData(item) then []
    else
      var entry := CreateFlatEntry(item, header, menu, parentMenuText, level);
      if ShouldProcessChildren(item) then
        [entry] + FlattenChildren(item.children, header, item.text, level + 1)
      else [entry]
  }

  /** Flattens the children of a menu whose text is `menuText`, one after another. */
  function FlattenChildren(items: seq<Item>, header: string, menuText: string, level: nat): (r: seq<FlatEntry>)
    requires level > 0
    ensures |r| <= SizeAll(items)
    ensures EntriesBelow(r, header, Some(menuText), Some(menuText), level)
    ensures forall i | 0 <= i < |r| :: r[i].menu.Some?
    decreases items
  {
    if items == [] then []
    else
      FlattenItem(items[0], header, Some(menuText), Some(menuText), level)
        + FlattenChildren(items[1..], header, menuText, level)
  }

  /** The header text each group's entries carry, in group order. */
  function HeaderNames(groups: seq<HeaderGroup>): (names: seq<string>)
    ensures |names| == |groups|
    ensures forall g | 0 <= g < |groups| :: names[g] == groups[g].headerText.GetOr(DefaultHeader)
    decreases |groups|
  {
    if groups == [] then [] else [groups[0].headerText.GetOr(DefaultHeader)] + HeaderNames(groups[1..])
  }

  /** Number of items in all groups' trees. */
  function SizeGroups(groups: seq<HeaderGroup>): nat
    decreases |groups|
  {
    if groups == [] then 0 else SizeAll(groups[0].children) + SizeGroups(groups[1..])
  }

  /** Flattens every group's items at depth 0 under the group's header text. */
  function FlattenSidebarStructure(groups: seq<HeaderGroup>): (r: seq<FlatEntry>)
    ensures |r| <= SizeGroups(groups)
    ensures forall i | 0 <= i < |r| :: r[i].level == 0 ==> r[i].menu.None? && r[i].parentMenuText.None?
    ensures forall i | 0 <= i < |r| :: r[i].level > 0 ==> r[i].menu.Some? && r[i].menu == r[i].parentMenuText
    ensures forall i | 0 <= i < |r| :: r[i].header in HeaderNames(groups)
    decreases |groups|
  {
    if groups == [] then []
    else
      var g := groups[0];
      var here := FlattenTopLevel(g.children, g.headerText.GetOr(DefaultHeader));
      var rest := FlattenSidebarStructure(groups[1..]);
      here + rest
  }

  /** The top-level items of one group: depth 0, no menu, no parent menu text. */
  function FlattenTopLevel(items: seq<Item>, header: string): (r: seq<FlatEntry>)
    ensures |r| <= SizeAll(items)
    ensures EntriesBelow(r, header, None, None, 0)
    decreases |items|
  {
    if items == [] then []
    else FlattenItem(items[0], header, None, None, 0) + FlattenTopLevel(items[1..], header)
  }

  /** The entries of group `g`, flattened under that group's own header text. */
  function GroupFn(g: HeaderGroup): seq<FlatEntry> {
    FlattenTopLevel(g.children, g.headerText.GetOr(DefaultHeader))
  }

  /** The flattened structure is each group's block, one group after another. */
  lemma {:induction false} GroupsAreConcat(groups: seq<HeaderGroup>)
    ensures FlattenSidebarStructure(groups) == Concat(groups, GroupFn)
    decreases |groups|
  {
    if groups != [] {
      GroupsAreConcat(groups[1..]);
    }
  }

  /** Group `g`'s entries are exactly its own items flattened under its own header text
      ("Unknown Header" when it has none), and they sit after the blocks of every earlier
      group and before those of every later one. */
  lemma GroupBlock(groups: seq<HeaderGroup>, g: nat)
    requires g < |groups|
    ensures FlattenSidebarStructure(groups)
      == FlattenSidebarStructure(groups[..g])
         + FlattenTopLevel(groups[g].children, HeaderNames(groups)[g])
         + FlattenSidebarStructure(groups[g + 1..])
  {
    var tail := groups[g..];
    assert tail[1..] == groups[g + 1..];
    assert Concat(tail, GroupFn) == GroupFn(groups[g]) + Concat(groups[g + 1..], GroupFn);
    GroupsAreConcat(groups);
    GroupsAreConcat(groups[..g]);
    GroupsAreConcat(groups[g + 1..]);
    ConcatSplit(groups, GroupFn, g);
    AppendAssoc(FlattenSidebarStructure(groups[..g]), GroupFn(groups[g]), FlattenSidebarStructure(groups[g + 1..]));
  }

  // ---------------------------------------------------------------------------
  // Completeness
  // ---------------------------------------------------------------------------

  /** Every node passes validation and every menu with children is expandable. */
  predicate AllKept(item: Item)
    decreases item
  {
    ValidateItemData(item)
    && (item.kind == "menu" && item.children != [] ==> item.expandable)
    && (item.kind != "menu" ==> item.children == [])
    && forall i | 0 <= i < |item.children| :: AllKept(item.children[i])
  }

  /** When nothing in the tree is rejected, every node yields exactly one entry. */
  lemma {:induction false} AllKeptFlattensAll(item: Item, header: string, menu: Option<string>, parentMenuText: Option<string>, level: nat)
    requires AllKept(item)
    ensures |FlattenItem(item, header, menu, parentMenuText, level)| == Size(item)
    decreases item
  {
    if ShouldProcessChildren(item) {
      AllKeptChildren(item.children, header, item.text, level + 1);
    } else {
      assert item.children == [];
    }
  }

  lemma {:induction false} AllKeptChildren(items: seq<Item>, header: string, menuText: string, level: nat)
    requires level > 0
    requires forall i | 0 <= i < |items| :: AllKept(items[i])
    ensures |FlattenChildren(items, header, menuText, level)| == SizeAll(items)
    decreases items
  {
    if items != [] {
      AllKeptFlattensAll(items[0], header, Some(menuText), Some(menuText), level);
      AllKeptChildren(items[1..], header, menuText, level);
    }
  }

  /** A rejected item contributes nothing, whatever its children are. */
  lemma RejectedDropsSubtree(item: Item, header: string, menu: Option<string>, parentMenuText: Option<string>, level: nat)
    requires !ValidateItemData(item)
    ensures FlattenItem(item, header, menu, parentMenuText, level) == []
  {
  }

  /** The entries a menu's children produce at the next depth sit inside the menu: its
      text is both their menu and their parent menu text. */
  lemma MenuChildrenFollowMenu(item: Item, header: string, menu: Option<string>, parentMenuText: Option<string>, level: nat)
    requires ValidateItemData(item) && ShouldProcessChildren(item)
    ensures var r := FlattenItem(item, header, menu, parentMenuText, level);
      forall i | 1 <= i < |r| :: r[i].level == level + 1 ==>
        r[i].menu == Some(item.text) && r[i].parentMenuText == Some(item.text)
  {
  }

  /** Flattening one child of a menu whose text is `menuText`. */
  function ChildFn(header: string, menuText: string, level: nat): Item -> seq<FlatEntry> {
    (c: Item) => FlattenItem(c, header, Some(menuText), Some(menuText), level)
  }

  /** The children's entries are each child's entries, one child after another. */
  lemma {:induction false} ChildrenAreConcat(items: seq<Item>, header: string, menuText: string, level: nat)
    requires level > 0
    ensures FlattenChildren(items, header, menuText, level) == Concat(items, ChildFn(header, menuText, level))
    decreases |items|
  {
    if items != [] {
      ChildrenAreConcat(items[1..], header, menuText, level);
    }
  }

  /** Pre-order across siblings: the entries of the first `j` children all come before
      those of the rest. */
  lemma ChildrenSplit(items: seq<Item>, header: string, menuText: string, level: nat, j: nat)
    requires level > 0 && j <= |items|
    ensures FlattenChildren(items, header, menuText, level)
      == FlattenChildren(items[..j], header, menuText, level) + FlattenChildren(items[j..], header, menuText, level)
  {
    ChildrenAreConcat(items, header, menuText, level);
    ChildrenAreConcat(items[..j], header, menuText, level);
    ChildrenAreConcat(items[j..], header, menuText, level);
    ConcatSplit(items, ChildFn(header, menuText, level), j);
  }

  /** Child `j`'s entries come right after those of the children before it. */
  lemma ChildAfterEarlierChildren(items: seq<Item>, header: string, menuText: string, level: nat, j: nat)
    requires level > 0 && j < |items|
    ensures FlattenChildren(items[..j + 1], header, menuText, level)
      == FlattenChildren(items[..j], header, menuText, level)
         + FlattenItem(items[j], header, Some(menuText), Some(menuText), level)
  {
    var p := items[..j + 1];
    ChildrenSplit(p, header, menuText, level, j);
    assert p[..j] == items[..j];
    assert p[j..] == [items[j]];
    assert [items[j]][1..] == [];
  }
}
