/** The validated records of the scraper: sidebar items, header groups, the sidebar
    structure with its derived item lists, and the resume summary. A record is built
    through its constructor function, which runs the field validators and either yields
    the record or the list of fields that failed. */
module Models {
  import opened Wrappers
  import opened Text
  import opened Seqs

  const ItemKind := "item"
  const MenuKind := "menu"

  /** A sidebar item as stored: `type` is "item" or "menu", `text` is non-blank and
      stripped, `level` is non-negative. */
  datatype SidebarItem = SidebarItem(
    id: Option<string>,
    text: string,
    kind: string,
    header: Option<string>,
    menu: Option<string>,
    parentMenuText: Option<string>,
    level: int,
    expandable: bool)

  /** A failed field validator. */
  datatype FieldError = MissingField | EmptyText | BadType | NegativeLevel | EmptyHeader | NegativeCount

  /** What the validators guarantee of a stored item. */
  predicate ValidSidebarItem(item: SidebarItem) {
    (item.kind == ItemKind || item.kind == MenuKind)
    && !IsBlank(item.text) && Strip(item.text) == item.text
    && item.level >= 0
  }

  /** The text validator, then the type validator, then the level validator, in field
      order; every failure is reported. */
  function MakeSidebarItem(
    id: Option<string>, text: string, kind: string, header: Option<string>,
    menu: Option<string>, parentMenuText: Option<string>, level: int, expandable: bool
  ): (r: Result<SidebarItem, seq<FieldError>>)
    ensures r.Ok? <==> !IsBlank(text) && (kind == ItemKind || kind == MenuKind) && level >= 0
    ensures r.Ok? ==> ValidSidebarItem(r.value)
    ensures r.Ok? ==> (r.value.text == Strip(text) && r.value.id == id && r.value.kind == kind
      && r.value.header == header && r.value.menu == menu && r.value.parentMenuText == parentMenuText
      && r.value.level == level && r.value.expandable == expandable)
    ensures r.Err? ==> (r.error != []
      && (EmptyText in r.error <==> IsBlank(text))
      && (BadType in r.error <==> !(kind == ItemKind || kind == MenuKind))
      && (NegativeLevel in r.error <==> level < 0))
  {
    var errors := (if IsBlank(text) then [EmptyText] else [])
      + (if kind == ItemKind || kind == MenuKind then [] else [BadType])
      + (if level < 0 then [NegativeLevel] else []);
    if errors == [] then
      StripStripped(text);
      Ok(SidebarItem(id, Strip(text), kind, header, menu, parentMenuText, level, expandable))
    else Err(errors)
  }

  /** A stripped non-blank text stays non-blank and is its own strip. */
  lemma StripStripped(text: string)
    requires !IsBlank(text)
    ensures !IsBlank(Strip(text)) && Strip(Strip(text)) == Strip(text)
  {
    TrimSpec(text, Whitespace);
    TrimUnchanged(Strip(text), Whitespace);
  }

  /** Validating a stored item again yields the same item. */
  lemma RevalidateSidebarItem(item: SidebarItem)
    requires ValidSidebarItem(item)
    ensures MakeSidebarItem(item.id, item.text, item.kind, item.header, item.menu,
      item.parentMenuText, item.level, item.expandable) == Ok(item)
  {
  }

  /** A header group: its header text is non-blank and stored stripped. */
  datatype ModelHeaderGroup = ModelHeaderGroup(headerText: string, children: seq<SidebarItem>)

  function MakeHeaderGroup(headerText: string, children: seq<SidebarItem>): (r: Result<ModelHeaderGroup, seq<FieldError>>)
    ensures r.Ok? <==> !IsBlank(headerText)
    ensures r.Ok? ==> (!IsBlank(r.value.headerText) && r.value.headerText == Strip(headerText)
      && Strip(r.value.headerText) == r.value.headerText && r.value.children == children)
    ensures r.Err? ==> r.error == [EmptyHeader]
  {
    if IsBlank(headerText) then Err([EmptyHeader])
    else
      StripStripped(headerText);
      Ok(ModelHeaderGroup(Strip(headerText), children))
  }

  // ---------------------------------------------------------------------------
  // The sidebar structure and its derived lists
  // ---------------------------------------------------------------------------

  datatype SidebarStructure = SidebarStructure(structuredData: seq<ModelHeaderGroup>, items: seq<SidebarItem>)

  function TotalItems(st: SidebarStructure): nat {
    |st.items|
  }

  /** Content items that have an id (an empty id counts: only `None` is excluded). */
  predicate IsValidForProcessing(item: SidebarItem) {
    item.id.Some? && item.kind == ItemKind
  }

  predicate IsMenu(item: SidebarItem) {
    item.kind == MenuKind
  }

  predicate IsContent(item: SidebarItem) {
    item.kind == ItemKind
  }

  function ValidItems(st: SidebarStructure): (r: seq<SidebarItem>)
    ensures forall i | 0 <= i < |r| :: IsValidForProcessing(r[i]) && r[i] in st.items
  {
    Filter(st.items, IsValidForProcessing)
  }

  function MenuItems(st: SidebarStructure): (r: seq<SidebarItem>)
    ensures forall i | 0 <= i < |r| :: IsMenu(r[i]) && r[i] in st.items
  {
    Filter(st.items, IsMenu)
  }

  function ContentItems(st: SidebarStructure): (r: seq<SidebarItem>)
    ensures forall i | 0 <= i < |r| :: IsContent(r[i]) && r[i] in st.items
  {
    Filter(st.items, IsContent)
  }

  /** The valid items are exactly the content items with an id, in the order of the
      item list. */
  lemma ValidItemsExact(st: SidebarStructure, item: SidebarItem)
    ensures item in ValidItems(st) <==> item in st.items && item.id.Some? && item.kind == ItemKind
    ensures IsSubsequence(ValidItems(st), st.items)
  {
    if item in st.items && IsValidForProcessing(item) {
      FilterComplete(st.items, IsValidForProcessing, item);
    }
    FilterIsSubsequence(st.items, IsValidForProcessing);
  }

  /** When every item is an item or a menu, the menu items and the content items split
      the item list: their sizes add up to the total and together they hold each item as
      often as the list does. */
  lemma MenuAndContentPartition(st: SidebarStructure)
    requires forall i | 0 <= i < |st.items| :: st.items[i].kind == ItemKind || st.items[i].kind == MenuKind
    ensures |MenuItems(st)| + |ContentItems(st)| == TotalItems(st)
    ensures multiset(MenuItems(st)) + multiset(ContentItems(st)) == multiset(st.items)
    ensures IsSubsequence(MenuItems(st), st.items) && IsSubsequence(ContentItems(st), st.items)
  {
    FilterPartition(st.items, IsMenu, IsContent);
    FilterIsSubsequence(st.items, IsMenu);
    FilterIsSubsequence(st.items, IsContent);
  }

  /** Every valid item is a content item. */
  lemma ValidItemsAreContent(st: SidebarStructure)
    ensures forall i | 0 <= i < |ValidItems(st)| :: ValidItems(st)[i] in ContentItems(st)
  {
    forall i | 0 <= i < |ValidItems(st)|
      ensures ValidItems(st)[i] in ContentItems(st)
    {
      FilterComplete(st.items, IsContent, ValidItems(st)[i]);
    }
  }

  // ---------------------------------------------------------------------------
  // Resume information
  // ---------------------------------------------------------------------------

  datatype ResumeInfo = ResumeInfo(
    totalItems: int,
    existingFiles: int,
    itemsNeedingProcessing: int,
    outputDirectory: seq<string>,
    existingItems: seq<SidebarItem>,
    pendingItems: seq<SidebarItem>)

  /** The three counts must be non-negative; each negative count is reported. */
  function MakeResumeInfo(
    total: int, existing: int, needing: int, dir: seq<string>,
    existingItems: seq<SidebarItem>, pendingItems: seq<SidebarItem>
  ): (r: Result<ResumeInfo, seq<FieldError>>)
    ensures r.Ok? <==> total >= 0 && existing >= 0 && needing >= 0
    ensures r.Ok? ==> r.value == ResumeInfo(total, existing, needing, dir, existingItems, pendingItems)
    ensures r.Err? ==> |r.error| == (if total < 0 then 1 else 0) + (if existing < 0 then 1 else 0) + (if needing < 0 then 1 else 0)
  {
    var errors := (if total < 0 then [NegativeCount] else [])
      + (if existing < 0 then [NegativeCount] else [])
      + (if needing < 0 then [NegativeCount] else []);
    if errors == [] then Ok(ResumeInfo(total, existing, needing, dir, existingItems, pendingItems))
    else Err(errors)
  }
}
