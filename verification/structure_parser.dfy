/** The sidebar parser's entry point, the dispatch between the two layouts, the parser
    for the flat layout (items first, headers trailing), and the item parser it uses,
    which descends into menus through the `ul` that follows them. */
module StructureParser {
  import opened Wrappers
  import opened Text
  import opened Structure
  import opened MarkdownConverter
  import opened LinkResolver
  import opened HtmlCleaner
  import HierarchicalParser
  import opened Seqs

  const DefaultGroupHeader := "API Documentation"

  // ---------------------------------------------------------------------------
  // Entry point and dispatch
  // ---------------------------------------------------------------------------

  /** Parses the sidebar: nothing for empty HTML or when the root `ul` is not found
      (`root` is what the root lookup finds, as its child nodes); otherwise the parser
      the detected layout selects. */
  function Parse(html: string, root: Option<seq<Node>>, configured: Option<string>, counts: PageCounts): (groups: seq<HeaderGroup>)
    ensures html == "" || root.None? ==> groups == []
    ensures html != "" && root.Some? && DetectStructureType(configured, counts) == FlatLayout ==>
      groups == ParseFlatStructure(root.value)
    ensures html != "" && root.Some? && DetectStructureType(configured, counts) != FlatLayout ==>
      groups == HierarchicalParser.ParseHierarchicalStructure(root.value)
  {
    if html == "" then []
    else
      var layout := DetectStructureType(configured, counts);
      match root
      case None => []
      case Some(nodes) => DelegateParsing(nodes, layout)
  }

  /** Only the flat layout name selects the flat parser. */
  function DelegateParsing(nodes: seq<Node>, layout: string): (groups: seq<HeaderGroup>)
    ensures layout == FlatLayout ==> groups == ParseFlatStructure(nodes)
    ensures layout != FlatLayout ==> groups == HierarchicalParser.ParseHierarchicalStructure(nodes)
  {
    if layout == FlatLayout then ParseFlatStructure(nodes)
    else HierarchicalParser.ParseHierarchicalStructure(nodes)
  }

  // ---------------------------------------------------------------------------
  // Item parser
  // ---------------------------------------------------------------------------

  /** Menus, and only menus, are expandable, all the way down the tree. */
  predicate KindMatchesExpandable(item: Item)
    decreases item
  {
    (item.kind == "menu" <==> item.expandable)
    && (item.kind == "menu" || item.kind == "item")
    && forall k | 0 <= k < |item.children| :: KindMatchesExpandable(item.children[k])
  }

  /** Parses the app item at `sibs[i]`: nothing without a clickable element; a menu
      (an element with an expander icon) keeps its own id and gets its children; an
      item's id is resolved, possibly to a synthetic one; skipped or invalid results are
      dropped. */
  function ParseItemFromAppItem(sibs: seq<Node>, i: nat): (r: Option<Item>)
    requires i < |sibs| && sibs[i].Tag?
    ensures sibs[i].app.clickable.None? ==> r.None?
    ensures r.Some? ==> !ShouldSkipItem(r.value.text) && ValidateItemData(r.value)
    ensures r.Some? ==> r.value.text == ExtractItemText(sibs[i].app.clickable.value, r.value.expandable)
    ensures r.Some? ==> KindMatchesExpandable(r.value)
    ensures r.Some? && r.value.kind == "item" ==>
      r.value.children == [] && r.value.id == ResolveItemId(sibs[i].app.clickable.value.id, r.value.text)
    ensures r.Some? && r.value.kind == "menu" ==> r.value.id == sibs[i].app.clickable.value.id
    decreases sibs, |sibs| - i, 3
  {
    match sibs[i].app.clickable
    case None => None
    case Some(li) => BuildItem(sibs, i, li)
  }

  /** The item for the clickable element `li` of the app item at `sibs[i]`. */
  function BuildItem(sibs: seq<Node>, i: nat, li: ClickableLi): (r: Option<Item>)
    requires i < |sibs| && sibs[i].Tag?
    ensures r.Some? ==> !ShouldSkipItem(r.value.text) && ValidateItemData(r.value)
    ensures r.Some? ==> r.value.text == ExtractItemText(li, r.value.expandable)
    ensures r.Some? ==> KindMatchesExpandable(r.value)
    ensures r.Some? && r.value.kind == "item" ==> r.value.children == [] && r.value.id == ResolveItemId(li.id, r.value.text)
    ensures r.Some? && r.value.kind == "menu" ==> r.value.id == li.id
    decreases sibs, |sibs| - i, 2
  {
    var isMenu := IsExpandableElement(li);
    var text := ExtractItemText(li, isMenu);
    var kind := if isMenu then "menu" else "item";
    var id := if isMenu then li.id else ResolveItemId(li.id, text);
    var children := if isMenu then PowerflexMenuChildren(sibs, i, li) else [];
    if ShouldSkipItem(text) then None
    else
      var item := Item(id, text, kind, isMenu, children);
      if ValidateItemData(item) then Some(item) else None
  }

  /** The children of a menu: the app items of the `ul` that follows it when any of
      them parses, otherwise the nested clickable elements with a usable text. */
  function PowerflexMenuChildren(sibs: seq<Node>, i: nat, li: ClickableLi): (children: seq<Item>)
    requires i < |sibs| && sibs[i].Tag?
    ensures forall k | 0 <= k < |children| :: KindMatchesExpandable(children[k])
    decreases sibs, |sibs| - i, 1
  {
    var fromList := match FindMenuChildren(sibs, i)
      case None => []
      case Some(kids) => ParseListChildren(kids, 0);
    if fromList != [] then fromList
    else NestedChildren(FindNestedItems(li))
  }

  /** The app items among the child nodes `kids[k..]` of a `ul` that parse to an item
      with a usable text. */
  function ParseListChildren(kids: seq<Node>, k: nat): (children: seq<Item>)
    requires k <= |kids|
    ensures forall c | 0 <= c < |children| :: KindMatchesExpandable(children[c]) && !ShouldSkipItem(children[c].text)
    ensures |children| <= |kids| - k
    decreases kids, |kids| - k, 4
  {
    if k == |kids| then []
    else
      var rest := ParseListChildren(kids, k + 1);
      if kids[k].Tag? && kids[k].name == AppItemTag then
        match ParseItemFromAppItem(kids, k)
        case Some(child) =>
          if !ShouldSkipItem(child.text) then [child] + rest else rest
        case None => rest
      else rest
  }

  /** Child entries for nested clickable elements whose text is usable; a missing id
      becomes "unknown". */
  function NestedChildren(nested: seq<ClickableLi>): (children: seq<Item>)
    ensures |children| <= |nested|
    ensures forall c | 0 <= c < |children| ::
      children[c].kind == "item" && !children[c].expandable && children[c].children == []
      && Truthy(children[c].id)
    decreases |nested|
  {
    if nested == [] then []
    else
      var n := nested[0];
      var text := ExtractChildText(n);
      var rest := NestedChildren(nested[1..]);
      if text != "" && !ShouldSkipItem(text) then
        var id := if Truthy(n.id) then n.id.value else "unknown";
        [CreateChildEntry(text, id)] + rest
      else rest
  }

  // ---------------------------------------------------------------------------
  // Flat layout
  // ---------------------------------------------------------------------------

  datatype PendingHeader = PendingHeader(text: string, position: nat)
  datatype Placed = Placed(item: Item, position: nat)

  /** The first pass: the position counter, the headers with their positions and the
      parsed items with theirs. */
  datatype ScanState = ScanState(index: nat, headers: seq<PendingHeader>, items: seq<Placed>)

  predicate Sorted(p: seq<Placed>) {
    forall a, b | 0 <= a < b < |p| :: p[a].position <= p[b].position
  }

  predicate HeadersSorted(hs: seq<PendingHeader>) {
    forall a, b | 0 <= a < b < |hs| :: hs[a].position <= hs[b].position
  }

  /** Items and headers are in position order, every item lies below the counter and
      every header at or below it. */
  predicate ScanInvariant(st: ScanState) {
    Sorted(st.items) && (forall a | 0 <= a < |st.items| :: st.items[a].position < st.index)
    && HeadersSorted(st.headers) && (forall a | 0 <= a < |st.headers| :: st.headers[a].position <= st.index)
  }

  /** The header text of a node that is a header app item. */
  function HeaderAt(n: Node): Option<string> {
    if n.Tag? && n.name == AppItemTag then ExtractHeaderInfo(n.app) else None
  }

  /** The item parsed from `nodes[k]` when it is an app item that is not a header. */
  function ItemAt(nodes: seq<Node>, k: nat): Option<Item>
    requires k < |nodes|
  {
    if nodes[k].Tag? && nodes[k].name == AppItemTag && HeaderAt(nodes[k]).None? then ParsedAt(nodes, k)
    else None
  }

  /** `_parse_item_from_app_item` on the app item `nodes[k]`. */
  function ParsedAt(nodes: seq<Node>, k: nat): Option<Item>
    requires k < |nodes| && nodes[k].Tag?
  {
    ParseItemFromAppItem(nodes, k)
  }

  /** A node that moves the position counter: anything but a header app item. A text
      node passes the `hasattr(element, 'name')` test too (BeautifulSoup gives strings
      a `name` of `None`), so it moves the counter like any other non-header node. */
  predicate Advances(n: Node) {
    HeaderAt(n).None?
  }

  function Step(n: Node): nat {
    if Advances(n) then 1 else 0
  }

  function CountAdvancing(nodes: seq<Node>, k: nat): nat
    requires k <= |nodes|
    decreases |nodes| - k
  {
    if k == |nodes| then 0 else Step(nodes[k]) + CountAdvancing(nodes, k + 1)
  }

  /** How many of the nodes `k` to `j - 1` move the counter, node `i` moving it by
      `step(i)`. */
  function Advanced(step: nat -> nat, k: nat, j: nat): nat
    decreases j - k
  {
    if j <= k then 0 else step(k) + Advanced(step, k + 1, j)
  }

  /** The counter step of node `j`, none past the end. */
  function StepOf(nodes: seq<Node>): nat -> nat {
    (j: nat) => if j < |nodes| then Step(nodes[j]) else 0
  }

  /** How many of `nodes[k..j]` move the counter: the position of `nodes[j]` when the
      walk reaches `nodes[k]` at position zero. */
  function AdvancedBefore(nodes: seq<Node>, k: nat, j: nat): nat
    requires k <= j <= |nodes|
  {
    Advanced(StepOf(nodes), k, j)
  }

  lemma AdvancedBeforeStep(nodes: seq<Node>, k: nat, j: nat)
    requires k < j <= |nodes|
    ensures AdvancedBefore(nodes, k, j) == Step(nodes[k]) + AdvancedBefore(nodes, k + 1, j)
  {
  }

  /** What one node contributes to the headers, at position `idx`. */
  function HeaderRecord(n: Node, idx: nat): seq<PendingHeader> {
    match HeaderAt(n) case Some(h) => [PendingHeader(h, idx)] case None => []
  }

  /** What `nodes[k]` contributes to the items, at position `idx`. */
  function ItemRecord(nodes: seq<Node>, k: nat, idx: nat): seq<Placed>
    requires k < |nodes|
  {
    match ItemAt(nodes, k) case Some(it) => [Placed(it, idx)] case None => []
  }

  /** Reference definition: the headers of `nodes[k..]` with their positions, the walk
      starting at position `idx`. */
  function FlatHeaders(nodes: seq<Node>, k: nat, idx: nat): seq<PendingHeader>
    requires k <= |nodes|
    decreases |nodes| - k
  {
    if k == |nodes| then []
    else
      HeaderRecord(nodes[k], idx) + FlatHeaders(nodes, k + 1, idx + Step(nodes[k]))
  }

  /** The items of a walk over the nodes `k` to `n - 1`, starting at position `idx`,
      where node `j` yields `parse(j)` and moves the counter by `step(j)`. */
  function Collect(parse: nat -> Option<Item>, step: nat -> nat, k: nat, n: nat, idx: nat): seq<Placed>
    decreases n - k
  {
    if n <= k then []
    else
      (match parse(k) case Some(it) => [Placed(it, idx)] case None => [])
      + Collect(parse, step, k + 1, n, idx + step(k))
  }

  /** What the node at `j` parses to, nothing past the end. */
  function ItemFn(nodes: seq<Node>): nat -> Option<Item> {
    (j: nat) => if j < |nodes| then ItemAt(nodes, j) else None
  }

  /** What each of `nodes[k..]` parses to, in order. */
  function ParsedFrom(nodes: seq<Node>, k: nat): (r: seq<Option<Item>>)
    requires k <= |nodes|
    ensures |r| == |nodes| - k
  {
    Table(ItemFn(nodes), k, |nodes|)
  }

  lemma ParsedFromAt(nodes: seq<Node>, k: nat, j: nat)
    requires k <= j < |nodes|
    ensures ParsedFrom(nodes, k)[j - k] == ItemAt(nodes, j)
  {
    TableAt(ItemFn(nodes), k, |nodes|, j);
  }

  /** The item parsed from node `j`, none past the end. */
  function ItemOf(nodes: seq<Node>): nat -> Option<Item> {
    (j: nat) => if j < |nodes| then ParsedFrom(nodes, 0)[j] else None
  }

  lemma ItemOfAt(nodes: seq<Node>, j: nat)
    requires j < |nodes|
    ensures ItemOf(nodes)(j) == ItemAt(nodes, j)
  {
    ParsedFromAt(nodes, 0, j);
  }

  /** Reference definition: the items parsed from `nodes[k..]` with their positions. */
  function FlatItems(nodes: seq<Node>, k: nat, idx: nat): seq<Placed>
    requires k <= |nodes|
  {
    Collect(ItemOf(nodes), StepOf(nodes), k, |nodes|, idx)
  }

  lemma FlatItemsUnfold(nodes: seq<Node>, k: nat, idx: nat)
    requires k < |nodes|
    ensures FlatItems(nodes, k, idx) == ItemRecord(nodes, k, idx) + FlatItems(nodes, k + 1, idx + Step(nodes[k]))
  {
    ItemOfAt(nodes, k);
    assert StepOf(nodes)(k) == Step(nodes[k]);
  }

  /** Walks the child nodes in order: a header records the current position without
      moving it, an item records the current position, and every other node moves the
      position on. What it records is exactly the headers and items of the nodes, at
      their positions. */
  function ScanFlat(nodes: seq<Node>, k: nat, st: ScanState): (out: ScanState)
    requires k <= |nodes|
    requires ScanInvariant(st)
    ensures ScanInvariant(out)
    ensures out.index == st.index + CountAdvancing(nodes, k)
    ensures out.headers == st.headers + FlatHeaders(nodes, k, st.index)
    ensures out.items == st.items + FlatItems(nodes, k, st.index)
    decreases |nodes| - k
  {
    if k == |nodes| then
      assert st.headers + [] == st.headers && st.items + [] == st.items;
      assert FlatItems(nodes, k, st.index) == [];
      st
    else
      var next := FlatStep(nodes, k, st);
      var out := ScanFlat(nodes, k + 1, next);
      AppendAssoc(st.headers, HeaderRecord(nodes[k], st.index), FlatHeaders(nodes, k + 1, next.index));
      FlatItemsUnfold(nodes, k, st.index);
      AppendAssoc(st.items, ItemRecord(nodes, k, st.index), FlatItems(nodes, k + 1, next.index));
      out
  }


  /** One node of the first pass: a header app item records its header at the current
      position, an app item that parses records the item there, and nothing else is
      recorded. */
  function FlatStep(nodes: seq<Node>, k: nat, st: ScanState): (next: ScanState)
    requires k < |nodes|
    requires ScanInvariant(st)
    ensures ScanInvariant(next)
    ensures next.index == st.index + Step(nodes[k])
    ensures HeaderAt(nodes[k]).Some? ==>
      next.headers == st.headers + [PendingHeader(HeaderAt(nodes[k]).value, st.index)] && next.items == st.items
    ensures ItemAt(nodes, k).Some? ==>
      next.items == st.items + [Placed(ItemAt(nodes, k).value, st.index)] && next.headers == st.headers
    ensures HeaderAt(nodes[k]).None? && ItemAt(nodes, k).None? ==> next.headers == st.headers && next.items == st.items
    ensures next.headers == st.headers + HeaderRecord(nodes[k], st.index)
    ensures next.items == st.items + ItemRecord(nodes, k, st.index)
  {
    match nodes[k]
    case TextNode => AdvanceOnly(st)
    case Tag(name, app, _) =>
      if name == AppItemTag then
        match ExtractHeaderInfo(app)
        case Some(h) => AddHeader(st, h)
        case None =>
          match ParseItemFromAppItem(nodes, k)
          case Some(it) => AddItem(st, it)
          case None => AdvanceOnly(st)
      else AdvanceOnly(st)
  }

  function AddHeader(st: ScanState, h: string): (next: ScanState)
    requires ScanInvariant(st)
    ensures ScanInvariant(next) && next.index == st.index && next.items == st.items
    ensures next.headers == st.headers + [PendingHeader(h, st.index)]
  {
    st.(headers := st.headers + [PendingHeader(h, st.index)])
  }

  function AddItem(st: ScanState, it: Item): (next: ScanState)
    requires ScanInvariant(st)
    ensures ScanInvariant(next) && next.index == st.index + 1 && next.headers == st.headers
    ensures next.items == st.items + [Placed(it, st.index)]
  {
    ScanState(st.index + 1, st.headers, st.items + [Placed(it, st.index)])
  }

  function AdvanceOnly(st: ScanState): (next: ScanState)
    requires ScanInvariant(st)
    ensures ScanInvariant(next) && next.index == st.index + 1
    ensures next.headers == st.headers && next.items == st.items
  {
    st.(index := st.index + 1)
  }

  /** `[p for p in pending if p.position < q]`. */
  function Below(pending: seq<Placed>, q: nat): (r: seq<Placed>)
    ensures forall a | 0 <= a < |r| :: r[a].position < q
    decreases |pending|
  {
    if pending == [] then []
    else (if pending[0].position < q then [pending[0]] else []) + Below(pending[1..], q)
  }

  /** `[p for p in pending if p.position >= q]`. */
  function AtOrAbove(pending: seq<Placed>, q: nat): (r: seq<Placed>)
    ensures forall a | 0 <= a < |r| :: r[a].position >= q
    decreases |pending|
  {
    if pending == [] then []
    else (if pending[0].position >= q then [pending[0]] else []) + AtOrAbove(pending[1..], q)
  }

  /** `[p for p in pending if lo <= p.position < hi]`. */
  function Between(pending: seq<Placed>, lo: nat, hi: nat): (r: seq<Placed>)
    ensures forall a | 0 <= a < |r| :: lo <= r[a].position < hi
    decreases |pending|
  {
    if pending == [] then []
    else (if lo <= pending[0].position < hi then [pending[0]] else []) + Between(pending[1..], lo, hi)
  }

  /** Where the items of header `g` start: at the previous header's position, or at the
      first position for the first header. */
  function Lo(headers: seq<PendingHeader>, g: nat): nat
    requires g < |headers|
  {
    if g == 0 then 0 else headers[g - 1].position
  }

  function Data(pending: seq<Placed>): (items: seq<Item>)
    ensures |items| == |pending|
    ensures forall a | 0 <= a < |pending| :: items[a] == pending[a].item
  {
    seq(|pending|, a requires 0 <= a < |pending| => pending[a].item)
  }

  /** Each header in turn takes the pending items below its position; the last header
      also takes whatever is left. */
  function AssignToHeaders(headers: seq<PendingHeader>, pending: seq<Placed>): (groups: seq<HeaderGroup>)
    requires |headers| > 0
    ensures |groups| == |headers|
    ensures forall g | 0 <= g < |groups| :: groups[g].headerText == Some(headers[g].text)
    decreases |headers|
  {
    var h := headers[0];
    var mine := Data(Below(pending, h.position));
    var rest := AtOrAbove(pending, h.position);
    if |headers| == 1 then [HeaderGroup(Some(h.text), mine + Data(rest))]
    else [HeaderGroup(Some(h.text), mine)] + AssignToHeaders(headers[1..], rest)
  }

  /** The flat layout: with no header one "API Documentation" group holds every item;
      otherwise the items are assigned to the headers by position, one group per header
      in document order. */
  function ParseFlatStructure(nodes: seq<Node>): (groups: seq<HeaderGroup>)
    ensures FlatHeaders(nodes, 0, 0) == [] ==>
      groups == [HeaderGroup(Some(DefaultGroupHeader), Data(FlatItems(nodes, 0, 0)))]
    ensures FlatHeaders(nodes, 0, 0) != [] ==> |groups| == |FlatHeaders(nodes, 0, 0)|
    ensures forall g | 0 <= g < |groups| && FlatHeaders(nodes, 0, 0) != [] ::
      groups[g].headerText == Some(FlatHeaders(nodes, 0, 0)[g].text)
  {
    var st := ScanFlat(nodes, 0, ScanState(0, [], []));
    assert st.headers == FlatHeaders(nodes, 0, 0) && st.items == FlatItems(nodes, 0, 0);
    if st.headers == [] then [HeaderGroup(Some(DefaultGroupHeader), Data(st.items))]
    else AssignToHeaders(st.headers, st.items)
  }

  /** The children of all groups, one group after another. */
  function AllChildren(groups: seq<HeaderGroup>): seq<Item>
    decreases |groups|
  {
    if groups == [] then [] else groups[0].children + AllChildren(groups[1..])
  }

  // ---------------------------------------------------------------------------
  // Properties of the flat layout
  // ---------------------------------------------------------------------------

  lemma DataConcat(a: seq<Placed>, b: seq<Placed>)
    ensures Data(a + b) == Data(a) + Data(b)
  {
  }

  lemma {:induction false} AllAtOrAbove(p: seq<Placed>, q: nat)
    requires forall a | 0 <= a < |p| :: p[a].position >= q
    ensures Below(p, q) == [] && AtOrAbove(p, q) == p
    decreases |p|
  {
    if p != [] {
      AllAtOrAbove(p[1..], q);
    }
  }

  /** On position-sorted items, the items below a position followed by the others are
      the items in their original order, and the others stay sorted. */
  lemma SplitSorted(p: seq<Placed>, q: nat)
    requires Sorted(p)
    ensures Below(p, q) + AtOrAbove(p, q) == p
    ensures Sorted(AtOrAbove(p, q))
  {
    SplitConcat(p, q);
    AboveSorted(p, q);
  }

  lemma SortedTail(p: seq<Placed>)
    requires p != [] && Sorted(p)
    ensures Sorted(p[1..])
  {
    forall a, b | 0 <= a < b < |p| - 1
      ensures p[1..][a].position <= p[1..][b].position
    {
      assert p[1..][a] == p[a + 1] && p[1..][b] == p[b + 1];
    }
  }

  lemma {:induction false} SplitConcat(p: seq<Placed>, q: nat)
    requires Sorted(p)
    ensures Below(p, q) + AtOrAbove(p, q) == p
    decreases |p|
  {
    if p != [] {
      SortedTail(p);
      if p[0].position < q {
        SplitConcat(p[1..], q);
        HeadBelow(p, q);
      } else {
        HeadAbove(p, q);
      }
    }
  }

  lemma HeadBelow(p: seq<Placed>, q: nat)
    requires p != [] && p[0].position < q
    requires Below(p[1..], q) + AtOrAbove(p[1..], q) == p[1..]
    ensures Below(p, q) + AtOrAbove(p, q) == p
  {
    var t := p[1..];
    FilterCons(p, q);
    ConsAssoc(p[0], Below(t, q), AtOrAbove(t, q), t);
    assert [p[0]] + t == p;
  }

  lemma ConsAssoc<T>(x: T, b: seq<T>, c: seq<T>, t: seq<T>)
    requires b + c == t
    ensures ([x] + b) + c == [x] + t
  {
  }

  lemma FilterCons(p: seq<Placed>, q: nat)
    requires p != [] && p[0].position < q
    ensures Below(p, q) == [p[0]] + Below(p[1..], q)
    ensures AtOrAbove(p, q) == AtOrAbove(p[1..], q)
  {
    assert AtOrAbove(p, q) == [] + AtOrAbove(p[1..], q);
  }

  /** Sorted items whose first one is at or above `q` all are. */
  lemma HeadAbove(p: seq<Placed>, q: nat)
    requires p != [] && Sorted(p) && p[0].position >= q
    ensures Below(p, q) == [] && AtOrAbove(p, q) == p
  {
    assert forall a | 0 <= a < |p| :: p[a].position >= q by {
      forall a | 0 <= a < |p|
        ensures p[a].position >= q
      {
        if a > 0 {
          assert p[0].position <= p[a].position;
        }
      }
    }
    AllAtOrAbove(p, q);
  }

  lemma {:induction false} AboveSorted(p: seq<Placed>, q: nat)
    requires Sorted(p)
    ensures Sorted(AtOrAbove(p, q))
    decreases |p|
  {
    if p != [] {
      SortedTail(p);
      if p[0].position < q {
        AboveSorted(p[1..], q);
        assert AtOrAbove(p, q) == AtOrAbove(p[1..], q);
      } else {
        HeadAbove(p, q);
      }
    }
  }

  lemma {:induction false} AssignKeepsAllItems(headers: seq<PendingHeader>, pending: seq<Placed>)
    requires |headers| > 0
    requires Sorted(pending)
    ensures AllChildren(AssignToHeaders(headers, pending)) == Data(pending)
    decreases |headers|
  {
    var h := headers[0];
    var below := Below(pending, h.position);
    var rest := AtOrAbove(pending, h.position);
    SplitSorted(pending, h.position);
    DataConcat(below, rest);
    var groups := AssignToHeaders(headers, pending);
    if |headers| == 1 {
      assert groups[1..] == [];
      assert AllChildren(groups) == Data(below) + Data(rest) + [];
    } else {
      AssignKeepsAllItems(headers[1..], rest);
      assert groups[1..] == AssignToHeaders(headers[1..], rest);
      assert AllChildren(groups) == Data(below) + Data(rest);
    }
  }

  function Max(a: nat, b: nat): nat {
    if a < b then b else a
  }

  lemma {:induction false} AboveAbove(p: seq<Placed>, a: nat, b: nat)
    ensures AtOrAbove(AtOrAbove(p, a), b) == AtOrAbove(p, Max(a, b))
    decreases |p|
  {
    if p != [] {
      AboveAbove(p[1..], a, b);
      var r := AtOrAbove(p[1..], a);
      if p[0].position >= a {
        assert AtOrAbove(p, a) == [p[0]] + r;
        assert ([p[0]] + r)[1..] == r;
      } else {
        assert AtOrAbove(p, a) == r;
      }
    }
  }

  lemma {:induction false} BetweenOfAbove(p: seq<Placed>, a: nat, lo: nat, hi: nat)
    ensures Between(AtOrAbove(p, a), lo, hi) == Between(p, Max(a, lo), hi)
    decreases |p|
  {
    if p != [] {
      BetweenOfAbove(p[1..], a, lo, hi);
      var r := AtOrAbove(p[1..], a);
      if p[0].position >= a {
        assert AtOrAbove(p, a) == [p[0]] + r;
        assert ([p[0]] + r)[1..] == r;
      } else {
        assert AtOrAbove(p, a) == r;
      }
    }
  }

  lemma {:induction false} BetweenFromZero(p: seq<Placed>, hi: nat)
    ensures Between(p, 0, hi) == Below(p, hi)
    decreases |p|
  {
    if p != [] {
      BetweenFromZero(p[1..], hi);
    }
  }

  lemma HeadersSortedTail(hs: seq<PendingHeader>)
    requires hs != [] && HeadersSorted(hs)
    ensures HeadersSorted(hs[1..])
  {
    forall a, b | 0 <= a < b < |hs| - 1
      ensures hs[1..][a].position <= hs[1..][b].position
    {
      assert hs[1..][a] == hs[a + 1] && hs[1..][b] == hs[b + 1];
    }
  }

  /** Which items each header receives: the first header the items before it, every
      later header the items from the previous header's position up to its own, and the
      last header everything from the previous header's position on, the leftovers
      included. */
  lemma {:induction false} AssignGroups(headers: seq<PendingHeader>, pending: seq<Placed>, g: nat)
    requires |headers| > 0 && g < |headers|
    requires HeadersSorted(headers) && Sorted(pending)
    ensures g < |headers| - 1 ==>
      AssignToHeaders(headers, pending)[g].children == Data(Between(pending, Lo(headers, g), headers[g].position))
    ensures g == |headers| - 1 ==>
      AssignToHeaders(headers, pending)[g].children == Data(AtOrAbove(pending, Lo(headers, g)))
    decreases |headers|
  {
    var h := headers[0];
    var rest := AtOrAbove(pending, h.position);
    if g == 0 {
      if |headers| == 1 {
        SplitSorted(pending, h.position);
        DataConcat(Below(pending, h.position), rest);
        AllAtOrAbove(pending, 0);
      } else {
        BetweenFromZero(pending, h.position);
      }
    } else {
      var tail := headers[1..];
      HeadersSortedTail(headers);
      AboveSorted(pending, h.position);
      AssignGroups(tail, rest, g - 1);
      assert AssignToHeaders(headers, pending)[g] == AssignToHeaders(tail, rest)[g - 1];
      assert tail[g - 1] == headers[g];
      assert h.position <= headers[g - 1].position;
      assert Max(h.position, Lo(tail, g - 1)) == Lo(headers, g);
      if g < |headers| - 1 {
        BetweenOfAbove(pending, h.position, Lo(tail, g - 1), headers[g].position);
      } else {
        AboveAbove(pending, h.position, Lo(tail, g - 1));
      }
    }
  }

  lemma {:induction false} CollectFrom(parse: nat -> Option<Item>, step: nat -> nat, k: nat, n: nat, idx: nat, j: nat)
    requires k <= j < n && parse(j).Some?
    ensures Placed(parse(j).value, idx + Advanced(step, k, j)) in Collect(parse, step, k, n, idx)
    decreases j - k
  {
    if k < j {
      CollectFrom(parse, step, k + 1, n, idx + step(k), j);
    }
  }

  lemma {:induction false} CollectOnly(parse: nat -> Option<Item>, step: nat -> nat, k: nat, n: nat, idx: nat, p: Placed)
    requires p in Collect(parse, step, k, n, idx)
    ensures exists j | k <= j < n :: parse(j) == Some(p.item) && p.position == idx + Advanced(step, k, j)
    decreases n - k
  {
    var head := match parse(k) case Some(it) => [Placed(it, idx)] case None => [];
    if p in head {
      assert parse(k) == Some(p.item) && p.position == idx + Advanced(step, k, k);
    } else {
      CollectOnly(parse, step, k + 1, n, idx + step(k), p);
      var j :| k + 1 <= j < n && parse(j) == Some(p.item) && p.position == idx + step(k) + Advanced(step, k + 1, j);
      assert parse(j) == Some(p.item) && p.position == idx + Advanced(step, k, j);
    }
  }

  /** Every item the nodes yield is recorded, at the number of counter-moving nodes
      before it. */
  lemma FlatItemsFromNodes(nodes: seq<Node>, k: nat, idx: nat, j: nat)
    requires k <= j < |nodes| && ItemAt(nodes, j).Some?
    ensures Placed(ItemAt(nodes, j).value, idx + AdvancedBefore(nodes, k, j)) in FlatItems(nodes, k, idx)
  {
    ItemOfAt(nodes, j);
    CollectFrom(ItemOf(nodes), StepOf(nodes), k, |nodes|, idx, j);
  }

  /** Nothing else is recorded: every recorded item comes from a node, at that node's
      position. */
  lemma FlatItemsOnlyFromNodes(nodes: seq<Node>, k: nat, idx: nat, p: Placed)
    requires k <= |nodes| && p in FlatItems(nodes, k, idx)
    ensures exists j | k <= j < |nodes| :: ItemAt(nodes, j) == Some(p.item) && p.position == idx + AdvancedBefore(nodes, k, j)
  {
    CollectOnly(ItemOf(nodes), StepOf(nodes), k, |nodes|, idx, p);
    var j :| k <= j < |nodes| && ItemOf(nodes)(j) == Some(p.item) && p.position == idx + Advanced(StepOf(nodes), k, j);
    ItemOfAt(nodes, j);
    assert ItemAt(nodes, j) == Some(p.item) && p.position == idx + AdvancedBefore(nodes, k, j);
  }

  /** The same two directions for the headers. */
  lemma {:induction false} FlatHeadersFromNodes(nodes: seq<Node>, k: nat, idx: nat, j: nat)
    requires k <= j < |nodes| && HeaderAt(nodes[j]).Some?
    ensures PendingHeader(HeaderAt(nodes[j]).value, idx + AdvancedBefore(nodes, k, j)) in FlatHeaders(nodes, k, idx)
    decreases j - k
  {
    var tail := FlatHeaders(nodes, k + 1, idx + Step(nodes[k]));
    assert FlatHeaders(nodes, k, idx) == HeaderRecord(nodes[k], idx) + tail;
    if k < j {
      FlatHeadersFromNodes(nodes, k + 1, idx + Step(nodes[k]), j);
      AdvancedBeforeStep(nodes, k, j);
    } else {
      assert HeaderRecord(nodes[k], idx) == [PendingHeader(HeaderAt(nodes[j]).value, idx)];
    }
  }

  lemma {:induction false} FlatHeadersOnlyFromNodes(nodes: seq<Node>, k: nat, idx: nat, h: PendingHeader)
    requires k <= |nodes| && h in FlatHeaders(nodes, k, idx)
    ensures exists j | k <= j < |nodes| :: HeaderAt(nodes[j]) == Some(h.text) && h.position == idx + AdvancedBefore(nodes, k, j)
    decreases |nodes| - k
  {
    var head := HeaderRecord(nodes[k], idx);
    if h in head {
      assert HeaderAt(nodes[k]) == Some(h.text) && h.position == idx + AdvancedBefore(nodes, k, k);
    } else {
      FlatHeadersOnlyFromNodes(nodes, k + 1, idx + Step(nodes[k]), h);
      var j :| k + 1 <= j < |nodes| && HeaderAt(nodes[j]) == Some(h.text)
        && h.position == idx + Step(nodes[k]) + AdvancedBefore(nodes, k + 1, j);
      assert HeaderAt(nodes[j]) == Some(h.text) && h.position == idx + AdvancedBefore(nodes, k, j);
    }
  }

  /** The groups of the flat layout, by position: group `g` holds the items recorded
      from the previous header's position (the start, for the first) up to its own
      header's position, and the last group everything from the previous header on. */
  lemma FlatGroupsByPosition(nodes: seq<Node>, g: nat)
    requires g < |FlatHeaders(nodes, 0, 0)|
    ensures g < |FlatHeaders(nodes, 0, 0)| - 1 ==>
      ParseFlatStructure(nodes)[g].children
        == Data(Between(FlatItems(nodes, 0, 0), Lo(FlatHeaders(nodes, 0, 0), g), FlatHeaders(nodes, 0, 0)[g].position))
    ensures g == |FlatHeaders(nodes, 0, 0)| - 1 ==>
      ParseFlatStructure(nodes)[g].children == Data(AtOrAbove(FlatItems(nodes, 0, 0), Lo(FlatHeaders(nodes, 0, 0), g)))
  {
    var st := ScanFlat(nodes, 0, ScanState(0, [], []));
    assert st.headers == FlatHeaders(nodes, 0, 0) && st.items == FlatItems(nodes, 0, 0);
    AssignGroups(st.headers, st.items, g);
  }

  /** Every item the nodes yield lands in a group, the groups' children one group after
      another are the recorded items in document order, and there is one group per header
      node, or a single default group when there is none. */
  lemma FlatKeepsEveryItem(nodes: seq<Node>)
    ensures AllChildren(ParseFlatStructure(nodes)) == Data(FlatItems(nodes, 0, 0))
    ensures |ParseFlatStructure(nodes)| == if FlatHeaders(nodes, 0, 0) == [] then 1 else |FlatHeaders(nodes, 0, 0)|
    ensures forall j | 0 <= j < |nodes| && ItemAt(nodes, j).Some? ::
      ItemAt(nodes, j).value in AllChildren(ParseFlatStructure(nodes))
  {
    var st := ScanFlat(nodes, 0, ScanState(0, [], []));
    assert st.headers == FlatHeaders(nodes, 0, 0) && st.items == FlatItems(nodes, 0, 0);
    if st.headers == [] {
      var g := [HeaderGroup(Some(DefaultGroupHeader), Data(st.items))];
      assert g[1..] == [];
      assert AllChildren(g) == Data(st.items) + [];
    } else {
      AssignKeepsAllItems(st.headers, st.items);
    }
    forall j | 0 <= j < |nodes| && ItemAt(nodes, j).Some?
      ensures ItemAt(nodes, j).value in AllChildren(ParseFlatStructure(nodes))
    {
      FlatItemRecorded(nodes, j);
    }
  }

  /** The item of node `j` is among the recorded items. */
  lemma FlatItemRecorded(nodes: seq<Node>, j: nat)
    requires j < |nodes| && ItemAt(nodes, j).Some?
    ensures ItemAt(nodes, j).value in Data(FlatItems(nodes, 0, 0))
  {
    FlatItemsFromNodes(nodes, 0, 0, j);
    InData(FlatItems(nodes, 0, 0), Placed(ItemAt(nodes, j).value, AdvancedBefore(nodes, 0, j)));
  }

  lemma InData(p: seq<Placed>, x: Placed)
    requires x in p
    ensures x.item in Data(p)
  {
    var a :| 0 <= a < |p| && p[a] == x;
    assert Data(p)[a] == x.item;
  }

  /** Header app items do not move the position counter; every other node does. */
  lemma FlatPositionCount(nodes: seq<Node>)
    ensures ScanFlat(nodes, 0, ScanState(0, [], [])).index == CountAdvancing(nodes, 0)
    ensures CountAdvancing(nodes, 0) == AdvancedBefore(nodes, 0, |nodes|)
  {
    CountIsAdvancedBefore(nodes, 0);
  }

  lemma {:induction false} CountIsAdvancedBefore(nodes: seq<Node>, k: nat)
    requires k <= |nodes|
    ensures CountAdvancing(nodes, k) == AdvancedBefore(nodes, k, |nodes|)
    decreases |nodes| - k
  {
    if k < |nodes| {
      CountIsAdvancedBefore(nodes, k + 1);
    }
  }

  /** With no header, the single group is "API Documentation". */
  lemma FlatWithoutHeaders(nodes: seq<Node>)
    requires forall j | 0 <= j < |nodes| :: HeaderAt(nodes[j]).None?
    ensures |ParseFlatStructure(nodes)| == 1
    ensures ParseFlatStructure(nodes)[0].headerText == Some(DefaultGroupHeader)
    ensures ParseFlatStructure(nodes)[0].children == Data(FlatItems(nodes, 0, 0))
  {
    if FlatHeaders(nodes, 0, 0) != [] {
      FlatHeadersOnlyFromNodes(nodes, 0, 0, FlatHeaders(nodes, 0, 0)[0]);
    }
  }
}
