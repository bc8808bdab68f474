/** The parser for the hierarchical layout: each header opens a group, and the items
    and menus that follow it belong to that group until the next header. */
module HierarchicalParser {
  import opened Wrappers
  import opened Text
  import opened Structure
  import opened MarkdownConverter
  import opened LinkResolver
  import opened HtmlCleaner
  import opened Seqs

  /** A child entry of a menu: a plain item with an id and no children. */
  predicate GoodChild(c: Item) {
    c.kind == "item" && !c.expandable && c.children == [] && Truthy(c.id)
  }

  /** An entry a group may hold: accepted by the entry filter, a menu exactly when
      expandable, and with well-formed children. */
  predicate GoodEntry(e: Item) {
    !ShouldSkipItem(e.text) && e.text != "" && e.kind != ""
    && (e.kind == "item" ==> Truthy(e.id))
    && (e.kind == "menu" <==> e.expandable)
    && (e.kind == "menu" || e.kind == "item")
    && forall c | 0 <= c < |e.children| :: GoodChild(e.children[c])
  }

  predicate GoodGroups(groups: seq<HeaderGroup>) {
    forall g, c | 0 <= g < |groups| && 0 <= c < |groups[g].children| :: GoodEntry(groups[g].children[c])
  }

  /** The header text of the app item a node holds, if the node is a header app item. */
  function HeaderOf(n: Node): (h: Option<string>)
    ensures h.Some? <==> IsHeaderNode(n)
  {
    if n.Tag? && n.name == AppItemTag then ExtractHeaderInfo(n.app) else None
  }

  /** The node is an app item holding a header `li`. */
  predicate IsHeaderNode(n: Node) {
    n.Tag? && n.name == AppItemTag && n.app.header.Some?
  }

  /** Reference definition: the header texts of `nodes[k..]`, in document order. */
  function HeaderTexts(nodes: seq<Node>, k: nat): seq<Option<string>>
    requires k <= |nodes|
    decreases |nodes| - k
  {
    if k == |nodes| then []
    else (if IsHeaderNode(nodes[k]) then [HeaderOf(nodes[k])] else []) + HeaderTexts(nodes, k + 1)
  }

  function GroupHeaders(groups: seq<HeaderGroup>): (hs: seq<Option<string>>)
    ensures |hs| == |groups|
    ensures forall g | 0 <= g < |groups| :: hs[g] == groups[g].headerText
  {
    seq(|groups|, g requires 0 <= g < |groups| => groups[g].headerText)
  }

  /** A group with further entries appended to its children. */
  function Extend(g: HeaderGroup, es: seq<Item>): HeaderGroup {
    g.(children := g.children + es)
  }

  /** The entry the node at `j` adds to the open group: the accepted entry of an app
      item that is not a header, nothing for any other node. */
  function EntryAt(nodes: seq<Node>, j: nat): Option<Item>
    requires j < |nodes|
  {
    if nodes[j].Tag? && nodes[j].name == AppItemTag && !IsHeaderNode(nodes[j]) then ProcessClickableItem(nodes, j)
    else None
  }

  /** What the node at `j` adds to the open group, nothing past the end. */
  function EntryFn(nodes: seq<Node>): nat -> Option<Item> {
    (j: nat) => if j < |nodes| then EntryAt(nodes, j) else None
  }

  /** What each of `nodes[k..]` adds to the open group, in order. */
  function EntriesFrom(nodes: seq<Node>, k: nat): (r: seq<Option<Item>>)
    requires k <= |nodes|
    ensures |r| == |nodes| - k
  {
    Table(EntryFn(nodes), k, |nodes|)
  }

  lemma EntriesFromAt(nodes: seq<Node>, k: nat, j: nat)
    requires k <= j < |nodes|
    ensures EntriesFrom(nodes, k)[j - k] == EntryAt(nodes, j)
  {
    TableAt(EntryFn(nodes), k, |nodes|, j);
  }

  /** The entry of node `j` as a list of at most one element. */
  function EntryRecord(nodes: seq<Node>, j: nat): seq<Item>
    requires j < |nodes|
  {
    match EntriesFrom(nodes, 0)[j] case Some(e) => [e] case None => []
  }

  lemma EntryRecordAt(nodes: seq<Node>, j: nat)
    requires j < |nodes|
    ensures EntryRecord(nodes, j) == match EntryAt(nodes, j) case Some(e) => [e] case None => []
  {
    EntriesFromAt(nodes, 0, j);
  }

  /** The header text of the node at `j`, none past the end. */
  function HeaderFn(nodes: seq<Node>): nat -> Option<string> {
    (j: nat) => if j < |nodes| then HeaderOf(nodes[j]) else None
  }

  /** The texts of the header app items among `nodes[k..]`, position by position. */
  function HeadersFrom(nodes: seq<Node>, k: nat): (r: seq<Option<string>>)
    requires k <= |nodes|
    ensures |r| == |nodes| - k
  {
    Table(HeaderFn(nodes), k, |nodes|)
  }

  lemma HeadersFromAt(nodes: seq<Node>, k: nat, j: nat)
    requires k <= j < |nodes|
    ensures HeadersFrom(nodes, k)[j - k] == HeaderOf(nodes[j])
  {
    TableAt(HeaderFn(nodes), k, |nodes|, j);
  }

  /** Node `j`'s header text, none past the end. */
  function HeaderOfAt(nodes: seq<Node>): nat -> Option<string> {
    (j: nat) => if j < |nodes| then HeadersFrom(nodes, 0)[j] else None
  }

  /** Node `j`'s entry as a list of at most one element, none past the end. */
  function EntryOfAt(nodes: seq<Node>): nat -> seq<Item> {
    (j: nat) => if j < |nodes| then EntryRecord(nodes, j) else []
  }

  /** The walk `Walk` performs over the positions `k` to `n - 1`, where position `j` is
      a header with text `hdr(j)` when that is present and otherwise contributes the
      entries `ent(j)` to the open group. */
  function WalkWith(hdr: nat -> Option<string>, ent: nat -> seq<Item>, k: nat, n: nat, groups: seq<HeaderGroup>)
    : seq<HeaderGroup>
    decreases n - k
  {
    if n <= k then groups else WalkWith(hdr, ent, k + 1, n, StepWith(hdr(k), ent(k), groups))
  }

  /** A header opens a new, empty group; anything else extends the open group, and is
      dropped while there is none. */
  function StepWith(h: Option<string>, es: seq<Item>, groups: seq<HeaderGroup>): seq<HeaderGroup> {
    if h.Some? then groups + [HeaderGroup(h, [])]
    else if groups == [] then []
    else groups[..|groups| - 1] + [Extend(groups[|groups| - 1], es)]
  }

  /** The first header position at or after `k`, or `n` when there is none. */
  function NextOpen(hdr: nat -> Option<string>, k: nat, n: nat): (m: nat)
    ensures k <= m && (k <= n ==> m <= n)
    ensures m < n ==> hdr(m).Some?
    ensures forall j | k <= j < m :: hdr(j).None?
    decreases n - k
  {
    if k >= n || hdr(k).Some? then k else NextOpen(hdr, k + 1, n)
  }

  /** The header positions from `k` to `n - 1`, in increasing order. */
  function Opens(hdr: nat -> Option<string>, k: nat, n: nat): (hp: seq<nat>)
    requires k <= n
    decreases n - k
  {
    var m := NextOpen(hdr, k, n);
    if m == n then [] else [m] + Opens(hdr, m + 1, n)
  }

  /** The entries of the positions `lo` to `hi - 1`, in order. */
  function Gather(ent: nat -> seq<Item>, lo: nat, hi: nat): seq<Item>
    decreases hi - lo
  {
    if hi <= lo then [] else ent(lo) + Gather(ent, lo + 1, hi)
  }

  /** The group the header at position `j` opens: its text, and the entries of the
      positions after it up to the next header. */
  function GroupWith(hdr: nat -> Option<string>, ent: nat -> seq<Item>, j: nat, n: nat): HeaderGroup
  {
    HeaderGroup(hdr(j), Gather(ent, j + 1, NextOpen(hdr, j + 1, n)))
  }

  /** Reference definition: the positions of the header app items, in document order. */
  function HeaderPositions(nodes: seq<Node>): seq<nat> {
    Opens(HeaderOfAt(nodes), 0, |nodes|)
  }

  /** Reference definition: the accepted entries of the app items `nodes[lo..hi]` that
      are not headers, in document order. */
  function Entries(nodes: seq<Node>, lo: nat, hi: nat): seq<Item> {
    Gather(EntryOfAt(nodes), lo, hi)
  }

  /** Walks the root's child nodes; only app items matter, a stray `ul` is only
      reported. */
  function ParseHierarchicalStructure(nodes: seq<Node>): seq<HeaderGroup> {
    Walk(nodes, 0, [])
  }

  /** Every group holds only entries the entry filter accepts, each a menu exactly when
      expandable and with well-formed children. */
  lemma ParsedGroupsGood(nodes: seq<Node>)
    ensures GoodGroups(ParseHierarchicalStructure(nodes))
  {
    WalkKeepsGood(nodes, 0, []);
  }

  /** The groups' header texts are the header app items' texts, in document order. */
  lemma HeadersInOrder(nodes: seq<Node>)
    ensures GroupHeaders(ParseHierarchicalStructure(nodes)) == HeaderTexts(nodes, 0)
  {
    WalkHeaders(nodes, 0, []);
  }

  function Walk(nodes: seq<Node>, k: nat, groups: seq<HeaderGroup>): seq<HeaderGroup>
    requires k <= |nodes|
    decreases |nodes| - k
  {
    if k == |nodes| then groups else Walk(nodes, k + 1, Step(nodes, k, groups))
  }

  lemma {:induction false} WalkKeepsGood(nodes: seq<Node>, k: nat, groups: seq<HeaderGroup>)
    requires k <= |nodes| && GoodGroups(groups)
    ensures GoodGroups(Walk(nodes, k, groups))
    decreases |nodes| - k
  {
    if k < |nodes| {
      var next := Step(nodes, k, groups);
      StepKeepsGood(nodes, k, groups);
      WalkKeepsGood(nodes, k + 1, next);
      assert Walk(nodes, k, groups) == Walk(nodes, k + 1, next);
    }
  }

  /** Walking the remaining nodes appends one group per header met, in order. */
  lemma {:induction false} WalkHeaders(nodes: seq<Node>, k: nat, groups: seq<HeaderGroup>)
    requires k <= |nodes|
    ensures GroupHeaders(Walk(nodes, k, groups)) == GroupHeaders(groups) + HeaderTexts(nodes, k)
    decreases |nodes| - k
  {
    if k == |nodes| {
      assert GroupHeaders(groups) + [] == GroupHeaders(groups);
    } else {
      var next := Step(nodes, k, groups);
      StepHeaders(nodes, k, groups);
      WalkHeaders(nodes, k + 1, next);
      HeaderTextsStep(nodes, k, GroupHeaders(groups));
      assert Walk(nodes, k, groups) == Walk(nodes, k + 1, next);
      assert GroupHeaders(Walk(nodes, k + 1, next)) == GroupHeaders(next) + HeaderTexts(nodes, k + 1);
    }
  }

  /** One node of the walk: only app items change the groups. */
  function Step(nodes: seq<Node>, k: nat, groups: seq<HeaderGroup>): (next: seq<HeaderGroup>)
    requires k < |nodes|
    ensures !IsHeaderNode(nodes[k]) && groups == [] ==> next == []
  {
    if nodes[k].Tag? && nodes[k].name == AppItemTag then ProcessAppItem(nodes, k, groups) else groups
  }

  /** A node adds a group exactly when it is a header app item, and leaves the earlier
      groups' headers as they are. */
  lemma StepHeaders(nodes: seq<Node>, k: nat, groups: seq<HeaderGroup>)
    requires k < |nodes|
    ensures GroupHeaders(Step(nodes, k, groups))
      == GroupHeaders(groups) + (if IsHeaderNode(nodes[k]) then [HeaderOf(nodes[k])] else [])
  {
    var next := Step(nodes, k, groups);
    StepEffect(nodes, k, groups);
    if IsHeaderNode(nodes[k]) {
      assert GroupHeaders(next) == GroupHeaders(groups) + [HeaderOf(nodes[k])];
    } else if groups != [] {
      assert GroupHeaders(next) == GroupHeaders(groups) + [];
    }
  }

  /** One node's effect on the groups: a header app item opens a new, empty group at the
      end; any other node adds its accepted entry, if any, to the open group. */
  lemma StepEffect(nodes: seq<Node>, k: nat, groups: seq<HeaderGroup>)
    requires k < |nodes|
    ensures IsHeaderNode(nodes[k]) ==> Step(nodes, k, groups) == groups + [HeaderGroup(HeaderOf(nodes[k]), [])]
    ensures !IsHeaderNode(nodes[k]) && groups != [] ==>
      Step(nodes, k, groups) == groups[..|groups| - 1] + [Extend(groups[|groups| - 1], EntryRecord(nodes, k))]
  {
    EntryRecordAt(nodes, k);
    if nodes[k].Tag? && nodes[k].name == AppItemTag {
      ProcessAppItemEffect(nodes, k, groups);
    }
    if groups != [] {
      ExtendByNothing(groups);
    }
  }

  /** A node keeps every group well-formed. */
  lemma StepKeepsGood(nodes: seq<Node>, k: nat, groups: seq<HeaderGroup>)
    requires k < |nodes| && GoodGroups(groups)
    ensures GoodGroups(Step(nodes, k, groups))
  {
    if nodes[k].Tag? && nodes[k].name == AppItemTag {
      ProcessAppItemEffect(nodes, k, groups);
      if IsHeaderNode(nodes[k]) {
        OpenKeepsGood(groups, HeaderOf(nodes[k]));
      } else if groups != [] {
        ClickableGood(nodes, k);
        var e := ProcessClickableItem(nodes, k);
        if e.Some? {
          AddToLastKeepsGood(groups, e.value);
        }
      }
    }
  }

  lemma OpenKeepsGood(groups: seq<HeaderGroup>, h: Option<string>)
    requires GoodGroups(groups)
    ensures GoodGroups(groups + [HeaderGroup(h, [])])
  {
    var out := groups + [HeaderGroup(h, [])];
    forall g, c | 0 <= g < |out| && 0 <= c < |out[g].children|
      ensures GoodEntry(out[g].children[c])
    {
      assert out[g] == groups[g];
    }
  }

  lemma ExtendByNothing(groups: seq<HeaderGroup>)
    requires groups != []
    ensures groups == groups[..|groups| - 1] + [Extend(groups[|groups| - 1], [])]
  {
    var n := |groups| - 1;
    assert groups[n].children + [] == groups[n].children;
    assert groups == groups[..n] + [groups[n]];
  }

  lemma HeaderTextsStep(nodes: seq<Node>, k: nat, before: seq<Option<string>>)
    requires k < |nodes|
    ensures before + (if IsHeaderNode(nodes[k]) then [HeaderOf(nodes[k])] else []) + HeaderTexts(nodes, k + 1)
      == before + HeaderTexts(nodes, k)
  {
  }

  /** A header appends a new, empty group; any other app item is added to the most
      recent group if it is accepted, and dropped when no group exists yet. */
  function ProcessAppItem(nodes: seq<Node>, k: nat, groups: seq<HeaderGroup>): (out: seq<HeaderGroup>)
    requires k < |nodes| && nodes[k].Tag? && nodes[k].name == AppItemTag
    ensures !IsHeaderNode(nodes[k]) && groups == [] ==> out == []
  {
    match ExtractHeaderInfo(nodes[k].app)
    case Some(h) => groups + [HeaderGroup(Some(h), [])]
    case None =>
      if groups == [] then groups
      else match ProcessClickableItem(nodes, k)
        case None => groups
        case Some(e) => AddToLast(groups, e)
  }

  /** A header opens a new, empty group at the end; any other app item appends its
      accepted entry to the most recent group and changes nothing else. */
  lemma ProcessAppItemEffect(nodes: seq<Node>, k: nat, groups: seq<HeaderGroup>)
    requires k < |nodes| && nodes[k].Tag? && nodes[k].name == AppItemTag
    ensures IsHeaderNode(nodes[k]) ==> ProcessAppItem(nodes, k, groups) == groups + [HeaderGroup(HeaderOf(nodes[k]), [])]
    ensures !IsHeaderNode(nodes[k]) && groups != [] ==>
      ProcessAppItem(nodes, k, groups) == match ProcessClickableItem(nodes, k) case Some(e) => AddToLast(groups, e) case None => groups
  {
  }

  /** The groups with `e` appended to the children of the last one. */
  function AddToLast(groups: seq<HeaderGroup>, e: Item): (out: seq<HeaderGroup>)
    requires groups != []
    ensures |out| == |groups|
    ensures forall g | 0 <= g < |groups| - 1 :: out[g] == groups[g]
    ensures out[|groups| - 1].headerText == groups[|groups| - 1].headerText
    ensures out[|groups| - 1].children == groups[|groups| - 1].children + [e]
    ensures out == groups[..|groups| - 1] + [Extend(groups[|groups| - 1], [e])]
  {
    var last := groups[|groups| - 1];
    groups[..|groups| - 1] + [last.(children := last.children + [e])]
  }

  lemma AddToLastKeepsGood(groups: seq<HeaderGroup>, e: Item)
    requires groups != [] && GoodGroups(groups) && GoodEntry(e)
    ensures GoodGroups(AddToLast(groups, e))
    ensures GroupHeaders(AddToLast(groups, e)) == GroupHeaders(groups)
  {
    var out := AddToLast(groups, e);
    var n := |groups| - 1;
    forall g, c | 0 <= g < |out| && 0 <= c < |out[g].children|
      ensures GoodEntry(out[g].children[c])
    {
      if g < n {
        assert out[g] == groups[g];
      } else if c < |groups[n].children| {
        assert out[g].children[c] == groups[n].children[c];
      } else {
        assert out[g].children[c] == e;
      }
    }
  }

  /** The entry for the clickable element of the app item at `nodes[k]`, if it has one
      and the entry filter accepts it. */
  function ProcessClickableItem(nodes: seq<Node>, k: nat): (e: Option<Item>)
    requires k < |nodes| && nodes[k].Tag?
    ensures nodes[k].app.clickable.None? ==> e.None?
  {
    match nodes[k].app.clickable
    case None => None
    case Some(li) =>
      var entry := Candidate(nodes, k);
      if ShouldAddEntry(entry) then Some(entry) else None
  }

  /** An app item with a clickable element yields the entry built for it exactly when
      the entry filter accepts that entry. */
  lemma ClickableAccepted(nodes: seq<Node>, k: nat)
    requires k < |nodes| && nodes[k].Tag? && nodes[k].app.clickable.Some?
    ensures ProcessClickableItem(nodes, k).Some? <==> ShouldAddEntry(Candidate(nodes, k))
    ensures ProcessClickableItem(nodes, k).Some? ==> ProcessClickableItem(nodes, k).value == Candidate(nodes, k)
  {
  }

  /** Any entry produced passes the entry filter and is well-formed. */
  lemma ClickableGood(nodes: seq<Node>, k: nat)
    requires k < |nodes| && nodes[k].Tag?
    ensures ProcessClickableItem(nodes, k).Some? ==>
      GoodEntry(ProcessClickableItem(nodes, k).value) && ShouldAddEntry(ProcessClickableItem(nodes, k).value)
  {
    if nodes[k].app.clickable.Some? {
      CandidateShape(nodes, k);
    }
  }

  /** The entry built for the clickable element of `nodes[k]` before the entry filter:
      a menu exactly when the element is expandable, with the element's id and the text
      extracted for its kind. */
  function Candidate(nodes: seq<Node>, k: nat): Item
    requires k < |nodes| && nodes[k].Tag? && nodes[k].app.clickable.Some?
  {
    var li := nodes[k].app.clickable.value;
    if IsExpandableElement(li) then MenuEntry(nodes, k, li) else ItemEntry(li)
  }

  lemma CandidateShape(nodes: seq<Node>, k: nat)
    requires k < |nodes| && nodes[k].Tag? && nodes[k].app.clickable.Some?
    ensures var e, li := Candidate(nodes, k), nodes[k].app.clickable.value;
      (e.expandable <==> IsExpandableElement(li)) && (e.kind == "menu" <==> e.expandable)
      && e.id == li.id && e.text == ExtractItemText(li, e.expandable)
      && forall c | 0 <= c < |e.children| :: GoodChild(e.children[c])
  {
  }

  /** A menu: expandable, its own id, and the children from the `ul` that follows it. */
  function MenuEntry(nodes: seq<Node>, k: nat, li: ClickableLi): (e: Item)
    requires k < |nodes|
    ensures e.kind == "menu" && e.expandable && e.id == li.id
    ensures e.text == ExtractItemText(li, true)
    ensures forall c | 0 <= c < |e.children| :: GoodChild(e.children[c])
  {
    var children := match FindMenuChildren(nodes, k)
      case None => []
      case Some(kids) => ChildItems(kids, 0);
    Item(li.id, ExtractItemText(li, true), "menu", true, children)
  }

  /** A plain item: not expandable and without children. */
  function ItemEntry(li: ClickableLi): (e: Item)
    ensures e.kind == "item" && !e.expandable && e.children == [] && e.id == li.id
    ensures e.text == ExtractItemText(li, false)
  {
    Item(li.id, ExtractItemText(li, false), "item", false, [])
  }

  /** The accepted children among the app items of a menu's `ul`. */
  function ChildItems(kids: seq<Node>, c: nat): (children: seq<Item>)
    requires c <= |kids|
    ensures forall j | 0 <= j < |children| :: GoodChild(children[j])
    ensures |children| <= |kids| - c
    decreases |kids| - c
  {
    if c == |kids| then []
    else
      var rest := ChildItems(kids, c + 1);
      if kids[c].Tag? && kids[c].name == AppItemTag then
        match ProcessChildItem(kids[c].app)
        case Some(child) => [child] + rest
        case None => rest
      else rest
  }

  /** A menu's children are, in order, the children its `ul`'s nodes contribute. */
  lemma {:induction false} ChildItemsInOrder(kids: seq<Node>, c: nat)
    requires c <= |kids|
    ensures ChildItems(kids, c) == Somes(Map(kids[c..], ChildOf))
    decreases |kids| - c
  {
    if c < |kids| {
      MapFrom(kids, c, ChildOf);
      ChildItemsInOrder(kids, c + 1);
    }
  }

  /** The child an app item of a menu's `ul` contributes, if any. */
  function ChildOf(n: Node): Option<Item> {
    if n.Tag? && n.name == AppItemTag then ProcessChildItem(n.app) else None
  }

  /** A child is kept when its text is usable and it has both a text and an id. */
  function ProcessChildItem(app: AppItem): (child: Option<Item>)
    ensures child.Some? ==> GoodChild(child.value)
    ensures child.Some? ==> (app.clickable.Some? &&
      var li := app.clickable.value;
      var t := ExtractChildText(li);
      !ShouldSkipItem(t) && t != "" && Truthy(li.id) && child.value == CreateChildEntry(t, li.id.value))
    ensures app.clickable.None? ==> child.None?
  {
    match app.clickable
    case None => None
    case Some(li) =>
      var text := ExtractChildText(li);
      if ShouldSkipItem(text) then None
      else if text != "" && Truthy(li.id) then Some(CreateChildEntry(text, li.id.value))
      else None
  }

  /** An entry is added unless its text is to be skipped, it is an item without id,
      or its text or type is empty. */
  function ShouldAddEntry(e: Item): (add: bool)
    ensures add <==> (!ShouldSkipItem(e.text) && !(e.kind == "item" && !Truthy(e.id))
                      && e.text != "" && e.kind != "")
  {
    if ShouldSkipItem(e.text) then false
    else if !ValidateIdRequirement(e.id, e.kind, e.text) then false
    else if e.text == "" || e.kind == "" then false
    else true
  }

  /** App items before the first header are dropped: walking past them from an empty
      group list leaves it empty. */
  lemma ItemsBeforeFirstHeaderDropped(nodes: seq<Node>, k: nat, j: nat)
    requires k <= j <= |nodes|
    requires forall m | k <= m < j :: !IsHeaderNode(nodes[m])
    ensures Walk(nodes, k, []) == Walk(nodes, j, [])
  {
    var hdr, ent := HeaderOfAt(nodes), EntryOfAt(nodes);
    NoHeadersAt(nodes, k, j);
    WalkIsWalkWith(nodes, k, []);
    WalkIsWalkWith(nodes, j, []);
    WalkWithNoHeaders(hdr, ent, k, j, |nodes|);
    assert Walk(nodes, k, []) == WalkWith(hdr, ent, k, |nodes|, []);
    assert Walk(nodes, j, []) == WalkWith(hdr, ent, j, |nodes|, []);
  }

  lemma NoHeadersAt(nodes: seq<Node>, k: nat, j: nat)
    requires k <= j <= |nodes|
    requires forall m | k <= m < j :: !IsHeaderNode(nodes[m])
    ensures forall m | k <= m < j :: HeaderOfAt(nodes)(m).None?
  {
    forall m | k <= m < j
      ensures HeaderOfAt(nodes)(m).None?
    {
      HeadersFromAt(nodes, 0, m);
    }
  }

  /** Without a header, a walk that starts with no group keeps none. */
  lemma {:induction false} WalkWithNoHeaders(hdr: nat -> Option<string>, ent: nat -> seq<Item>, k: nat, j: nat, n: nat)
    requires k <= j <= n
    requires forall m | k <= m < j :: hdr(m).None?
    ensures WalkWith(hdr, ent, k, n, []) == WalkWith(hdr, ent, j, n, [])
    decreases j - k
  {
    if k < j {
      assert StepWith(hdr(k), ent(k), []) == [];
      WalkWithNoHeaders(hdr, ent, k + 1, j, n);
    }
  }

  /** One group per header, in document order. */
  lemma OneGroupPerHeader(nodes: seq<Node>)
    ensures |ParseHierarchicalStructure(nodes)| == |HeaderTexts(nodes, 0)|
  {
    HeadersInOrder(nodes);
  }

  lemma OpensStep(hdr: nat -> Option<string>, k: nat, n: nat)
    requires k < n
    ensures hdr(k).Some? ==> Opens(hdr, k, n) == [k] + Opens(hdr, k + 1, n)
    ensures hdr(k).None? ==> Opens(hdr, k, n) == Opens(hdr, k + 1, n)
  {
  }

  /** The walk from position `k` adds one group per header. */
  lemma {:induction false} WalkWithLength(hdr: nat -> Option<string>, ent: nat -> seq<Item>, k: nat, n: nat,
                                          groups: seq<HeaderGroup>)
    requires k <= n
    ensures |WalkWith(hdr, ent, k, n, groups)| == |groups| + |Opens(hdr, k, n)|
    decreases n - k
  {
    if k < n {
      var next := StepWith(hdr(k), ent(k), groups);
      WalkWithLength(hdr, ent, k + 1, n, next);
      OpensStep(hdr, k, n);
    }
  }

  /** The groups before the open one stay as they are. */
  lemma {:induction false} WalkWithKeeps(hdr: nat -> Option<string>, ent: nat -> seq<Item>, k: nat, n: nat,
                                         groups: seq<HeaderGroup>)
    requires k <= n
    ensures |WalkWith(hdr, ent, k, n, groups)| >= |groups|
    ensures forall g | 0 <= g < |groups| - 1 :: WalkWith(hdr, ent, k, n, groups)[g] == groups[g]
    decreases n - k
  {
    if k < n {
      var next := StepWith(hdr(k), ent(k), groups);
      WalkWithKeeps(hdr, ent, k + 1, n, next);
      assert |next| >= |groups|;
      assert forall g | 0 <= g < |groups| - 1 :: next[g] == groups[g];
    }
  }

  /** The open group receives the entries up to the next header. */
  lemma {:induction false} WalkWithOpen(hdr: nat -> Option<string>, ent: nat -> seq<Item>, k: nat, n: nat,
                                        groups: seq<HeaderGroup>)
    requires k <= n && groups != []
    ensures |WalkWith(hdr, ent, k, n, groups)| >= |groups|
    ensures WalkWith(hdr, ent, k, n, groups)[|groups| - 1]
      == Extend(groups[|groups| - 1], Gather(ent, k, NextOpen(hdr, k, n)))
    decreases n - k
  {
    var c := |groups|;
    var last := groups[c - 1];
    if k == n {
      assert last.children + [] == last.children;
    } else {
      var next := StepWith(hdr(k), ent(k), groups);
      if hdr(k).Some? {
        WalkWithKeeps(hdr, ent, k + 1, n, next);
        assert WalkWith(hdr, ent, k, n, groups)[c - 1] == next[c - 1];
        assert last.children + [] == last.children;
      } else {
        WalkWithOpen(hdr, ent, k + 1, n, next);
        var m := NextOpen(hdr, k, n);
        assert next[c - 1] == Extend(last, ent(k));
        AppendAssoc(last.children, ent(k), Gather(ent, k + 1, m));
      }
    }
  }

  /** The groups the walk from position `k` opens after the given ones. */
  predicate OpensGroups(hdr: nat -> Option<string>, ent: nat -> seq<Item>, k: nat, n: nat, groups: seq<HeaderGroup>)
    requires k <= n
  {
    |WalkWith(hdr, ent, k, n, groups)| == |groups| + |Opens(hdr, k, n)|
    && forall i | 0 <= i < |Opens(hdr, k, n)| ::
      WalkWith(hdr, ent, k, n, groups)[|groups| + i] == GroupWith(hdr, ent, Opens(hdr, k, n)[i], n)
  }

  /** Every header from position `k` on opens one group, in order, holding the entries
      that follow it up to the next header. */
  lemma {:induction false} WalkWithGroups(hdr: nat -> Option<string>, ent: nat -> seq<Item>, k: nat, n: nat,
                                          groups: seq<HeaderGroup>)
    requires k <= n
    ensures |WalkWith(hdr, ent, k, n, groups)| == |groups| + |Opens(hdr, k, n)|
    ensures forall i | 0 <= i < |Opens(hdr, k, n)| ::
      WalkWith(hdr, ent, k, n, groups)[|groups| + i] == GroupWith(hdr, ent, Opens(hdr, k, n)[i], n)
    decreases n - k
  {
    WalkWithLength(hdr, ent, k, n, groups);
    if k == n {
      assert Opens(hdr, k, n) == [];
    } else {
      var next := StepWith(hdr(k), ent(k), groups);
      WalkWithGroups(hdr, ent, k + 1, n, next);
      GroupsStep(hdr, ent, k, n, groups);
    }
  }

  /** One step of `WalkWithGroups`: from the groups opened after position `k`, those
      opened from `k` on. */
  lemma GroupsStep(hdr: nat -> Option<string>, ent: nat -> seq<Item>, k: nat, n: nat, groups: seq<HeaderGroup>)
    requires k < n
    requires OpensGroups(hdr, ent, k + 1, n, StepWith(hdr(k), ent(k), groups))
    ensures OpensGroups(hdr, ent, k, n, groups)
  {
    if hdr(k).Some? {
      GroupsStepHeader(hdr, ent, k, n, groups);
    } else {
      GroupsStepPlain(hdr, ent, k, n, groups);
    }
  }

  /** `GroupsStep` at a header: the header opens the first of the groups. */
  lemma GroupsStepHeader(hdr: nat -> Option<string>, ent: nat -> seq<Item>, k: nat, n: nat,
                         groups: seq<HeaderGroup>)
    requires k < n && hdr(k).Some?
    requires OpensGroups(hdr, ent, k + 1, n, StepWith(hdr(k), ent(k), groups))
    ensures OpensGroups(hdr, ent, k, n, groups)
  {
    OpensStep(hdr, k, n);
    HeaderOpensGroup(hdr, ent, k, n, groups);
    LaterGroups(hdr, ent, k, n, groups);
  }

  /** After a header's own group come the groups opened after it. */
  lemma LaterGroups(hdr: nat -> Option<string>, ent: nat -> seq<Item>, k: nat, n: nat, groups: seq<HeaderGroup>)
    requires k < n && hdr(k).Some?
    requires OpensGroups(hdr, ent, k + 1, n, StepWith(hdr(k), ent(k), groups))
    ensures |WalkWith(hdr, ent, k, n, groups)| == |groups| + |Opens(hdr, k, n)|
    ensures forall i | 0 < i < |Opens(hdr, k, n)| ::
      WalkWith(hdr, ent, k, n, groups)[|groups| + i] == GroupWith(hdr, ent, Opens(hdr, k, n)[i], n)
  {
    OpensStep(hdr, k, n);
    forall i | 0 < i < |Opens(hdr, k, n)|
      ensures WalkWith(hdr, ent, k, n, groups)[|groups| + i] == GroupWith(hdr, ent, Opens(hdr, k, n)[i], n)
    {
      LaterGroup(hdr, ent, k, n, groups, i);
    }
  }

  lemma LaterGroup(hdr: nat -> Option<string>, ent: nat -> seq<Item>, k: nat, n: nat, groups: seq<HeaderGroup>, i: nat)
    requires k < n && hdr(k).Some?
    requires OpensGroups(hdr, ent, k + 1, n, StepWith(hdr(k), ent(k), groups))
    requires 0 < i < |Opens(hdr, k, n)|
    ensures |WalkWith(hdr, ent, k, n, groups)| == |groups| + |Opens(hdr, k, n)|
    ensures WalkWith(hdr, ent, k, n, groups)[|groups| + i] == GroupWith(hdr, ent, Opens(hdr, k, n)[i], n)
  {
    var next := StepWith(hdr(k), ent(k), groups);
    OpensStep(hdr, k, n);
    assert Opens(hdr, k, n)[i] == Opens(hdr, k + 1, n)[i - 1];
    assert WalkWith(hdr, ent, k, n, groups)[|groups| + i] == WalkWith(hdr, ent, k + 1, n, next)[|next| + (i - 1)];
  }

  /** A header opens a group right after the given ones, holding the entries up to the
      next header. */
  lemma HeaderOpensGroup(hdr: nat -> Option<string>, ent: nat -> seq<Item>, k: nat, n: nat,
                         groups: seq<HeaderGroup>)
    requires k < n && hdr(k).Some?
    ensures |WalkWith(hdr, ent, k, n, groups)| > |groups|
    ensures WalkWith(hdr, ent, k, n, groups)[|groups|] == GroupWith(hdr, ent, k, n)
  {
    var next := StepWith(hdr(k), ent(k), groups);
    assert |next| == |groups| + 1;
    WalkWithOpen(hdr, ent, k + 1, n, next);
    var rest := Gather(ent, k + 1, NextOpen(hdr, k + 1, n));
    assert [] + rest == rest;
  }

  /** `GroupsStep` elsewhere: the groups opened are those opened after `k`. */
  lemma GroupsStepPlain(hdr: nat -> Option<string>, ent: nat -> seq<Item>, k: nat, n: nat,
                        groups: seq<HeaderGroup>)
    requires k < n && hdr(k).None?
    requires OpensGroups(hdr, ent, k + 1, n, StepWith(hdr(k), ent(k), groups))
    ensures OpensGroups(hdr, ent, k, n, groups)
  {
    var out := WalkWith(hdr, ent, k, n, groups);
    var next := StepWith(hdr(k), ent(k), groups);
    assert out == WalkWith(hdr, ent, k + 1, n, next);
    OpensStep(hdr, k, n);
    assert |next| == |groups|;
  }

  /** Each header's group ends where the next header starts, the last at the end. */
  lemma {:induction false} OpensChain(hdr: nat -> Option<string>, k: nat, n: nat, g: nat)
    requires k <= n && g < |Opens(hdr, k, n)|
    ensures NextOpen(hdr, Opens(hdr, k, n)[g] + 1, n)
      == if g + 1 < |Opens(hdr, k, n)| then Opens(hdr, k, n)[g + 1] else n
    decreases n - k
  {
    if g == 0 {
      OpensChainFirst(hdr, k, n);
    } else {
      var m := NextOpen(hdr, k, n);
      OpensFirst(hdr, k, n);
      OpensChain(hdr, m + 1, n, g - 1);
      OpensShift(hdr, k, n, g - 1);
      if g + 1 < |Opens(hdr, k, n)| {
        OpensShift(hdr, k, n, g);
      }
    }
  }

  lemma OpensChainFirst(hdr: nat -> Option<string>, k: nat, n: nat)
    requires k <= n && 0 < |Opens(hdr, k, n)|
    ensures NextOpen(hdr, Opens(hdr, k, n)[0] + 1, n)
      == if 1 < |Opens(hdr, k, n)| then Opens(hdr, k, n)[1] else n
  {
    var m := NextOpen(hdr, k, n);
    OpensFirst(hdr, k, n);
    OpensFirst(hdr, m + 1, n);
    if 1 < |Opens(hdr, k, n)| {
      OpensShift(hdr, k, n, 0);
    }
  }

  /** Every listed position lies in the range and holds a header. */
  lemma {:induction false} OpensAt(hdr: nat -> Option<string>, k: nat, n: nat, i: nat)
    requires k <= n && i < |Opens(hdr, k, n)|
    ensures k <= Opens(hdr, k, n)[i] < n && hdr(Opens(hdr, k, n)[i]).Some?
    decreases n - k
  {
    var m := NextOpen(hdr, k, n);
    OpensFirst(hdr, k, n);
    if i > 0 {
      OpensAt(hdr, m + 1, n, i - 1);
      OpensShift(hdr, k, n, i - 1);
    }
  }

  /** The first header position from `k` on comes first; the list is empty when there
      is none. */
  lemma OpensFirst(hdr: nat -> Option<string>, k: nat, n: nat)
    requires k <= n
    ensures NextOpen(hdr, k, n) == n <==> |Opens(hdr, k, n)| == 0
    ensures NextOpen(hdr, k, n) < n ==>
      |Opens(hdr, k, n)| == 1 + |Opens(hdr, NextOpen(hdr, k, n) + 1, n)| && Opens(hdr, k, n)[0] == NextOpen(hdr, k, n)
  {
  }

  /** After the first come the positions after it. */
  lemma OpensShift(hdr: nat -> Option<string>, k: nat, n: nat, i: nat)
    requires k <= n && NextOpen(hdr, k, n) < n
    requires i < |Opens(hdr, NextOpen(hdr, k, n) + 1, n)|
    ensures |Opens(hdr, k, n)| == 1 + |Opens(hdr, NextOpen(hdr, k, n) + 1, n)|
    ensures Opens(hdr, k, n)[i + 1] == Opens(hdr, NextOpen(hdr, k, n) + 1, n)[i]
  {
  }

  /** Every header position is listed. */
  lemma {:induction false} OpensComplete(hdr: nat -> Option<string>, k: nat, n: nat, j: nat)
    requires k <= j < n && hdr(j).Some?
    ensures j in Opens(hdr, k, n)
    decreases n - k
  {
    var m := NextOpen(hdr, k, n);
    assert Opens(hdr, k, n) == [m] + Opens(hdr, m + 1, n);
    if m < j {
      OpensComplete(hdr, m + 1, n, j);
    }
  }

  /** Every entry of a position in the range is gathered. */
  lemma {:induction false} GatherFrom(ent: nat -> seq<Item>, lo: nat, hi: nat, j: nat, x: Item)
    requires lo <= j < hi && x in ent(j)
    ensures x in Gather(ent, lo, hi)
    decreases j - lo
  {
    if lo < j {
      GatherFrom(ent, lo + 1, hi, j, x);
    }
  }

  /** Nothing else is gathered. */
  lemma {:induction false} GatherOnly(ent: nat -> seq<Item>, lo: nat, hi: nat, x: Item)
    requires x in Gather(ent, lo, hi)
    ensures exists j | lo <= j < hi :: x in ent(j)
    decreases hi - lo
  {
    if x !in ent(lo) {
      GatherOnly(ent, lo + 1, hi, x);
      var j :| lo + 1 <= j < hi && x in ent(j);
      assert lo <= j < hi && x in ent(j);
    }
  }

  /** `Walk` is the walk over the nodes' header texts and entries. */
  lemma {:induction false} WalkIsWalkWith(nodes: seq<Node>, k: nat, groups: seq<HeaderGroup>)
    requires k <= |nodes|
    ensures Walk(nodes, k, groups) == WalkWith(HeaderOfAt(nodes), EntryOfAt(nodes), k, |nodes|, groups)
    decreases |nodes| - k
  {
    if k < |nodes| {
      var hdr, ent := HeaderOfAt(nodes), EntryOfAt(nodes);
      var next := Step(nodes, k, groups);
      StepIsStepWith(nodes, k, groups);
      WalkIsWalkWith(nodes, k + 1, next);
      assert Walk(nodes, k, groups) == Walk(nodes, k + 1, next);
      assert WalkWith(hdr, ent, k, |nodes|, groups) == WalkWith(hdr, ent, k + 1, |nodes|, next);
    }
  }

  /** One node of `Walk` is one position of `WalkWith`. */
  lemma StepIsStepWith(nodes: seq<Node>, k: nat, groups: seq<HeaderGroup>)
    requires k < |nodes|
    ensures Step(nodes, k, groups) == StepWith(HeaderOfAt(nodes)(k), EntryOfAt(nodes)(k), groups)
  {
    StepEffect(nodes, k, groups);
    HeadersFromAt(nodes, 0, k);
  }

  /** The groups a walk from the start opens: group `g` belongs to the `g`-th header
      and holds the entries between it and the next header, or the end. */
  lemma WalkWithContents(hdr: nat -> Option<string>, ent: nat -> seq<Item>, n: nat, g: nat)
    requires g < |Opens(hdr, 0, n)|
    ensures |WalkWith(hdr, ent, 0, n, [])| == |Opens(hdr, 0, n)|
    ensures WalkWith(hdr, ent, 0, n, [])[g]
      == HeaderGroup(hdr(Opens(hdr, 0, n)[g]),
                     Gather(ent, Opens(hdr, 0, n)[g] + 1, if g + 1 < |Opens(hdr, 0, n)| then Opens(hdr, 0, n)[g + 1] else n))
  {
    WalkWithGroups(hdr, ent, 0, n, []);
    OpensChain(hdr, 0, n, g);
  }

  lemma ParseIsWalkWith(nodes: seq<Node>)
    ensures ParseHierarchicalStructure(nodes) == WalkWith(HeaderOfAt(nodes), EntryOfAt(nodes), 0, |nodes|, [])
  {
    WalkIsWalkWith(nodes, 0, []);
  }

  /** The `g`-th header position holds a header app item, whose header text is the
      one the walk sees there. */
  lemma HeaderAtPosition(nodes: seq<Node>, g: nat)
    requires g < |HeaderPositions(nodes)|
    ensures HeaderPositions(nodes)[g] < |nodes| && IsHeaderNode(nodes[HeaderPositions(nodes)[g]])
    ensures HeaderOfAt(nodes)(HeaderPositions(nodes)[g]) == HeaderOf(nodes[HeaderPositions(nodes)[g]])
  {
    OpensAt(HeaderOfAt(nodes), 0, |nodes|, g);
    HeadersFromAt(nodes, 0, HeaderPositions(nodes)[g]);
  }

  /** Group `g` of a walk from the start, in terms of the app items. */
  lemma WalkGroup(nodes: seq<Node>, out: seq<HeaderGroup>, g: nat)
    requires out == WalkWith(HeaderOfAt(nodes), EntryOfAt(nodes), 0, |nodes|, [])
    requires g < |HeaderPositions(nodes)|
    ensures |out| == |HeaderPositions(nodes)| && HeaderPositions(nodes)[g] < |nodes|
    ensures out[g].headerText == HeaderOf(nodes[HeaderPositions(nodes)[g]])
    ensures out[g].children
      == Entries(nodes, HeaderPositions(nodes)[g] + 1,
                 if g + 1 < |HeaderPositions(nodes)| then HeaderPositions(nodes)[g + 1] else |nodes|)
  {
    var hdr, ent := HeaderOfAt(nodes), EntryOfAt(nodes);
    WalkWithContents(hdr, ent, |nodes|, g);
    HeaderAtPosition(nodes, g);
  }

  /** The groups of the hierarchical layout: group `g` is opened by the `g`-th header
      app item and holds, in document order, the accepted entries of the app items
      between that header and the next one (or the end); app items before the first
      header belong to no group. */
  lemma GroupContents(nodes: seq<Node>, g: nat)
    requires g < |HeaderPositions(nodes)|
    ensures |ParseHierarchicalStructure(nodes)| == |HeaderPositions(nodes)|
    ensures HeaderPositions(nodes)[g] < |nodes| && IsHeaderNode(nodes[HeaderPositions(nodes)[g]])
    ensures ParseHierarchicalStructure(nodes)[g].headerText == HeaderOf(nodes[HeaderPositions(nodes)[g]])
    ensures ParseHierarchicalStructure(nodes)[g].children
      == Entries(nodes, HeaderPositions(nodes)[g] + 1,
                 if g + 1 < |HeaderPositions(nodes)| then HeaderPositions(nodes)[g + 1] else |nodes|)
  {
    ParseIsWalkWith(nodes);
    WalkGroup(nodes, ParseHierarchicalStructure(nodes), g);
    HeaderAtPosition(nodes, g);
  }

  /** The header positions are exactly the header app items. */
  lemma HeaderPositionsExact(nodes: seq<Node>, j: nat)
    requires j < |nodes|
    ensures j in HeaderPositions(nodes) <==> IsHeaderNode(nodes[j])
  {
    HeadersFromAt(nodes, 0, j);
    if IsHeaderNode(nodes[j]) {
      OpensComplete(HeaderOfAt(nodes), 0, |nodes|, j);
    }
    if j in HeaderPositions(nodes) {
      var i :| 0 <= i < |HeaderPositions(nodes)| && HeaderPositions(nodes)[i] == j;
      OpensAt(HeaderOfAt(nodes), 0, |nodes|, i);
    }
  }

  /** An entry is in `Entries(nodes, lo, hi)` exactly when one of those nodes is an app
      item, not a header, whose accepted entry it is. */
  lemma EntriesMembers(nodes: seq<Node>, lo: nat, hi: nat, x: Item)
    requires hi <= |nodes|
    ensures x in Entries(nodes, lo, hi) <==> exists j | lo <= j < hi :: EntryAt(nodes, j) == Some(x)
  {
    var ent := EntryOfAt(nodes);
    forall j | lo <= j < hi
      ensures x in ent(j) <==> EntryAt(nodes, j) == Some(x)
    {
      EntryRecordAt(nodes, j);
    }
    if x in Entries(nodes, lo, hi) {
      GatherOnly(ent, lo, hi, x);
    }
    if exists j | lo <= j < hi :: EntryAt(nodes, j) == Some(x) {
      var j :| lo <= j < hi && EntryAt(nodes, j) == Some(x);
      GatherFrom(ent, lo, hi, j, x);
    }
  }
}
