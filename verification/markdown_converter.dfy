/** Text extraction and formatting for the sidebar parsers: the text cleaner, the skip
    and validity rules for parsed items, and the entry builders. */
module MarkdownConverter {
  import opened Wrappers
  import opened Text
  import opened Structure

  /** The empty comment Angular leaves in rendered templates. */
  const AngularMarker := "<!---->"

  const Placeholders: seq<string> :=
    ["Unknown Item", "Unknown Menu", "Unnamed Item", "Unnamed Menu", "Unnamed Sub-Item"]

  // ---------------------------------------------------------------------------
  // Cleaning
  // ---------------------------------------------------------------------------

  /** Removes Angular markers, strips, and joins the words with single spaces. */
  function CleanExtractedText(text: string): string {
    if text == [] then text
    else CollapseSpaces(Strip(RemoveAll(text, AngularMarker)))
  }

  /** The cleaned text has exactly the words of the marker-free text, separated by
      single spaces, with nothing at either end. */
  lemma CleanNormalizes(text: string)
    ensures Normalized(CleanExtractedText(text))
    ensures Words(CleanExtractedText(text)) == Words(RemoveAll(text, AngularMarker))
  {
    if text != [] {
      var stripped := Strip(RemoveAll(text, AngularMarker));
      WordsStrip(RemoveAll(text, AngularMarker));
      CollapseKeepsWords(stripped);
    } else {
      assert RemoveAll(text, AngularMarker) == [];
    }
  }

  /** Cleaning is idempotent as long as the cleaned text holds no marker of its own. */
  lemma CleanIdempotent(text: string)
    requires !Contains(CleanExtractedText(text), AngularMarker)
    ensures CleanExtractedText(CleanExtractedText(text)) == CleanExtractedText(text)
  {
    var c := CleanExtractedText(text);
    CleanNormalizes(text);
    if c != [] {
      RemoveAllAbsent(c, AngularMarker);
      NormalizedStripped(c);
      assert c == CollapseSpaces(Strip(RemoveAll(text, AngularMarker)));
      CollapseIdempotent(Strip(RemoveAll(text, AngularMarker)));
    }
  }

  /** Removing a marker can join two halves of another marker around it, so a second
      cleaning can still change the text: `<!--<!---->-->` cleans to the marker, which
      cleans to nothing. */
  lemma CleanNotIdempotentOnNestedMarker(s: string, m: string)
    requires m == AngularMarker && s == "<!--" + m + "-->"
    ensures CleanExtractedText(s) == m
    ensures CleanExtractedText(CleanExtractedText(s)) == ""
  {
    RemoveNestedMarker(s, m);
    MarkerStripped();
    MarkerIsOneWord();
    assert CleanExtractedText(s) == CollapseSpaces(Strip(RemoveAll(s, m)));
    RemoveMarkerItself();
    assert CleanExtractedText(m) == CollapseSpaces(Strip(RemoveAll(m, m)));
  }

  lemma MarkerStripped()
    ensures Strip(AngularMarker) == AngularMarker
  {
    TrimUnchanged(AngularMarker, Whitespace);
  }

  /** The inner marker goes, and the two halves around it form a new one. */
  lemma RemoveNestedMarker(s: string, m: string)
    requires m == AngularMarker && s == "<!--" + m + "-->"
    ensures RemoveAll(s, m) == m
  {
    var s1, s2, s3, s4 := s[1..], s[2..], s[3..], s[4..];
    SkipOne(s, s1, 4, m);
    SkipOne(s1, s2, 0, m);
    SkipOne(s2, s3, 0, m);
    SkipOne(s3, s4, 0, m);
    assert s4[..7] == m;
    var t := s4[7..];
    assert t == "-->";
    SkipOne(t, t[1..], 0, m);
    SkipOne(t[1..], t[2..], 0, m);
    SkipOne(t[2..], t[3..], 0, m);
    assert t[3..] == [];
    assert RemoveAll(t, m) == t;
    assert s[..4] + t == m;
  }

  /** A text that differs from the marker at place `k` keeps its first character. */
  lemma SkipOne(s: string, t: string, k: nat, m: string)
    requires m == AngularMarker
    requires s != [] && s[1..] == t
    requires k < |m| && k < |s| && s[k] != m[k]
    ensures RemoveAll(s, m) == [s[0]] + RemoveAll(t, m)
  {
    if |m| <= |s| {
      assert s[..|m|][k] == s[k];
    }
  }

  lemma MarkerIsOneWord()
    ensures CollapseSpaces(AngularMarker) == AngularMarker
  {
    var m := AngularMarker;
    WordsOfWordThen(m, []);
    assert m + [] == m;
  }

  lemma RemoveMarkerItself()
    ensures RemoveAll(AngularMarker, AngularMarker) == ""
  {
    var m := AngularMarker;
    assert StartsWith(m, AngularMarker);
    assert m[7..] == [];
  }

  // ---------------------------------------------------------------------------
  // Skip and validity rules
  // ---------------------------------------------------------------------------

  /** An item is skipped when it is an overview page, has no visible text, or carries one
      of the placeholder texts the extractors fall back to. */
  function ShouldSkipItem(text: string): bool {
    if text == "Overview" then true
    else if text == "" || AllWhitespace(text) then true
    else text in Placeholders
  }

  /** Every character is whitespace, which is what `text.strip() == ""` tests. */
  predicate AllWhitespace(text: string)
    decreases |text|
  {
    text == [] || (text[0] in Whitespace && AllWhitespace(text[1..]))
  }

  lemma {:induction false} AllWhitespaceIffStripEmpty(text: string)
    ensures AllWhitespace(text) <==> IsBlank(text)
    decreases |text|
  {
    BlankIffAllSpace(text);
    if text != [] {
      AllWhitespaceIffStripEmpty(text[1..]);
      BlankIffAllSpace(text[1..]);
      assert forall i | 1 <= i < |text| :: text[i] == text[1..][i - 1];
    }
  }

  /** The skip rule: exactly "Overview", blank text (only whitespace after `strip`),
      and the five placeholders. */
  lemma ShouldSkipCharacterized(text: string)
    ensures ShouldSkipItem(text) <==> text == "Overview" || IsBlank(text) || text in Placeholders
  {
    AllWhitespaceIffStripEmpty(text);
  }

  /** Items other than menus need an id, a text and a type; menus may lack the id
      because their children are what gets processed. */
  function ValidateItemData(item: Item): (valid: bool)
    ensures valid ==> item.text != "" && item.kind != ""
    ensures item.kind == "menu" ==> (valid <==> item.text != "")
    ensures item.kind != "menu" ==> (valid <==> Truthy(item.id) && item.text != "" && item.kind != "")
  {
    if item.kind != "menu" && (!Truthy(item.id) || item.text == "" || item.kind == "") then false
    else if item.kind == "menu" && (item.text == "" || item.kind == "") then false
    else true
  }

  lemma MenuNeedsNoId(item: Item)
    requires item.kind == "menu" && item.text != ""
    ensures ValidateItemData(item)
    ensures ValidateItemData(item.(id := None))
  {
  }

  // ---------------------------------------------------------------------------
  // Entry builders
  // ---------------------------------------------------------------------------

  /** The fields handed to `format_item_entry`; `None` is a missing key. */
  datatype EntryData = EntryData(
    id: Option<string>,
    text: Option<string>,
    kind: Option<string>,
    header: string,
    menu: Option<string>,
    parentMenuText: Option<string>,
    level: Option<nat>)

  /** Builds a flattened entry: the text is stripped and cleaned, a missing type is
      "item", a missing level is 0, and the remaining fields are copied. */
  function FormatItemEntry(d: EntryData): (r: FlatEntry)
    ensures Normalized(r.text)
    ensures Words(r.text) == Words(RemoveAll(Strip(d.text.GetOr("")), AngularMarker))
    ensures r.kind == (if d.kind.Some? then d.kind.value else "item")
    ensures r.level == (if d.level.Some? then d.level.value else 0)
    ensures r.id == d.id && r.header == d.header
    ensures r.menu == d.menu && r.parentMenuText == d.parentMenuText
  {
    var text := Strip(d.text.GetOr(""));
    CleanNormalizes(text);
    assert text == "" ==> Normalized(text) && RemoveAll(text, AngularMarker) == [];
    var cleaned := if text != "" then CleanExtractedText(text) else text;
    FlatEntry(d.id, cleaned, d.kind.GetOr("item"), d.header, d.menu, d.parentMenuText, d.level.GetOr(0))
  }

  /** A child found inside a menu is always a plain, non-expandable item. */
  function CreateChildEntry(text: string, id: string): (r: Item)
    ensures r.kind == "item" && !r.expandable && r.children == []
    ensures r.id == Some(id)
  {
    Item(Some(id), CleanExtractedText(text), "item", false, [])
  }

  /** A child entry's text is the cleaned form of the text it was made from. */
  lemma ChildEntryTextClean(text: string, id: string)
    ensures Normalized(CreateChildEntry(text, id).text)
    ensures Words(CreateChildEntry(text, id).text) == Words(RemoveAll(text, AngularMarker))
  {
    CleanNormalizes(text);
  }

  // ---------------------------------------------------------------------------
  // Text extraction
  // ---------------------------------------------------------------------------

  /** Tries the selector texts in order: each non-empty one is cleaned (with `clean`,
      which is `CleanExtractedText` in the extractor) and becomes the current text, and the scan stops at the first whose cleaned form is longer than
      one character. */
  function ScanCandidates(candidates: seq<string>, current: string, clean: string -> string): string
    decreases |candidates|
  {
    if candidates == [] then current
    else if candidates[0] != "" then
      var t := clean(candidates[0]);
      if |t| > 1 then t else ScanCandidates(candidates[1..], t, clean)
    else ScanCandidates(candidates[1..], current, clean)
  }

  /** Index of the first candidate whose cleaned text is longer than one character. */
  function FirstLong(candidates: seq<string>, clean: string -> string): (k: Option<nat>)
    ensures k.Some? ==> k.value < |candidates| && |clean(candidates[k.value])| > 1
    ensures k.Some? ==> forall j | 0 <= j < k.value :: |clean(candidates[j])| <= 1
    ensures k.None? ==> forall j | 0 <= j < |candidates| :: |clean(candidates[j])| <= 1
    decreases |candidates|
  {
    if candidates == [] then None
    else if |clean(candidates[0])| > 1 then Some(0)
    else match FirstLong(candidates[1..], clean)
      case None => None
      case Some(k) => Some(k + 1)
  }

  /** The scan picks the first long candidate; with none, it ends on a text of at most
      one character or on the starting text. */
  lemma ScanPicksFirstLong(candidates: seq<string>, current: string, clean: string -> string)
    requires clean("") == ""
    ensures FirstLong(candidates, clean).Some? ==>
      ScanCandidates(candidates, current, clean) == clean(candidates[FirstLong(candidates, clean).value])
    ensures FirstLong(candidates, clean).None? ==>
      ScanCandidates(candidates, current, clean) == current || |ScanCandidates(candidates, current, clean)| <= 1
  {
    if FirstLong(candidates, clean).Some? {
      ScanFindsLong(candidates, current, clean);
    } else {
      ScanWithoutLong(candidates, current, clean);
    }
  }

  lemma {:induction false} ScanFindsLong(candidates: seq<string>, current: string, clean: string -> string)
    requires clean("") == ""
    requires FirstLong(candidates, clean).Some?
    ensures ScanCandidates(candidates, current, clean) == clean(candidates[FirstLong(candidates, clean).value])
    decreases |candidates|
  {
    var head := candidates[0];
    var t := clean(head);
    if |t| <= 1 {
      var tail := candidates[1..];
      var next := if head != "" then t else current;
      assert ScanCandidates(candidates, current, clean) == ScanCandidates(tail, next, clean);
      var k := FirstLong(tail, clean).value;
      assert FirstLong(candidates, clean) == Some(k + 1);
      assert candidates[k + 1] == tail[k];
      ScanFindsLong(tail, next, clean);
    } else {
      assert head != "";
    }
  }

  lemma {:induction false} ScanWithoutLong(candidates: seq<string>, current: string, clean: string -> string)
    requires FirstLong(candidates, clean).None?
    ensures ScanCandidates(candidates, current, clean) == current || |ScanCandidates(candidates, current, clean)| <= 1
    decreases |candidates|
  {
    if candidates != [] {
      var head := candidates[0];
      var t := clean(head);
      assert |t| <= 1;
      ScanWithoutLong(candidates[1..], if head != "" then t else current, clean);
    }
  }

  /** The first `n` characters of `s`, `s[:n]` in Python. */
  function Take(s: string, n: nat): (r: string)
    ensures |r| <= n && StartsWith(s, r)
    ensures |s| <= n ==> r == s
  {
    if |s| <= n then s else s[..n]
  }

  /** The selector texts tried for a menu or for an item. */
  function Candidates(li: ClickableLi, isMenu: bool): seq<string> {
    if isMenu then li.menuTexts else li.itemTexts
  }

  /** The text of a clickable element: the first good selector text, otherwise the
      element's whole text (at most 100 characters), otherwise a placeholder. */
  function ExtractItemText(li: ClickableLi, isMenu: bool): (r: string)
    ensures r != ""
  {
    var candidates := Candidates(li, isMenu);
    var scanned := ScanCandidates(candidates, "Unknown Item", CleanExtractedText);
    var fallback := CleanExtractedText(li.allText);
    var text :=
      if scanned == "" || scanned in ["Unknown Item", "Unknown Menu"] then
        if li.allText != "" && fallback != "" && |fallback| > 1 then Take(fallback, 100) else scanned
      else scanned;
    if text != "" then text else if isMenu then "Unknown Menu" else "Unknown Item"
  }

  /** The first selector text whose cleaned form is longer than one character wins
      unless it is a placeholder; with no selector text at all, the cleaned whole text
      (cut to 100 characters) is used when it is longer than one character. */
  lemma ExtractItemTextChoice(li: ClickableLi, isMenu: bool)
    ensures var k := FirstLong(Candidates(li, isMenu), CleanExtractedText);
      k.Some? && CleanExtractedText(Candidates(li, isMenu)[k.value]) !in ["Unknown Item", "Unknown Menu"]
      ==> ExtractItemText(li, isMenu) == CleanExtractedText(Candidates(li, isMenu)[k.value])
    ensures (forall j | 0 <= j < |Candidates(li, isMenu)| :: Candidates(li, isMenu)[j] == "")
      && |CleanExtractedText(li.allText)| > 1
      ==> ExtractItemText(li, isMenu) == Take(CleanExtractedText(li.allText), 100)
  {
    ScanPicksFirstLong(Candidates(li, isMenu), "Unknown Item", CleanExtractedText);
    ScanAllEmpty(Candidates(li, isMenu), "Unknown Item", CleanExtractedText);
  }

  /** With no usable selector text and no whole-element text, the placeholder is
      "Unknown Item" for menus too: the scan starts from that text, so "Unknown Menu" is
      returned only when the last selector text cleaned to nothing. */
  lemma MenuWithoutTextIsUnknownItem(li: ClickableLi)
    requires forall j | 0 <= j < |li.menuTexts| :: li.menuTexts[j] == ""
    requires li.allText == ""
    ensures ExtractItemText(li, true) == "Unknown Item"
  {
    assert ScanCandidates(li.menuTexts, "Unknown Item", CleanExtractedText) == "Unknown Item" by {
      ScanAllEmpty(li.menuTexts, "Unknown Item", CleanExtractedText);
    }
  }

  lemma {:induction false} ScanAllEmpty(candidates: seq<string>, current: string, clean: string -> string)
    ensures (forall j | 0 <= j < |candidates| :: candidates[j] == "") ==>
      ScanCandidates(candidates, current, clean) == current
    decreases |candidates|
  {
    if candidates != [] && candidates[0] == "" {
      ScanAllEmpty(candidates[1..], current, clean);
    }
  }

  /** The text of a nested child: the standard item-text span cleaned, otherwise the
      item text extraction. */
  function ExtractChildText(li: ClickableLi): string {
    var span := if |li.itemTexts| > 0 then li.itemTexts[0] else "";
    if span != "" then CleanExtractedText(span) else ExtractItemText(li, false)
  }

  /** A non-empty span gives its cleaned words; without one the child falls back to the
      item text extraction, which is never empty. */
  lemma ChildTextChoice(li: ClickableLi)
    ensures var span := if |li.itemTexts| > 0 then li.itemTexts[0] else "";
      (span == "" ==> ExtractChildText(li) == ExtractItemText(li, false) && ExtractChildText(li) != "")
      && (span != "" ==> Words(ExtractChildText(li)) == Words(RemoveAll(span, AngularMarker))
                         && Normalized(ExtractChildText(li)))
  {
    if |li.itemTexts| > 0 && li.itemTexts[0] != "" {
      CleanNormalizes(li.itemTexts[0]);
    }
  }
}
