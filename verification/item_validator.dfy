/** Selection of the flattened entries to scrape: the entries with an id and a text, then
    the optional single-id filter and the optional item limit. */
module ItemValidator {
  import opened Wrappers
  import opened Structure
  import opened Seqs

  /** An entry can be scraped when both its id and its text are truthy. */
  predicate IsValidItem(e: FlatEntry) {
    Truthy(e.id) && e.text != ""
  }

  function GetValidItems(items: seq<FlatEntry>): (valid: seq<FlatEntry>)
    ensures forall i | 0 <= i < |valid| :: IsValidItem(valid[i]) && valid[i] in items
  {
    Filter(items, IsValidItem)
  }

  /** The valid entries are exactly those with a truthy id and text, in their order. */
  lemma GetValidItemsExact(items: seq<FlatEntry>, e: FlatEntry)
    ensures e in GetValidItems(items) <==> e in items && Truthy(e.id) && e.text != ""
    ensures IsSubsequence(GetValidItems(items), items)
  {
    if e in items && IsValidItem(e) {
      FilterComplete(items, IsValidItem, e);
    }
    FilterIsSubsequence(items, IsValidItem);
  }

  /** With a truthy test id only the entries with exactly that id are kept. */
  function IdMatches(items: seq<FlatEntry>, testItemId: Option<string>): (r: seq<FlatEntry>)
    ensures Truthy(testItemId) ==> forall i | 0 <= i < |r| :: r[i].id == testItemId
    ensures IsSubsequence(r, items)
  {
    if Truthy(testItemId) then
      FilterIsSubsequence(items, (e: FlatEntry) => e.id == testItemId);
      Filter(items, (e: FlatEntry) => e.id == testItemId)
    else
      PrefixIsSubsequence(items, |items|);
      assert items[..|items|] == items;
      items
  }

  /** The id filter keeps exactly the entries carrying the test id, and everything when
      there is no test id. */
  lemma IdMatchesExact(items: seq<FlatEntry>, testItemId: Option<string>, e: FlatEntry)
    ensures e in IdMatches(items, testItemId) <==> e in items && (Truthy(testItemId) ==> e.id == testItemId)
  {
    if Truthy(testItemId) && e in items && e.id == testItemId {
      FilterComplete(items, (e: FlatEntry) => e.id == testItemId, e);
    }
  }

  /** A positive limit is in force; `None`, zero and negative limits mean no limit. */
  predicate HasLimit(maxItems: Option<int>) {
    maxItems.Some? && maxItems.value > 0
  }

  /** The id filter, then the first `maxItems` entries when a limit is in force. */
  function FilterItemsForProcessing(valid: seq<FlatEntry>, maxItems: Option<int>, testItemId: Option<string>): (r: seq<FlatEntry>)
    ensures IsSubsequence(r, valid)
    ensures Truthy(testItemId) ==> forall i | 0 <= i < |r| :: r[i].id == testItemId
    ensures HasLimit(maxItems) ==> |r| <= maxItems.value
    ensures |r| == if HasLimit(maxItems) && maxItems.value < |IdMatches(valid, testItemId)| then maxItems.value
                   else |IdMatches(valid, testItemId)|
    ensures r == IdMatches(valid, testItemId)[..|r|]
  {
    var byId := IdMatches(valid, testItemId);
    if HasLimit(maxItems) && maxItems.value < |byId| then
      PrefixIsSubsequence(byId, maxItems.value);
      SubsequenceTrans(byId[..maxItems.value], byId, valid);
      byId[..maxItems.value]
    else
      assert byId[..|byId|] == byId;
      byId
  }

  /** Without a test id and without a limit, everything is processed. */
  lemma NoFilterKeepsAll(valid: seq<FlatEntry>, maxItems: Option<int>, testItemId: Option<string>)
    requires !Truthy(testItemId) && !HasLimit(maxItems)
    ensures FilterItemsForProcessing(valid, maxItems, testItemId) == valid
  {
  }
}
