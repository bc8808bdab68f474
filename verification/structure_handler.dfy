/** Loading the sidebar structure: a cached structure file is used when it validates and
    holds enough valid items, otherwise the sidebar is parsed live, which also expands every
    menu of the session's browser. The browser session and the parser are abstracted: the
    live result is a parameter. */
module StructureHandler {
  import opened Wrappers
  import opened Models
  import Text
  import Seqs

  /** An item of the cached file, as decoded JSON: `text` and `type` may be missing. */
  datatype RawItem = RawItem(
    id: Option<string>,
    text: Option<string>,
    kind: Option<string>,
    header: Option<string>,
    menu: Option<string>,
    parentMenuText: Option<string>,
    level: int,
    expandable: bool)

  /** A header group of the cached file; `header_text` may be missing. */
  datatype RawGroup = RawGroup(headerText: Option<string>)

  /** The decoded cache file: its `structured_data` and its `items`. */
  datatype RawStructure = RawStructure(groups: seq<RawGroup>, items: seq<RawItem>)

  /** Building a `SidebarItem` from a decoded item: a missing required field fails, then
      the field validators run. */
  function ValidateRawItem(raw: RawItem): (r: Result<SidebarItem, seq<FieldError>>)
    ensures r.Ok? <==> (raw.text.Some? && raw.kind.Some? && !Text.IsBlank(raw.text.value)
      && (raw.kind.value == ItemKind || raw.kind.value == MenuKind) && raw.level >= 0)
    ensures r.Ok? ==> ValidSidebarItem(r.value) && r.value.id == raw.id && r.value.kind == raw.kind.value
  {
    if raw.text.None? || raw.kind.None? then Err([MissingField])
    else MakeSidebarItem(raw.id, raw.text.value, raw.kind.value, raw.header, raw.menu,
      raw.parentMenuText, raw.level, raw.expandable)
  }

  function ValidateRawGroup(raw: RawGroup): (r: Result<ModelHeaderGroup, seq<FieldError>>)
    ensures r.Ok? <==> raw.headerText.Some? && !Text.IsBlank(raw.headerText.value)
  {
    if raw.headerText.None? then Err([MissingField]) else MakeHeaderGroup(raw.headerText.value, [])
  }

  /** Every item validated in order; the first failure is the result. */
  function ValidateItems(raw: seq<RawItem>): (r: Result<seq<SidebarItem>, seq<FieldError>>)
    ensures r.Ok? <==> forall i | 0 <= i < |raw| :: ValidateRawItem(raw[i]).Ok?
    ensures r.Ok? ==> (|r.value| == |raw|
      && forall i | 0 <= i < |raw| :: ValidateRawItem(raw[i]) == Ok(r.value[i]))
  {
    if raw == [] then Ok([])
    else
      match ValidateRawItem(raw[0])
      case Err(e) => Err(e)
      case Ok(item) =>
        match ValidateItems(raw[1..])
        case Err(e) => Err(e)
        case Ok(rest) => Ok([item] + rest)
  }

  function ValidateGroups(raw: seq<RawGroup>): (r: Result<seq<ModelHeaderGroup>, seq<FieldError>>)
    ensures r.Ok? <==> forall i | 0 <= i < |raw| :: ValidateRawGroup(raw[i]).Ok?
  {
    if raw == [] then Ok([])
    else
      match ValidateRawGroup(raw[0])
      case Err(e) => Err(e)
      case Ok(g) =>
        match ValidateGroups(raw[1..])
        case Err(e) => Err(e)
        case Ok(rest) => Ok([g] + rest)
  }

  /** `SidebarStructure(structured_data=..., items=[SidebarItem(**item) ...])`: a failing
      validator raises, which the loader treats as a cache miss. */
  function ValidateStructure(raw: RawStructure): (r: Result<SidebarStructure, seq<FieldError>>)
    ensures r.Ok? <==> ((forall i | 0 <= i < |raw.groups| :: ValidateRawGroup(raw.groups[i]).Ok?)
      && (forall i | 0 <= i < |raw.items| :: ValidateRawItem(raw.items[i]).Ok?))
    ensures r.Ok? ==> |r.value.items| == |raw.items|
  {
    match ValidateGroups(raw.groups)
    case Err(e) => Err(e)
    case Ok(groups) =>
      match ValidateItems(raw.items)
      case Err(e) => Err(e)
      case Ok(items) => Ok(SidebarStructure(groups, items))
  }

  const MinCachedValidItems := 10
  const MinValidRatio: real := 0.1

  /** `valid / total > 0.1` as Python's true division, taken exactly. */
  predicate RatioAbove(valid: nat, total: nat)
    requires total > 0
  {
    (valid as real) / (total as real) > MinValidRatio
  }

  /** The ratio test is the integer test `10 * valid > total`. */
  lemma RatioIsTenfold(valid: nat, total: nat)
    requires total > 0
    ensures RatioAbove(valid, total) <==> 10 * valid > total
  {
    var v, t := valid as real, total as real;
    var q := v / t;
    assert v == q * t;
    assert v - MinValidRatio * t == (q - MinValidRatio) * t;
    if q > MinValidRatio {
      assert (q - MinValidRatio) * t > 0.0;
    } else {
      assert (MinValidRatio - q) * t >= 0.0;
    }
  }

  /** The number of valid items of a loaded structure, or `None` when building the
      structure raises. */
  function ValidCount(raw: RawStructure): (r: Option<nat>)
    ensures r.Some? <==> ValidateStructure(raw).Ok?
    ensures r.Some? ==> r.value <= |raw.items|
  {
    match ValidateStructure(raw)
    case Err(_) => None
    case Ok(st) => Some(|ValidItems(st)|)
  }

  /** The cache check: the loaded structure is returned with `true` when one was loaded,
      `force` is off, it validates, and at least ten of its items are valid and more than a
      tenth of them; in every other case, including a validation failure, the result is
      `(None, false)`. The ratio is only evaluated after the count test, which is what keeps
      its divisor positive. */
  function LoadStructureFromFile(loaded: Option<RawStructure>, force: bool): (r: (Option<RawStructure>, bool))
    ensures r.1 <==> (loaded.Some? && !force && ValidCount(loaded.value).Some?
      && ValidCount(loaded.value).value >= MinCachedValidItems
      && 10 * ValidCount(loaded.value).value > |loaded.value.items|)
    ensures r.1 ==> r.0 == loaded
    ensures !r.1 ==> r.0 == None
  {
    if loaded.Some? && !force then
      match ValidCount(loaded.value)
      case None => (None, false)
      case Some(valid) =>
        if valid >= MinCachedValidItems && RatioAboveChecked(valid, |loaded.value.items|) then (loaded, true)
        else (None, false)
    else (None, false)
  }

  /** The ratio test of the cache check, its divisor known positive. */
  function RatioAboveChecked(valid: nat, total: nat): (r: bool)
    requires valid >= MinCachedValidItems && valid <= total
    ensures r <==> 10 * valid > total
  {
    RatioIsTenfold(valid, total);
    RatioAbove(valid, total)
  }

  /** A cache with fewer than ten valid items, or with a single item that fails validation,
      is never used; neither is any cache under `force`. */
  lemma CacheMisses(loaded: Option<RawStructure>, force: bool)
    ensures force ==> !LoadStructureFromFile(loaded, force).1
    ensures loaded.Some? && (exists i | 0 <= i < |loaded.value.items| :: ValidateRawItem(loaded.value.items[i]).Err?)
      ==> LoadStructureFromFile(loaded, force) == (None, false)
    ensures loaded.Some? && ValidCount(loaded.value).Some? && ValidCount(loaded.value).value < MinCachedValidItems
      ==> LoadStructureFromFile(loaded, force) == (None, false)
  {
  }

  /** Where the structure handed on came from. */
  datatype Obtained = FromFile(raw: RawStructure) | FromLive(st: SidebarStructure)

  /** The result of handling the structure: the structure, the flag returned with it, and
      the session's full-expansion flag afterwards. */
  datatype Handled = Handled(structure: Obtained, flag: bool, expansionDone: bool)

  /** `handle_sidebar_structure` as written: on a cache miss the sidebar is parsed live (the
      parse is `live`) and the session's full-expansion flag is set; the flag returned is
      `not structure_is_valid`, which is true exactly when the live parse ran. */
  function HandleSidebarStructureAsWritten(loaded: Option<RawStructure>, force: bool, live: SidebarStructure, expansionDone: bool): (h: Handled)
    ensures h.flag <==> h.structure.FromLive?
    ensures h.structure.FromLive? <==> !LoadStructureFromFile(loaded, force).1
    ensures h.structure.FromLive? ==> h.structure.st == live && h.expansionDone
    ensures h.structure.FromFile? ==> loaded == Some(h.structure.raw) && h.expansionDone == expansionDone
  {
    var (cached, valid) := LoadStructureFromFile(loaded, force);
    if valid then Handled(FromFile(cached.value), !valid, expansionDone)
    else Handled(FromLive(live), !valid, true)
  }

  /** The caller receives the flag as `from_cache`; the evidently intended value is true
      exactly when the cached structure was used. */
  function HandleSidebarStructure(loaded: Option<RawStructure>, force: bool, live: SidebarStructure, expansionDone: bool): (h: Handled)
    ensures h.flag <==> h.structure.FromFile?
    ensures h.structure.FromFile? <==> LoadStructureFromFile(loaded, force).1
    ensures h.structure.FromLive? ==> h.structure.st == live && h.expansionDone
    ensures h.structure.FromFile? ==> loaded == Some(h.structure.raw) && h.expansionDone == expansionDone
  {
    var (cached, valid) := LoadStructureFromFile(loaded, force);
    if valid then Handled(FromFile(cached.value), valid, expansionDone)
    else Handled(FromLive(live), valid, true)
  }

  /** The flag as written is the negation of "came from the cache" on every input: a cache
      hit is reported to the item processor as a live parse and a live parse as a cache
      hit. Both versions hand on the same structure and expansion flag. */
  lemma FromCacheFlagInverted(loaded: Option<RawStructure>, force: bool, live: SidebarStructure, expansionDone: bool)
    ensures HandleSidebarStructureAsWritten(loaded, force, live, expansionDone).flag
      == !HandleSidebarStructure(loaded, force, live, expansionDone).flag
    ensures HandleSidebarStructureAsWritten(loaded, force, live, expansionDone).structure
      == HandleSidebarStructure(loaded, force, live, expansionDone).structure
    ensures HandleSidebarStructureAsWritten(loaded, force, live, expansionDone).expansionDone
      == HandleSidebarStructure(loaded, force, live, expansionDone).expansionDone
  {
  }

  /** The item every entry of the example cache file holds. */
  function SampleItem(): RawItem {
    RawItem(Some("x"), Some("x"), Some(ItemKind), None, None, None, 0, false)
  }

  /** A cache file of ten valid content items. */
  function TenItemCache(): RawStructure {
    RawStructure([], seq(10, i => SampleItem()))
  }

  lemma SampleItemValid()
    ensures ValidateRawItem(SampleItem()).Ok?
    ensures IsValidForProcessing(ValidateRawItem(SampleItem()).value)
  {
    Text.TrimUnchanged("x", Text.Whitespace);
  }

  lemma TenItemCacheCount()
    ensures ValidCount(TenItemCache()) == Some(10)
  {
    var raw := TenItemCache();
    SampleItemValid();
    assert forall i | 0 <= i < |raw.items| :: raw.items[i] == SampleItem();
    var st := ValidateStructure(raw).value;
    assert forall i | 0 <= i < |st.items| :: ValidateRawItem(raw.items[i]) == Ok(st.items[i]);
    Seqs.FilterKeepsAll(st.items, IsValidForProcessing);
  }

  /** With that file and no `force`, the cache is used, yet the flag as written says
      `from_cache = False`. */
  lemma CacheHitReportedAsLive(live: SidebarStructure)
    ensures LoadStructureFromFile(Some(TenItemCache()), false).1
    ensures HandleSidebarStructureAsWritten(Some(TenItemCache()), false, live, false).structure.FromFile?
    ensures !HandleSidebarStructureAsWritten(Some(TenItemCache()), false, live, false).flag
  {
    TenItemCacheCount();
  }
}
