/** The item processor: it selects the entries to scrape, makes sure a browser is on the
    site with its menus expanded, and then processes the entries either in parallel or one
    by one, falling back to one by one when the parallel run fails. The browser, the
    content extraction and the file system are abstracted: a navigation's outcome is a
    parameter, and existing files are a set of paths. */
module ItemProcessor {
  import opened Wrappers
  import opened Seqs
  import opened Structure
  import opened Tallies
  import opened ItemValidator
  import opened ResumeManager
  import opened ParallelOrchestrator

  const MinItemsForParallel := 5
  const MinSpeedup: real := 1.3

  // ---------------------------------------------------------------------------
  // Choosing the processing mode
  // ---------------------------------------------------------------------------

  /** Sequential processing is chosen when concurrency is disabled (it is enabled by
      default) or when there are fewer than five entries. */
  predicate ShouldUseSequential(n: nat, concurrencyEnabled: bool) {
    !concurrencyEnabled || n < MinItemsForParallel
  }

  /** What the one-by-one loop did: the outcome of each entry, and how often the progress
      bar advanced. */
  datatype Progressed = Progressed(outcomes: seq<ItemOutcome>, advanced: nat)

  /** Which of the two ways of processing ran. `parallelResult` is the parallel run's result when
      it was attempted; `sequential` is the one-by-one loop's result when it ran, an error
      when it raised before its first entry. */
  datatype HybridRun = HybridRun(parallelResult: Option<Result<Tally, string>>, sequential: Option<Result<Progressed, string>>)

  /** `_process_items_hybrid_mode`. The parallel run is attempted only when sequential
      processing was not chosen and the estimated speedup is at least 1.3; the one-by-one
      loop runs when the parallel run was not attempted or raised. `step` is the rule that
      decides each entry's outcome, and `display` says whether the progress service offers
      the display both processing paths ask for first. */
  method ProcessItemsHybridMode(
    items: seq<FlatEntry>, concurrencyEnabled: bool, speedup: real,
    maxWorkers: int, maxRetries: int,
    parallelRun: Result<seq<TaskResult>, string>, fallback: seq<Attempt>,
    nav: seq<NavOutcome>, step: (FlatEntry, NavOutcome) -> ItemOutcome, display: bool) returns (run: HybridRun)
    requires parallelRun.Ok? ==> |parallelRun.value| == |items|
    requires |fallback| == |items| && |nav| == |items|
    ensures run.parallelResult.Some? <==> !ShouldUseSequential(|items|, concurrencyEnabled) && speedup >= MinSpeedup
    ensures run.sequential.Some? <==> (run.parallelResult.None? || run.parallelResult.value.Err?)
    ensures run.sequential.Some? ==> (run.sequential.value.Ok? <==> display)
    ensures run.sequential.Some? && run.sequential.value.Ok? ==> HandledBy(items, nav, step, run.sequential.value.value)
    ensures run.parallelResult.Some? && run.parallelResult.value.Ok? ==> Total(run.parallelResult.value.value) == |items|
    ensures run.parallelResult.Some? && display && maxRetries > 0 ==> run.parallelResult.value.Ok?
    ensures !display ==> run.sequential.Some? && run.sequential.value.Err?
  {
    if ShouldUseSequential(|items|, concurrencyEnabled) || speedup < MinSpeedup {
      var r := ProcessItemsWithProgress(items, nav, step, display);
      return HybridRun(None, Some(r));
    }
    var result := ProcessItemsParallel(|items|, concurrencyEnabled, maxWorkers, maxRetries, parallelRun, fallback, display);
    if result.Ok? {
      return HybridRun(Some(result), None);
    }
    var r := ProcessItemsWithProgress(items, nav, step, display);
    return HybridRun(Some(result), Some(r));
  }

  /** The hybrid mode as written: the progress service has no display, so a parallel run
      raises, and so does its sequential fallback; the one-by-one loop then raises before
      its first entry, whatever the mode chosen. */
  method ProcessItemsHybridModeAsWritten(
    items: seq<FlatEntry>, concurrencyEnabled: bool, speedup: real,
    maxWorkers: int, maxRetries: int,
    parallelRun: Result<seq<TaskResult>, string>, fallback: seq<Attempt>,
    force: bool, nav: seq<NavOutcome>) returns (run: HybridRun)
    requires parallelRun.Ok? ==> |parallelRun.value| == |items|
    requires |fallback| == |items| && |nav| == |items|
    ensures run.parallelResult.Some? ==> run.parallelResult.value.Err?
    ensures run.sequential.Some? && run.sequential.value.Err?
  {
    run := ProcessItemsHybridMode(items, concurrencyEnabled, speedup, maxWorkers, maxRetries,
                                  parallelRun, fallback, nav, AsWrittenStep(force), false);
  }

  /** The hybrid mode with a progress display and the intended skip check: whichever mode
      is chosen, every entry is accounted for; the one-by-one loop decides each entry by the
      intended rule and advances the bar once per entry unless a navigation returns false;
      with retries left the parallel attempt never raises. */
  method ProcessItemsHybridModeIntended(
    items: seq<FlatEntry>, concurrencyEnabled: bool, speedup: real,
    maxWorkers: int, maxRetries: int,
    parallelRun: Result<seq<TaskResult>, string>, fallback: seq<Attempt>,
    force: bool, base: seq<string>, files: set<seq<string>>, nav: seq<NavOutcome>) returns (run: HybridRun)
    requires parallelRun.Ok? ==> |parallelRun.value| == |items|
    requires |fallback| == |items| && |nav| == |items|
    ensures run.parallelResult.Some? <==> !ShouldUseSequential(|items|, concurrencyEnabled) && speedup >= MinSpeedup
    ensures run.parallelResult.Some? && maxRetries > 0 ==> run.parallelResult.value.Ok? && Total(run.parallelResult.value.value) == |items|
    ensures run.sequential.Some? ==> (
      run.sequential.value.Ok?
      && |run.sequential.value.value.outcomes| == |items|
      && forall i | 0 <= i < |items| ::
           run.sequential.value.value.outcomes[i] == ProcessSingleItem(items[i], force, base, files, nav[i]))
    ensures run.sequential.Some? && (forall i | 0 <= i < |nav| :: nav[i] != NavFalse) ==>
      run.sequential.value.value.advanced == |items|
  {
    run := ProcessItemsHybridMode(items, concurrencyEnabled, speedup, maxWorkers, maxRetries,
                                  parallelRun, fallback, nav, IntendedStep(force, base, files), true);
    if run.sequential.Some? && (forall i | 0 <= i < |nav| :: nav[i] != NavFalse) {
      IntendedLoopAdvancesPerEntry(items, nav, force, base, files, run.sequential.value.value);
    }
  }

  // ---------------------------------------------------------------------------
  // Processing one entry
  // ---------------------------------------------------------------------------

  /** How navigating to an entry ends: it raises, it returns `False`, or it returns `True`
      and saving the content then raises or not. */
  datatype NavOutcome = NavRaised | NavFalse | NavTrue(saveRaised: bool)

  /** What became of an entry: skipped because its file exists, not navigated to, processed,
      failed inside the item's own error handler, or aborted by an exception that escaped
      to the loop. */
  datatype ItemOutcome = Skipped | NotNavigated | Processed | Failed | Aborted

  /** The progress bar advances for skipped, processed and failed entries; an entry that
      could not be navigated to, or whose exception reached the loop, leaves it where it
      is. */
  predicate MovesOn(o: ItemOutcome) {
    o == Skipped || o == Processed || o == Failed
  }

  /** The outcome once the existence check has passed. */
  function AfterSkipCheck(nav: NavOutcome): (o: ItemOutcome)
    ensures o == Processed <==> nav == NavTrue(false)
    ensures o == NotNavigated <==> nav == NavFalse
    ensures o != Skipped && o != Aborted
  {
    match nav
    case NavRaised => Failed
    case NavFalse => NotNavigated
    case NavTrue(saveRaised) => if saveRaised then Failed else Processed
  }

  /** `_process_single_item` as written: without `force` it asks the storage service for
      `get_output_path`, a method the storage service does not have, so the lookup raises
      before anything else happens. */
  function ProcessSingleItemAsWritten(force: bool, nav: NavOutcome): (o: ItemOutcome)
    ensures !force ==> o == Aborted
    ensures force ==> o == AfterSkipCheck(nav)
  {
    if !force then Aborted else AfterSkipCheck(nav)
  }

  /** `_process_single_item` with the existence check it evidently intends: an entry whose
      file is already at its expected output path is skipped unless `force` is set;
      otherwise the entry is navigated to and its content saved. */
  function ProcessSingleItem(e: FlatEntry, force: bool, base: seq<string>, files: set<seq<string>>, nav: NavOutcome): (o: ItemOutcome)
    ensures o == Skipped <==> !force && ExpectedPath(e, base) in files
    ensures o == Processed <==> (force || ExpectedPath(e, base) !in files) && nav == NavTrue(false)
    ensures o == NotNavigated <==> (force || ExpectedPath(e, base) !in files) && nav == NavFalse
    ensures o == Failed <==> (force || ExpectedPath(e, base) !in files) && (nav == NavRaised || nav == NavTrue(true))
    ensures o != Aborted
  {
    if !force && HasFile(e, base, files) then Skipped else AfterSkipCheck(nav)
  }

  /** Without `force`, the skip check as written aborts every entry, even one with no file yet
      whose navigation and save succeed, which the intended check processes. */
  lemma SkipCheckAlwaysRaises(e: FlatEntry, base: seq<string>, files: set<seq<string>>)
    requires ExpectedPath(e, base) !in files
    ensures ProcessSingleItemAsWritten(false, NavTrue(false)) == Aborted
    ensures ProcessSingleItem(e, false, base, files, NavTrue(false)) == Processed
  {
  }

  /** The single-entry rule as written, and the one with the intended skip check. */
  function AsWrittenStep(force: bool): (FlatEntry, NavOutcome) -> ItemOutcome {
    (e: FlatEntry, n: NavOutcome) => ProcessSingleItemAsWritten(force, n)
  }

  function IntendedStep(force: bool, base: seq<string>, files: set<seq<string>>): (FlatEntry, NavOutcome) -> ItemOutcome {
    (e: FlatEntry, n: NavOutcome) => ProcessSingleItem(e, force, base, files, n)
  }

  /** The loop handled every entry, in order, by `step`, and the bar advanced once per
      skipped, processed or failed entry. */
  predicate HandledBy(items: seq<FlatEntry>, nav: seq<NavOutcome>, step: (FlatEntry, NavOutcome) -> ItemOutcome, p: Progressed)
    requires |nav| == |items|
  {
    |p.outcomes| == |items|
    && (forall i | 0 <= i < |items| :: p.outcomes[i] == step(items[i], nav[i]))
    && p.advanced == |Filter(p.outcomes, MovesOn)|
  }

  /** The loop of `_process_items_with_progress`: every entry is processed in turn, and an
      exception on one entry (an `Aborted` outcome) is logged and does not stop the others. */
  method ProcessEach(items: seq<FlatEntry>, nav: seq<NavOutcome>, step: (FlatEntry, NavOutcome) -> ItemOutcome) returns (p: Progressed)
    requires |nav| == |items|
    ensures HandledBy(items, nav, step, p)
  {
    var outcomes, advanced := [], 0;
    var k := 0;
    while k < |items|
      invariant 0 <= k <= |items|
      invariant |outcomes| == k
      invariant forall i | 0 <= i < k :: outcomes[i] == step(items[i], nav[i])
      invariant advanced == |Filter(outcomes, MovesOn)|
    {
      var o := step(items[k], nav[k]);
      FilterSnoc(outcomes, o, MovesOn);
      ghost var before := outcomes;
      outcomes := outcomes + [o];
      forall i | 0 <= i < k + 1
        ensures outcomes[i] == step(items[i], nav[i])
      {
        if i < k {
          assert outcomes[i] == before[i];
        }
      }
      if MovesOn(o) {
        advanced := advanced + 1;
      }
      k := k + 1;
    }
    p := Progressed(outcomes, advanced);
  }

  /** `_process_items_with_progress`: it asks the progress service for a display and for
      quiet console logging, which raises before any entry unless `display` says the
      service offers them; then every entry is handled in turn. */
  method ProcessItemsWithProgress(items: seq<FlatEntry>, nav: seq<NavOutcome>, step: (FlatEntry, NavOutcome) -> ItemOutcome, display: bool) returns (r: Result<Progressed, string>)
    requires |nav| == |items|
    ensures r.Err? <==> !display
    ensures r.Ok? ==> HandledBy(items, nav, step, r.value)
  {
    if !display {
      return Err(NoProgressDisplay);
    }
    var p := ProcessEach(items, nav, step);
    return Ok(p);
  }

  /** Under the rule as written and without `force`, every entry aborts, yet the loop still
      visits every one of them; the bar never advances. */
  lemma AsWrittenLoopAbortsEach(items: seq<FlatEntry>, nav: seq<NavOutcome>, p: Progressed)
    requires |nav| == |items| && HandledBy(items, nav, AsWrittenStep(false), p)
    ensures |p.outcomes| == |items|
    ensures forall i | 0 <= i < |items| :: p.outcomes[i] == Aborted
    ensures p.advanced == 0
  {
    FilterKeepsNone(p.outcomes, MovesOn);
  }

  /** Under the intended rule, when no navigation returns false, the bar advances exactly
      once per entry. */
  lemma IntendedLoopAdvancesPerEntry(items: seq<FlatEntry>, nav: seq<NavOutcome>, force: bool, base: seq<string>,
                                     files: set<seq<string>>, p: Progressed)
    requires |nav| == |items| && HandledBy(items, nav, IntendedStep(force, base, files), p)
    requires forall i | 0 <= i < |nav| :: nav[i] != NavFalse
    ensures p.advanced == |items|
  {
    forall i | 0 <= i < |p.outcomes|
      ensures MovesOn(p.outcomes[i])
    {
      assert p.outcomes[i] == ProcessSingleItem(items[i], force, base, files, nav[i]);
    }
    FilterKeepsAll(p.outcomes, MovesOn);
  }

  // ---------------------------------------------------------------------------
  // Expanding the menus before processing
  // ---------------------------------------------------------------------------

  /** The settings that ask for a fresh full expansion of a cached structure. */
  datatype ExpansionOverrides = ExpansionOverrides(force: bool, forceFullExpansion: bool, validateCache: bool)

  predicate AnyOverride(o: ExpansionOverrides) {
    o.force || o.forceFullExpansion || o.validateCache
  }

  /** As written, navigating to the site and expanding every menu both happen exactly when
      no browser is open yet; whether the structure came from the cache is only logged. */
  function ExpandsAsWritten(hasDriver: bool, fromCache: bool, overrides: ExpansionOverrides, done: bool): (r: bool)
    ensures r <==> !hasDriver
  {
    !hasDriver
  }

  /** The expansion rule the processing tests describe: a live-parsed structure is always
      expanded; a cached one only when an override asks for it and no full expansion has
      happened in this session yet. */
  function ShouldExpand(fromCache: bool, overrides: ExpansionOverrides, done: bool): (r: bool)
    ensures !fromCache ==> r
    ensures fromCache ==> (r <==> AnyOverride(overrides) && !done)
  {
    !fromCache || (AnyOverride(overrides) && !done)
  }

  /** The seven expansion cases of the processing tests, all without an open browser:
      cached with no override, live, cached with `force_full_expansion`, with `force`, with
      `validate_cache`, cached after a full expansion, and live after a full expansion. */
  lemma ShouldExpandMeetsTests()
    ensures !ShouldExpand(true, ExpansionOverrides(false, false, false), false)
    ensures ShouldExpand(false, ExpansionOverrides(false, false, false), false)
    ensures ShouldExpand(true, ExpansionOverrides(false, true, false), false)
    ensures ShouldExpand(true, ExpansionOverrides(true, false, false), false)
    ensures ShouldExpand(true, ExpansionOverrides(false, false, true), false)
    ensures !ShouldExpand(true, ExpansionOverrides(false, false, false), true)
    ensures ShouldExpand(false, ExpansionOverrides(false, false, false), true)
  {
  }

  /** The rule as written disagrees with two of those cases: with no browser open it
      expands a cached structure with no override, and one already expanded in the
      session, because it never looks at `from_cache`. */
  lemma ExpandsAsWrittenIgnoresCache(hasDriver: bool, overrides: ExpansionOverrides, done: bool)
    ensures ExpandsAsWritten(hasDriver, true, overrides, done) == ExpandsAsWritten(hasDriver, false, overrides, done)
    ensures ExpandsAsWritten(false, true, ExpansionOverrides(false, false, false), false)
      && !ShouldExpand(true, ExpansionOverrides(false, false, false), false)
    ensures ExpandsAsWritten(false, true, ExpansionOverrides(false, false, false), true)
      && !ShouldExpand(true, ExpansionOverrides(false, false, false), true)
  {
  }

  /** What preparing to process did: the entries selected, whether the browser was opened
      and sent to the site, and whether the menus were expanded. Neither path records a full
      expansion: the session flag is set only by the structure handler. */
  datatype Prepared = Prepared(items: seq<FlatEntry>, navigated: bool, expanded: bool)

  /** `process_items_from_structure` up to the hand-over to the hybrid mode, as written: the
      entries are the valid ones, filtered by test id and limit; when no browser is open, one
      is opened, sent to the site and its menus expanded; `from_cache`, the overrides and the
      session flag are only logged or ignored. */
  function ProcessItemsFromStructure(
    valid: seq<FlatEntry>, maxItems: Option<int>, testItemId: Option<string>,
    fromCache: bool, overrides: ExpansionOverrides, done: bool, hasDriver: bool
  ): (p: Prepared)
    ensures IsSubsequence(p.items, valid)
    ensures HasLimit(maxItems) ==> |p.items| <= maxItems.value
    ensures p.navigated <==> !hasDriver
    ensures p.expanded <==> !hasDriver
  {
    var items := FilterItemsForProcessing(valid, maxItems, testItemId);
    Prepared(items, !hasDriver, ExpandsAsWritten(hasDriver, fromCache, overrides, done))
  }

  /** The same preparation with the expansion rule of the processing tests: a live-parsed
      structure is always expanded, a cached one only on an override and never after a full
      expansion. */
  function ProcessItemsFromStructureIntended(
    valid: seq<FlatEntry>, maxItems: Option<int>, testItemId: Option<string>,
    fromCache: bool, overrides: ExpansionOverrides, done: bool, hasDriver: bool
  ): (p: Prepared)
    ensures IsSubsequence(p.items, valid)
    ensures HasLimit(maxItems) ==> |p.items| <= maxItems.value
    ensures p.navigated <==> !hasDriver
    ensures !fromCache ==> p.expanded
    ensures fromCache ==> (p.expanded <==> AnyOverride(overrides) && !done)
  {
    var items := FilterItemsForProcessing(valid, maxItems, testItemId);
    Prepared(items, !hasDriver, ShouldExpand(fromCache, overrides, done))
  }

  /** The two preparations select and navigate alike; they differ only in the expansion,
      as on a cached structure with no override and no browser open. */
  lemma PreparationsDifferInExpansion(
    valid: seq<FlatEntry>, maxItems: Option<int>, testItemId: Option<string>,
    fromCache: bool, overrides: ExpansionOverrides, done: bool, hasDriver: bool)
    ensures var w, t := ProcessItemsFromStructure(valid, maxItems, testItemId, fromCache, overrides, done, hasDriver),
                        ProcessItemsFromStructureIntended(valid, maxItems, testItemId, fromCache, overrides, done, hasDriver);
      w.items == t.items && w.navigated == t.navigated
    ensures ProcessItemsFromStructure(valid, maxItems, testItemId, true, ExpansionOverrides(false, false, false), false, false).expanded
    ensures !ProcessItemsFromStructureIntended(valid, maxItems, testItemId, true, ExpansionOverrides(false, false, false), false, false).expanded
  {
  }
}
