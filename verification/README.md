# Wyrm core, modelled in Dafny

Wyrm scrapes a documentation site's sidebar and then saves every page the sidebar
links to as Markdown. This project models the scraper's core as pure Dafny functions and
methods, and proves properties about them. The modelled parts are:

- **Sidebar structure.** Two parsers turn the sidebar into header groups: the hierarchical
  one (`HierarchicalParser`) and the flat one with trailing headers (`StructureParser`).
  The flattener (`Flattening`) turns groups into the ordered entry list that is scraped.
  `ItemValidator` selects entries by id, text, test id and item limit.
- **Cached structure.** `StructureHandler` decides when a cached structure file may be
  reused: the file must decode, hold at least ten valid items, and more than a tenth of
  its items must be valid.
- **Resuming.** `ResumeManager` splits entries into existing and pending by their
  deterministic output paths. `PathBuilder` holds the slug rules that build those paths.
- **Orchestration.** `ItemProcessor` chooses between the sequential and parallel modes,
  gates menu expansion and processes one item. `ParallelOrchestrator` covers staggered
  task starts, the semaphore bound, result collection and the fall back to sequential
  processing. `WorkerCoordinator` hands items to workers round-robin and processes the
  batches. `Tallies` holds the processed/failed/skipped tallies.
- **Menu expansion.** `Navigation` is the bounded expansion loop, driven by an oracle of
  what each pass meets in the page. `MenuState` holds the menu-state cache and the retry
  helper.
- **Text and Markdown.** `HtmlCleaner`, `MarkdownConverter`, `MarkdownSanitizer`,
  `LinkResolver`, `Regex`, `Text` and `ScraperUtils` cover whitespace normalisation,
  comment and marker removal, blank-line collapsing, link resolution and filename
  sanitising. `ProgressService` holds the run's counters.

The model makes these abstractions:

- The DOM is an abstract tree of nodes: tags with a name, an optional app item and
  children, plus text nodes.
- Browser outcomes (clicks, waits, worker crashes, task results) are parameters.
- The file system is the set of paths that exist.
- A raised exception is `Err` of the `Result` type in `Wrappers`.
- Python's integers are unbounded, and so are Dafny's, so no wrap-around is modelled.

The model follows the code in these places:

- **Text nodes in the flat parser.** BeautifulSoup gives a text node a `name` of `None`, so
  `hasattr(element, 'name')` holds for it. The flat parser's position counter therefore
  advances on text nodes as well as on tags (`StructureParser.Advances`).
- **Expander icons.** An element counts as expandable when it holds any of the four icons
  the code looks for: expander, expanded, chevron-right and chevron-down.
- **Mode choice.** Sequential or parallel processing is chosen from the configuration and
  the estimated speed-up (wyrm/services/orchestration/item_processor.py). Processing falls
  back to sequential only when the parallel run raises. No rolling failure-rate threshold
  is kept; the source does not have one.
- **Menu expansion gating.** As written, the gating depends only on whether a driver is
  present. The tests expect it to depend on the cache flag and the overrides. Both versions
  are modelled (see Findings).

## Model

| member | source | states |
|---|---|---|
| `Flattening.CreateFlatEntry` | wyrm/services/structure_parser/flattening_utils.py:83-109 | an entry copies the item's id and type, carries the header, menu, parent menu text and depth it is given, and its text is whitespace-normalised by the formatter |
| `Flattening.FlattenItem` | wyrm/services/structure_parser/flattening_utils.py:50-81 | an item yields entries exactly when it passes validation; its own entry comes first (pre-order), every later entry is strictly deeper and shares its header, and there are never more entries than nodes |
| `Flattening.FlattenChildren` | wyrm/services/structure_parser/flattening_utils.py:124-145 | the children of a menu produce entries that sit inside a menu, one level deeper, under the same header, no more entries than child nodes |
| `Flattening.FlattenSidebarStructure` | wyrm/services/structure_parser/flattening_utils.py:22-48 | never more entries than nodes in all the groups' trees; top-level entries (depth 0) have no menu and no parent menu text; deeper entries have both, equal to each other; every entry's header is one of the groups' header texts |
| `Flattening.GroupsAreConcat` | wyrm/services/structure_parser/flattening_utils.py:33-45 | the flattened structure is each group's own items flattened under that group's header, one group after another |
| `Flattening.GroupBlock` | wyrm/services/structure_parser/flattening_utils.py:33-45 | group g's entries are exactly its own items flattened at depth 0 under its own header text ("Unknown Header" when it has none), after every earlier group's block and before every later one's |
| `Flattening.FlattenTopLevel` | wyrm/services/structure_parser/flattening_utils.py:33-45 | a group's top-level items are flattened at depth 0 with no menu, never producing more entries than nodes |
| `Flattening.HeaderNames` | wyrm/services/structure_parser/flattening_utils.py:34 | name g is group g's header text, "Unknown Header" when the group has none |
| `Flattening.AllKeptFlattensAll` | wyrm/services/structure_parser/flattening_utils.py:69-81 | when every node passes validation and every menu with children is expandable, each node yields exactly one entry (the output length equals the tree size) |
| `Flattening.AllKeptChildren` | wyrm/services/structure_parser/flattening_utils.py:137-145 | the same count for a list of children |
| `Flattening.RejectedDropsSubtree` | wyrm/services/structure_parser/flattening_utils.py:70-71 | an item that fails validation is dropped together with its whole subtree |
| `Flattening.MenuChildrenFollowMenu` | wyrm/services/structure_parser/flattening_utils.py:111-145 | for an expandable menu with children, every entry after the menu's own one at the next depth names the menu as both menu and parent menu text |
| `Flattening.ChildrenSplit` | wyrm/services/structure_parser/flattening_utils.py:137-145 | pre-order across siblings: the entries of the first j children all come before those of the remaining children |
| `Flattening.ChildAfterEarlierChildren` | wyrm/services/structure_parser/flattening_utils.py:137-145 | child j's entries come right after those of the children before it |
| `Flattening.ChildrenAreConcat` | wyrm/services/structure_parser/flattening_utils.py:137-145 | the children's entries are each child's own entries, one child after another |
| `HierarchicalParser.ParsedGroupsGood` | wyrm/services/structure_parser/hierarchical_parser.py:25-44 | every group of the parse holds only entries the entry filter accepts, each a menu exactly when expandable and with well-formed children |
| `HierarchicalParser.HeadersInOrder` | wyrm/services/structure_parser/hierarchical_parser.py:25-44 | the groups' header texts are exactly the header app items' texts, in document order |
| `HierarchicalParser.GroupContents` | wyrm/services/structure_parser/hierarchical_parser.py:25-82 | the number of groups is the number of header app items; group g is opened by the g-th header app item, carries its header text, and holds in document order the accepted entries of the app items between that header and the next one or the end |
| `HierarchicalParser.HeaderPositionsExact` | wyrm/services/structure_parser/hierarchical_parser.py:51-56 | a node position opens a group iff that node is a header app item |
| `HierarchicalParser.EntriesMembers` | wyrm/services/structure_parser/hierarchical_parser.py:58-82 | an entry lies in a group's range iff some app item there that is not a header yields it as its accepted entry |
| `HierarchicalParser.WalkHeaders` | wyrm/services/structure_parser/hierarchical_parser.py:31-40 | walking the remaining nodes appends one group per header met, in order, after the groups already there |
| `HierarchicalParser.WalkKeepsGood` | wyrm/services/structure_parser/hierarchical_parser.py:31-40 | walking the remaining nodes keeps every group well-formed |
| `HierarchicalParser.WalkIsWalkWith` | wyrm/services/structure_parser/hierarchical_parser.py:31-40 | the node walk is the walk over each position's header text and accepted entries |
| `HierarchicalParser.WalkWithGroups` | wyrm/services/structure_parser/hierarchical_parser.py:31-65 | from any start, every group the walk opens belongs to the next header position and holds the entries gathered up to the following header or the end |
| `HierarchicalParser.OpensComplete` | wyrm/services/structure_parser/hierarchical_parser.py:51-56 | every header position is among the positions that open a group |
| `HierarchicalParser.StepHeaders` | wyrm/services/structure_parser/hierarchical_parser.py:32-40 | a node adds a group exactly when it is a header app item, and leaves the earlier groups' headers as they are |
| `HierarchicalParser.StepEffect` | wyrm/services/structure_parser/hierarchical_parser.py:32-40 | a header app item opens a new, empty group at the end; any other node adds its accepted entry, if any, to the most recent group and changes nothing else |
| `HierarchicalParser.StepKeepsGood` | wyrm/services/structure_parser/hierarchical_parser.py:32-40 | a node keeps every group well-formed |
| `HierarchicalParser.Step` | wyrm/services/structure_parser/hierarchical_parser.py:32-40 | before any group exists a node that is not a header changes nothing |
| `HierarchicalParser.ProcessAppItem` | wyrm/services/structure_parser/hierarchical_parser.py:46-65 | an app item that is not a header, met before the first header, is dropped |
| `HierarchicalParser.ProcessAppItemEffect` | wyrm/services/structure_parser/hierarchical_parser.py:46-65 | a header opens a new, empty group at the end; any other app item, once a group exists, appends its accepted entry (if any) to the most recent group |
| `HierarchicalParser.AddToLast` | wyrm/services/structure_parser/hierarchical_parser.py:81-82 | an accepted entry is appended to the most recent group only; every earlier group and every header is untouched |
| `HierarchicalParser.AddToLastKeepsGood` | wyrm/services/structure_parser/hierarchical_parser.py:81-82 | appending an accepted entry keeps all groups well-formed and their headers unchanged |
| `HierarchicalParser.ProcessClickableItem` | wyrm/services/structure_parser/hierarchical_parser.py:67-71 | an app item without a clickable li yields nothing |
| `HierarchicalParser.ClickableAccepted` | wyrm/services/structure_parser/hierarchical_parser.py:73-82 | an app item with a clickable li yields the entry built for it exactly when the entry filter accepts that entry, and then yields that very entry |
| `HierarchicalParser.ClickableGood` | wyrm/services/structure_parser/hierarchical_parser.py:67-82 | any entry produced passes the entry filter and is well-formed |
| `HierarchicalParser.CandidateShape` | wyrm/services/structure_parser/hierarchical_parser.py:73-79 | the entry built for a clickable li is a menu exactly when the li is expandable, and carries the li's id and the text extracted for its kind |
| `HierarchicalParser.MenuEntry` | wyrm/services/structure_parser/hierarchical_parser.py:84-98 | a menu entry has type "menu", is expandable, keeps the li's id and menu text, and all its children are id-bearing plain items |
| `HierarchicalParser.ItemEntry` | wyrm/services/structure_parser/hierarchical_parser.py:100-111 | an item entry has type "item", is not expandable, has no children and keeps the li's id and item text |
| `HierarchicalParser.ChildItems` | wyrm/services/structure_parser/hierarchical_parser.py:113-131 | a menu's children are well-formed plain items, at most one per child app item |
| `HierarchicalParser.ChildItemsInOrder` | wyrm/services/structure_parser/hierarchical_parser.py:113-131 | a menu's children are, in document order, exactly the children its `ul`'s app items contribute, the rejected ones left out |
| `HierarchicalParser.ProcessChildItem` | wyrm/services/structure_parser/hierarchical_parser.py:133-152 | a child is kept only when it has a clickable li, its text is not skip-text, and it has both text and id; it is then the child entry for that text and id |
| `HierarchicalParser.ShouldAddEntry` | wyrm/services/structure_parser/hierarchical_parser.py:154-175 | an entry is added iff its text is not skip-text, it is not an item without id, and its text and type are non-empty |
| `HierarchicalParser.ItemsBeforeFirstHeaderDropped` | wyrm/services/structure_parser/hierarchical_parser.py:58-61 | app items before the first header leave no trace: walking past them from no groups is the same as starting after them |
| `HierarchicalParser.OneGroupPerHeader` | wyrm/services/structure_parser/hierarchical_parser.py:51-56 | the number of groups equals the number of header app items |
| `HtmlCleaner.DetectStructureType` | wyrm/services/structure_parser/html_cleaner.py:61-87 | a configured layout other than "unknown" is returned as is; for "unknown" the result is flat iff there are more id-less than id-bearing items and at least one header, and hierarchical otherwise |
| `HtmlCleaner.ExtractHeaderInfo` | wyrm/services/structure_parser/html_cleaner.py:107-125 | an app item is a header iff it has a header li; the text is "Unknown Header" without an anchor and the cleaned anchor text otherwise |
| `HtmlCleaner.HeaderTextNormalized` | wyrm/services/structure_parser/html_cleaner.py:89-105 | a cleaned header text has single spaces between words, no outer whitespace, and the words of the anchor text once the Angular comment markers are removed |
| `HtmlCleaner.IsExpandableElement` | wyrm/services/structure_parser/html_cleaner.py:127-146 | an element is not expandable exactly when none of the standard expander, expanded, chevron-right or chevron-down icons is present |
| `HtmlCleaner.NextTag` | wyrm/services/structure_parser/html_cleaner.py:157-159 | the next sibling is the first tag after the element; only text nodes lie before it |
| `HtmlCleaner.FindMenuChildren` | wyrm/services/structure_parser/html_cleaner.py:148-161 | a menu has children iff its next sibling tag is a `ul`, and they are that `ul`'s child nodes |
| `HtmlCleaner.FindNestedItems` | wyrm/services/structure_parser/html_cleaner.py:163-184 | the result is exactly the nested clickable elements that carry an id, in document order and as often as they occur; the menu itself is never among them |
| `HtmlCleaner.KeepWithId` | wyrm/services/structure_parser/html_cleaner.py:175-182 | the filtering loop keeps exactly the id-bearing elements, in their order |
| `ItemProcessor.ProcessItemsHybridMode` | wyrm/services/orchestration/item_processor.py:103-184 | the parallel run is attempted iff concurrency is enabled, there are at least 5 entries and the estimated speedup is at least 1.3; the one-by-one loop runs iff the parallel run was not attempted or raised, and then raises before its first entry iff the progress service has no display, and otherwise handles every entry by the single-entry rule; a successful parallel tally accounts for every entry; with a display and retries left the parallel run never raises; without a display every route ends in an error |
| `ItemProcessor.ProcessItemsHybridModeAsWritten` | wyrm/services/orchestration/item_processor.py:123-132 | as written (no progress display), the parallel attempt, when made, raises, and the one-by-one loop runs and raises before any entry |
| `ItemProcessor.ProcessItemsHybridModeIntended` | wyrm/services/orchestration/item_processor.py:103-184 | with a display and the intended skip check, the sequential loop decides every entry by the intended single-entry rule and advances the bar once per entry when no navigation returns false; with retries left the parallel run succeeds and accounts for every entry |
| `ItemProcessor.AfterSkipCheck` | wyrm/services/orchestration/item_processor.py:320-346 | once past the existence check, an entry is processed iff navigation succeeds and saving does not raise, is left alone iff navigation returns false, and otherwise fails inside its own handler |
| `ItemProcessor.ProcessSingleItemAsWritten` | wyrm/services/orchestration/item_processor.py:309-318 | as written, without force the existence lookup raises before navigation, so every entry is aborted; with force the entry goes straight to navigation |
| `ItemProcessor.ProcessSingleItem` | wyrm/services/orchestration/item_processor.py:309-346 | an entry is skipped iff force is off and a file is at its expected output path; when not skipped, it is processed iff navigation and saving succeed, not navigated iff navigation returns false, and failed iff navigation or saving raises; it never aborts |
| `ItemProcessor.SkipCheckAlwaysRaises` | wyrm/services/orchestration/item_processor.py:310-313 | for an entry with no file and a successful navigation, the code as written aborts while the intended check processes it |
| `ItemProcessor.ProcessEach` | wyrm/services/orchestration/item_processor.py:255-278 | every entry is handled, in order, by the given single-entry rule, whatever earlier entries did (an entry that aborts does not stop the rest); the bar advances once per skipped, processed or failed entry |
| `ItemProcessor.ProcessItemsWithProgress` | wyrm/services/orchestration/item_processor.py:235-278 | the loop raises before its first entry exactly when the progress service has no display; otherwise every entry is handled in order by the single-entry rule |
| `ItemProcessor.AsWrittenLoopAbortsEach` | wyrm/services/orchestration/item_processor.py:260-318 | with the skip check as written and force off, every entry aborts, yet every entry is still visited, and the bar never advances |
| `ItemProcessor.IntendedLoopAdvancesPerEntry` | wyrm/services/orchestration/item_processor.py:309-346 | with the intended skip check, when no navigation returns false, the bar advances exactly once per entry |
| `ItemProcessor.ShouldExpandMeetsTests` | tests/test_orchestrator_process_items.py:101-324 | the intended gating rule gives the seven expansion outcomes the processing tests assert |
| `ItemProcessor.ExpandsAsWrittenIgnoresCache` | wyrm/services/orchestration/item_processor.py:64-96 | as written, expansion depends only on whether a browser is already open, never on from_cache; with no browser it expands cached structures the tests say must not be expanded |
| `ItemProcessor.ProcessItemsFromStructure` | wyrm/services/orchestration/item_processor.py:55-96 | the entries processed are an order-preserving selection of the valid ones within the limit; a browser is opened and sent to the site iff none is open, and the menus are expanded exactly then, whether the structure came from the cache or not |
| `ItemProcessor.ProcessItemsFromStructureIntended` | tests/test_orchestrator_process_items.py:101-324 | the same selection and navigation, with the tests' expansion rule: a live-parsed structure is always expanded, a cached one iff an override asks for it and no full expansion has happened |
| `ItemProcessor.PreparationsDifferInExpansion` | wyrm/services/orchestration/item_processor.py:80-96 | the two preparations select and navigate alike, and differ on a cached structure with no override and no open browser |
| `ItemValidator.GetValidItems` | wyrm/services/parsing/item_validator.py:22-31 | every entry kept is valid and comes from the input |
| `ItemValidator.GetValidItemsExact` | wyrm/services/parsing/item_validator.py:33-49 | an entry is kept iff it is in the input with a truthy id and a non-empty text, and the kept entries keep their order |
| `ItemValidator.IdMatches` | wyrm/services/parsing/item_validator.py:69-79 | with a truthy test id only entries with exactly that id remain, in input order |
| `ItemValidator.IdMatchesExact` | wyrm/services/parsing/item_validator.py:70-79 | the id filter keeps exactly the entries carrying the test id, and every entry when there is no test id |
| `ItemValidator.FilterItemsForProcessing` | wyrm/services/parsing/item_validator.py:51-88 | the result is an order-preserving selection of the valid entries: a prefix of the id-filtered list of length min(n, max_items) when a positive limit is set, the whole id-filtered list otherwise (None, zero and negative limits mean no limit) |
| `ItemValidator.NoFilterKeepsAll` | wyrm/services/parsing/item_validator.py:67-88 | with no test id and no limit every valid entry is processed, unchanged |
| `LinkResolver.SyntheticBody` | wyrm/services/structure_parser/link_resolver.py:52-57 | the body of a synthetic id holds only lower-case word characters and '-', never starts or ends with '-', and never has two '-' in a row |
| `LinkResolver.SyntheticStages` | wyrm/services/structure_parser/link_resolver.py:53-56 | after lower-casing, removing special characters and collapsing whitespace and '-' runs, only slug characters remain and no two '-' touch |
| `LinkResolver.TrimmedDashes` | wyrm/services/structure_parser/link_resolver.py:57 | stripping the outer '-' keeps those two facts and leaves no '-' at either end |
| `LinkResolver.GenerateSyntheticId` | wyrm/services/structure_parser/link_resolver.py:43-59 | a synthetic id always begins with "synthetic-" and the rest is the body computed from the text |
| `LinkResolver.SyntheticIdIgnoresCase` | wyrm/services/structure_parser/link_resolver.py:53 | the synthetic id is the same for a text and its lower-cased form |
| `LinkResolver.LooksLikeApiEndpoint` | wyrm/services/structure_parser/link_resolver.py:61-78 | true iff one of the sixteen fixed patterns, lower-cased, occurs in the lower-cased text |
| `LinkResolver.AnyPatternIn` | wyrm/services/structure_parser/link_resolver.py:78 | the `any(...)` scan is true iff some pattern occurs |
| `LinkResolver.EndpointIgnoresCase` | wyrm/services/structure_parser/link_resolver.py:77-78 | the endpoint test gives the same answer for a text and its lower-cased form |
| `LinkResolver.ResolveItemId` | wyrm/services/structure_parser/link_resolver.py:80-100 | an existing id is kept; a missing id on endpoint-like text becomes exactly the synthetic id generated from the text; otherwise no usable id; so the result is usable iff there was an id or the text looks like an endpoint |
| `LinkResolver.ValidateIdRequirement` | wyrm/services/structure_parser/link_resolver.py:102-124 | the requirement fails exactly for an "item" without an id; menus always pass |
| `LinkResolver.NormalizeId` | wyrm/services/structure_parser/link_resolver.py:162-180 | the result is the input with a run of whitespace, '-' and '_' cut off each end, and neither of its ends is such a character; empty input comes back empty |
| `LinkResolver.NormalizeIdSlice` | wyrm/services/structure_parser/link_resolver.py:175-178 | stripping whitespace and then edge characters leaves a slice of the id with only edge characters outside it |
| `LinkResolver.NormalizeIdIdempotent` | wyrm/services/structure_parser/link_resolver.py:175-178 | normalising a normalised id changes nothing |
| `LinkResolver.NormalizeIdKeepsClean` | wyrm/services/structure_parser/link_resolver.py:175-178 | an id with no edge characters at its ends is returned unchanged |
| `LinkResolver.CreateReferenceMap` | wyrm/services/structure_parser/link_resolver.py:182-199 | every key maps to an item of the list whose non-empty id normalises to that key |
| `LinkResolver.ReferenceMapBy` | wyrm/services/structure_parser/link_resolver.py:193-197 | the same for any key function |
| `LinkResolver.LastWithKey` | wyrm/services/structure_parser/link_resolver.py:193-197 | reference definition: the last position whose item has that key, or none when no item has it |
| `LinkResolver.ReferenceMapLastWins` | wyrm/services/structure_parser/link_resolver.py:193-197 | a normalised id is a key iff some item carries it, and it maps to the last such item: later items overwrite earlier ones |
| `LinkResolver.ReferenceMapByLastWins` | wyrm/services/structure_parser/link_resolver.py:193-197 | the same for any key function, by induction on the list |
| `LinkResolver.ValidateReferences` | wyrm/services/structure_parser/link_resolver.py:201-223 | the errors are exactly the items, in list order and as often as they occur, that have an id whose normalised form the reference map does not bind to that very item |
| `LinkResolver.DuplicateErrors` | wyrm/services/structure_parser/link_resolver.py:213-221 | an item is reported only when its id's key is missing from the map or bound to a different item |
| `LinkResolver.DuplicateErrorsExact` | wyrm/services/structure_parser/link_resolver.py:213-221 | the loop reports exactly the items whose key is missing from the map or bound to a different item, in order and with multiplicity |
| `LinkResolver.ReportedIffOverwritten` | wyrm/services/structure_parser/link_resolver.py:193-221 | an item with an id is reported iff the last item with the same normalised id is a different item |
| `LinkResolver.DistinctIdsNoErrors` | wyrm/services/structure_parser/link_resolver.py:213-221 | items whose normalised ids are pairwise different produce no errors |
| `LinkResolver.NoErrorsWhenMapped` | wyrm/services/structure_parser/link_resolver.py:218-221 | when every item with an id is the one its key maps to, nothing is reported |
| `LinkResolver.DuplicateIsReported` | wyrm/services/structure_parser/link_resolver.py:218-221 | of two unequal items sharing a normalised id, the earlier one is reported and the later one is not |
| `LinkResolver.DuplicateIsReportedBy` | wyrm/services/structure_parser/link_resolver.py:218-221 | the same for any key function |
| `MarkdownConverter.CleanNormalizes` | wyrm/services/structure_parser/markdown_converter.py:87-103 | the cleaned text has single spaces between words and none at the ends, and its words are exactly the words of the text once every "<!---->" is removed |
| `MarkdownConverter.CleanIdempotent` | wyrm/services/structure_parser/markdown_converter.py:96-103 | cleaning a cleaned text changes nothing, provided the cleaned text holds no marker of its own |
| `MarkdownConverter.CleanNotIdempotentOnNestedMarker` | wyrm/services/structure_parser/markdown_converter.py:100 | for "<!--<!---->-->" one cleaning leaves "<!---->" and a second cleaning leaves "", so cleaning is not idempotent on every input |
| `MarkdownConverter.RemoveNestedMarker` | wyrm/services/structure_parser/markdown_converter.py:100 | removing the inner marker of "<!--<!---->-->" joins its two halves into a new marker |
| `MarkdownConverter.SkipOne` | wyrm/services/structure_parser/markdown_converter.py:100 | a text that differs from the marker at some place before its end keeps its first character under marker removal |
| `MarkdownConverter.MarkerStripped` | wyrm/services/structure_parser/markdown_converter.py:100 | the marker has no outer whitespace |
| `MarkdownConverter.MarkerIsOneWord` | wyrm/services/structure_parser/markdown_converter.py:101 | the marker is a single word, so the whitespace join keeps it |
| `MarkdownConverter.RemoveMarkerItself` | wyrm/services/structure_parser/markdown_converter.py:100 | removing the marker from the marker leaves nothing |
| `MarkdownConverter.AllWhitespaceIffStripEmpty` | wyrm/services/structure_parser/markdown_converter.py:146 | `text.strip() == ""` holds exactly when every character is whitespace |
| `MarkdownConverter.ShouldSkipCharacterized` | wyrm/services/structure_parser/markdown_converter.py:130-156 | an item is skipped iff its text is "Overview", is empty or whitespace-only, or is one of the five placeholder texts |
| `MarkdownConverter.ValidateItemData` | wyrm/services/structure_parser/markdown_converter.py:158-182 | a non-menu entry is valid iff its id, text and type are all truthy; a menu iff its text is non-empty; a valid entry always has text and type |
| `MarkdownConverter.MenuNeedsNoId` | wyrm/services/structure_parser/markdown_converter.py:171-180 | a menu with text is valid with or without an id |
| `MarkdownConverter.FormatItemEntry` | wyrm/services/structure_parser/markdown_converter.py:105-128 | the entry's text is the stripped and cleaned text (single-spaced, the marker-free words); a missing type becomes "item" and a missing level 0; id, header, menu and parent menu text are copied |
| `MarkdownConverter.CreateChildEntry` | wyrm/services/structure_parser/markdown_converter.py:203-218 | a child entry is always a plain, non-expandable item without children, carrying the given id |
| `MarkdownConverter.ChildEntryTextClean` | wyrm/services/structure_parser/markdown_converter.py:214 | a child entry's text is the cleaned form of the text it was made from |
| `MarkdownConverter.FirstLong` | wyrm/services/structure_parser/markdown_converter.py:52-57 | reference definition: the first selector text whose cleaned form is longer than one character, every earlier one being at most one character |
| `MarkdownConverter.ScanPicksFirstLong` | wyrm/services/structure_parser/markdown_converter.py:52-73 | the selector loop ends on the cleaned first long text; with none it ends on the starting text or on a text of at most one character |
| `MarkdownConverter.ScanFindsLong` | wyrm/services/structure_parser/markdown_converter.py:52-57 | the loop breaks at the first long text |
| `MarkdownConverter.ScanWithoutLong` | wyrm/services/structure_parser/markdown_converter.py:52-57 | without a long text the loop never produces one |
| `MarkdownConverter.ScanAllEmpty` | wyrm/services/structure_parser/markdown_converter.py:53-54 | when every selector text is empty the current text is never replaced |
| `MarkdownConverter.Take` | wyrm/services/structure_parser/markdown_converter.py:83 | `s[:n]` is a prefix of at most n characters, the whole string when it is short enough |
| `MarkdownConverter.ExtractItemText` | wyrm/services/structure_parser/markdown_converter.py:26-85 | the extracted text is never empty |
| `MarkdownConverter.ExtractItemTextChoice` | wyrm/services/structure_parser/markdown_converter.py:39-85 | the first long selector text wins unless it is a placeholder; with no selector text at all, a whole-element text longer than one character is used, cut to 100 characters |
| `MarkdownConverter.MenuWithoutTextIsUnknownItem` | wyrm/services/structure_parser/markdown_converter.py:39-85 | a menu with no selector text and no whole-element text is named "Unknown Item", not "Unknown Menu", because the scan starts from "Unknown Item" |
| `MarkdownConverter.ChildTextChoice` | wyrm/services/structure_parser/markdown_converter.py:184-201 | a child with a non-empty item span gets that span's cleaned words; otherwise it falls back to the item text extraction, which is never empty |
| `MarkdownSanitizer.Lines` | wyrm/services/storage/markdown_sanitizer.py:203 | `content.split('\n')` always yields at least one line |
| `MarkdownSanitizer.LinesConcat` | wyrm/services/storage/markdown_sanitizer.py:203 | splitting two texts joined by a newline gives the lines of the first followed by the lines of the second |
| `MarkdownSanitizer.LinesAvoid` | wyrm/services/storage/markdown_sanitizer.py:270 | a character absent from the text is absent from each of its lines |
| `MarkdownSanitizer.UnlinesAvoid` | wyrm/services/storage/markdown_sanitizer.py:273 | a character other than the newline that no line holds is absent from their join |
| `MarkdownSanitizer.LinesOfMapLines` | wyrm/services/storage/markdown_sanitizer.py:203-218 | when a per-line rewrite adds no newline, the lines of the rewritten text are the rewritten lines, one for one |
| `MarkdownSanitizer.HashRun` | wyrm/services/storage/markdown_sanitizer.py:210 | the `#+` group: the longest run of '#' at the start |
| `MarkdownSanitizer.HashRunOf` | wyrm/services/storage/markdown_sanitizer.py:210 | a block of '#' followed by something other than '#' is a run of exactly that length |
| `MarkdownSanitizer.TrimLeftPast` | wyrm/services/storage/markdown_sanitizer.py:210 | left trimming skips exactly a leading block of trimmed characters |
| `MarkdownSanitizer.StripPrefixOfLStrip` | wyrm/services/storage/markdown_sanitizer.py:208-210 | the stripped line is a prefix of the left-stripped line, so both start with the same characters |
| `MarkdownSanitizer.HeaderLineFacts` | wyrm/services/storage/markdown_sanitizer.py:208-210 | a header line's indentation is followed by '#', and a line whose stripped form starts with "# " has "# " after its indentation |
| `MarkdownSanitizer.FixHeaderLine` | wyrm/services/storage/markdown_sanitizer.py:206-216 | a line whose stripped form does not start with '#' is unchanged; a header line whose '#' run is followed by something other than a space becomes its indentation, the run, one space and the rest left-stripped; every header line comes out with its '#' run followed by a space or by nothing; no newline is introduced |
| `MarkdownSanitizer.HashRunAfterFix` | wyrm/services/storage/markdown_sanitizer.py:214 | in the rewritten line the '#' run is exactly the original hashes and is followed by a space |
| `MarkdownSanitizer.FixedChars` | wyrm/services/storage/markdown_sanitizer.py:214 | the rewritten line takes its characters from the original line plus one space, so it holds no newline |
| `MarkdownSanitizer.SpacedHeaderUnchanged` | wyrm/services/storage/markdown_sanitizer.py:208-214 | a line whose '#' run is already followed by a space or by nothing is left alone |
| `MarkdownSanitizer.FixHeaderLineIdempotent` | wyrm/services/storage/markdown_sanitizer.py:206-216 | fixing a line twice is the same as fixing it once |
| `MarkdownSanitizer.FixHeaderFormatting` | wyrm/services/storage/markdown_sanitizer.py:194-218 | the result has the same number of lines as the input, each one the fixed form of the corresponding input line |
| `MarkdownSanitizer.FixHeaderFormattingIdempotent` | wyrm/services/storage/markdown_sanitizer.py:203-218 | applying the header pass twice is the same as applying it once |
| `MarkdownSanitizer.Spaces` | wyrm/services/storage/markdown_sanitizer.py:267 | the padding a tab becomes: exactly k spaces |
| `MarkdownSanitizer.ExpandTabsFrom` | wyrm/services/storage/markdown_sanitizer.py:267 | `expandtabs(4)` leaves no tab and keeps every newline |
| `MarkdownSanitizer.ExpandTabStop` | wyrm/services/storage/markdown_sanitizer.py:267 | a tab advances to the next multiple of 4 columns, contributing between 1 and 4 spaces |
| `MarkdownSanitizer.ExpandTabsNoTab` | wyrm/services/storage/markdown_sanitizer.py:267 | text without tabs is unchanged by tab expansion |
| `MarkdownSanitizer.RStripStripped` | wyrm/services/storage/markdown_sanitizer.py:271 | right-stripping is idempotent and keeps a prefix of the line |
| `MarkdownSanitizer.NormalizeWhitespace` | wyrm/services/storage/markdown_sanitizer.py:257-273 | line i of the result is line i of the tab-expanded text, right-stripped; so the result holds no tab, has as many lines as the input, and no line ends in whitespace |
| `MarkdownSanitizer.NormalizeWhitespaceIdempotent` | wyrm/services/storage/markdown_sanitizer.py:266-273 | normalising twice is the same as normalising once |
| `MarkdownSanitizer.Newlines` | wyrm/services/storage/markdown_sanitizer.py:285 | a run of exactly n newlines |
| `MarkdownSanitizer.NoTripleAround` | wyrm/services/storage/markdown_sanitizer.py:285 | three newlines in a row cannot straddle a character that is not a newline |
| `MarkdownSanitizer.NoTripleSlice` | wyrm/services/storage/markdown_sanitizer.py:285 | a slice of a text without three newlines in a row has none either |
| `MarkdownSanitizer.CollapseNoTriple` | wyrm/services/storage/markdown_sanitizer.py:285 | the replacement scan, started after at most two newlines, never produces three in a row |
| `MarkdownSanitizer.CollapseKeepsText` | wyrm/services/storage/markdown_sanitizer.py:285 | the replacement scan keeps every character other than the newline, in order |
| `MarkdownSanitizer.CollapseFixpoint` | wyrm/services/storage/markdown_sanitizer.py:285 | a text with no `\n{3,}` match is left unchanged by the scan |
| `MarkdownSanitizer.CollapseUnchanged` | wyrm/services/storage/markdown_sanitizer.py:285 | the same, from the start of the text |
| `MarkdownSanitizer.LeadingNewlines` | wyrm/services/storage/markdown_sanitizer.py:285 | the maximal newline run at the start: all newlines, followed by a non-newline or the end |
| `MarkdownSanitizer.CollapseNewlineRun` | wyrm/services/storage/markdown_sanitizer.py:285 | scanning a run of newlines writes at most two in all, then continues with the updated count |
| `MarkdownSanitizer.CollapseMatchesRuns` | wyrm/services/storage/markdown_sanitizer.py:285 | the scan equals the run-by-run substitution: a maximal run of k >= 3 newlines becomes two, shorter runs and every other character are copied |
| `MarkdownSanitizer.RemoveExcessiveEmptyLines` | wyrm/services/storage/markdown_sanitizer.py:275-287 | every maximal run of three or more newlines becomes exactly two and shorter runs are kept; hence no three newlines are adjacent; the characters other than newlines are exactly those of the input, in order; text with no such run is unchanged |
| `MarkdownSanitizer.RemoveExcessiveEmptyLinesIdempotent` | wyrm/services/storage/markdown_sanitizer.py:285 | the blank-line pass is idempotent |
| `MarkdownSanitizer.RemoveExcessiveEmptyLinesKeeps` | wyrm/services/storage/markdown_sanitizer.py:285 | a character other than the newline occurs in the result iff it occurs in the input |
| `MarkdownSanitizer.StripSlice` | wyrm/services/storage/markdown_sanitizer.py:70 | the stripped text is a contiguous slice of the original |
| `MarkdownSanitizer.FinalStrip` | wyrm/services/storage/markdown_sanitizer.py:70 | the final strip is idempotent and keeps the absence of tabs and of three adjacent newlines |
| `MarkdownSanitizer.RunPasses` | wyrm/services/storage/markdown_sanitizer.py:49-73 | a failing clean-up pass makes the whole block fail; on success the result is stripped, holds no tab when whitespace normalisation is on, and no three adjacent newlines when blank-line removal is on |
| `MarkdownSanitizer.SanitizeContent` | wyrm/services/storage/markdown_sanitizer.py:24-78 | empty or whitespace-only content gives ""; if a pass raises the original content comes back; otherwise the result is stripped, tab-free under whitespace normalisation and free of three adjacent newlines under blank-line removal |
| `MarkdownSanitizer.SanitizeOnlyStrips` | wyrm/services/storage/markdown_sanitizer.py:44-73 | with every option off and clean-up patterns that change nothing, sanitising is exactly a strip |
| `MarkdownSanitizer.ValidateCodeBlocks` | wyrm/services/storage/markdown_sanitizer.py:308-312 | the code blocks are valid iff the number of lines starting with three backticks is even |
| `MarkdownSanitizer.CodeBlocksJoin` | wyrm/services/storage/markdown_sanitizer.py:311-312 | the fence count of two documents joined by a newline is the sum of their counts, so the join is valid iff both or neither are |
| `MarkdownSanitizer.ValidateTables` | wyrm/services/storage/markdown_sanitizer.py:331-341 | tables are valid iff every line containing a pipe is, once stripped, empty or starts and ends with a pipe |
| `MarkdownSanitizer.TablesJoin` | wyrm/services/storage/markdown_sanitizer.py:333-341 | two documents joined by a newline have valid tables iff both do |
| `Navigation.FirstNoIcons` | wyrm/navigation.py:151-169 | reference definition: the first pass that finds no expander icon (presence wait timed out, empty list or lookup failure), every earlier pass having found one |
| `Navigation.Budget` | wyrm/navigation.py:143 | the number of passes the attempt limit allows: all of them without a limit, none for a limit of zero or less, at most the limit otherwise |
| `Navigation.ExpandAllMenus` | wyrm/navigation.py:131-275 | the loop runs min(budget, first icon-less pass + 1) passes, so never more than max_attempts; it clicks at most once per pass and the clicks are the clicking passes among those run; it stops on "no more icons" exactly when the last pass found none; it stops on the attempt budget only when no further pass is allowed; the final warning is given iff a limit is set and the attempts reached it |
| `ProgressService.SetTotalItems` | wyrm/services/progress_service.py:30-36 | only the total changes; the four counters keep their values |
| `ProgressService.Increment` | wyrm/services/progress_service.py:38-52 | each increment raises exactly its own counter by one and leaves the other counters and the total alone |
| `ProgressService.ApplyAllCounts` | wyrm/services/progress_service.py:24-52 | after any run of increments each counter has grown by the number of its events and the total is untouched |
| `ProgressService.IncrementsCommute` | wyrm/services/progress_service.py:38-52 | two increments give the same counters in either order |
| `ProgressService.GetStats` | wyrm/services/progress_service.py:73-85 | the statistics map has exactly the five report keys, each bound to its current counter |
| `ProgressService.StatsOfRun` | wyrm/services/progress_service.py:22-85 | starting from a fresh service, the reported statistics after a run are the event counts, with a total of 0 |
| `ProgressService.ResetCounters` | wyrm/services/progress_service.py:103-109 | every counter and the total are zero afterwards, whatever they were |
| `ProgressService.ResetThenRun` | wyrm/services/progress_service.py:103-109 | a reset forgets the past: a run after a reset ends where the same run from a fresh service ends |
| `MenuState.CacheExpansionState` | wyrm/services/navigation/menu_state.py:16-24 | the menu now maps to the new state; every other cached menu keeps its state; the keys are the old keys plus this menu |
| `MenuState.GetCachedState` | wyrm/services/navigation/menu_state.py:26-37 | a state comes back iff the menu is cached, and it is the cached state; an absent menu gives None |
| `MenuState.ClearCache` | wyrm/services/navigation/menu_state.py:39-42 | the cache is empty afterwards |
| `MenuState.GetAfterCache` | wyrm/services/navigation/menu_state.py:23-35 | reading a menu right after caching it gives the cached state; other menus read as before |
| `MenuState.GetAfterClear` | wyrm/services/navigation/menu_state.py:35-41 | after clearing, every menu reads as None |
| `MenuState.FirstSuccess` | wyrm/services/navigation/menu_state.py:62-66 | reference definition: the first attempt below the limit that succeeds, every earlier attempt failing |
| `MenuState.RetryOperation` | wyrm/services/navigation/menu_state.py:44-73 | with retries of 0 or less nothing is called and None comes back; otherwise at most `retries` calls are made, stopping right after the first success, whose value is returned; the call fails iff every attempt fails, and then the last attempt's error is raised again after exactly `retries` calls |
| `Models.MakeSidebarItem` | wyrm/models/scrape.py:13-47 | an item is accepted iff its text is not blank, its type is "item" or "menu" and its level is non-negative; an accepted item stores the stripped text and every other field as given; a rejection reports exactly the failing fields |
| `Models.StripStripped` | wyrm/models/scrape.py:38-40 | a stripped non-blank text stays non-blank and is its own strip |
| `Models.RevalidateSidebarItem` | wyrm/models/scrape.py:27-47 | validating a stored item again accepts it and yields the same item |
| `Models.MakeHeaderGroup` | wyrm/models/scrape.py:50-63 | a header group is accepted iff its header text is not blank, and stores it stripped; otherwise the one error is the empty header |
| `Models.ValidItems` | wyrm/models/scrape.py:80-83 | every valid item is a content item with an id, taken from the item list |
| `Models.MenuItems` | wyrm/models/scrape.py:85-88 | every menu item has type "menu" and comes from the item list |
| `Models.ContentItems` | wyrm/models/scrape.py:90-93 | every content item has type "item" and comes from the item list |
| `Models.ValidItemsExact` | wyrm/models/scrape.py:80-83 | an item is valid iff it is in the list with a non-None id (an empty id counts) and type "item"; the valid items keep the list's order |
| `Models.MenuAndContentPartition` | wyrm/models/scrape.py:75-93 | when every item is an item or a menu, the menu items and the content items split the list: their counts add up to `total_items`, they hold every item exactly as often as the list does, and each keeps the list's order |
| `Models.ValidItemsAreContent` | wyrm/models/scrape.py:80-93 | every valid item is a content item |
| `Models.MakeResumeInfo` | wyrm/models/scrape.py:135-154 | resume information is accepted iff its three counts are non-negative, and then holds exactly what was given; each negative count is reported once |
| `ParallelOrchestrator.CollectTaskResults` | wyrm/services/parallel_orchestrator.py:120-146 | True counts as processed, False or an exception as failed, anything else as skipped; the three counts add up to the number of tasks |
| `ParallelOrchestrator.FallbackToSequential` | wyrm/services/parallel_orchestrator.py:206-282 | the fallback raises before any item exactly when the progress service has no display; otherwise nothing is skipped, processed plus failed is the number of items, and the processed count is the number of successful workers (a worker that raises counts as failed) |
| `ParallelOrchestrator.StartDelays` | wyrm/services/parallel_orchestrator.py:103-118 | one delay per task, task i getting i times the start delay |
| `ParallelOrchestrator.StartDelaysStagger` | wyrm/services/parallel_orchestrator.py:109-111 | the first task starts at once and each later one a delay after its predecessor; with a non-negative delay the start times never decrease, and with a positive one every task but the first waits |
| `ParallelOrchestrator.NewSemaphore` | wyrm/services/parallel_orchestrator.py:87 | a semaphore can be created iff its value is non-negative, and starts with no worker inside |
| `ParallelOrchestrator.SemaphoreBound` | wyrm/services/parallel_orchestrator.py:87 | whatever the interleaving of acquires and releases, no more workers are inside the semaphore than its value |
| `ParallelOrchestrator.ProcessItemsParallel` | wyrm/services/parallel_orchestrator.py:37-162 | without a progress display every route raises; with one: with concurrency disabled the sequential fallback runs; a parallel run that completes reports its task tally; when it raises (a negative worker count included) the fallback runs iff max_parallel_retries is positive, and the error is re-raised otherwise; every tally accounts for all items |
| `PathBuilder.Slug` | wyrm/services/storage/path_builder.py:138-173 | empty input gives ""; a slug is never longer than 100 characters |
| `PathBuilder.SlugWellFormed` | wyrm/services/storage/path_builder.py:155-171 | every slug holds only lower-case ASCII letters, digits, '-' and '.', has no '-', '_' or '.' at either end, and is at most 100 characters long |
| `PathBuilder.StrippedWellFormed` | wyrm/services/storage/path_builder.py:157-167 | before the length limit the slug already has only slug characters and clean ends |
| `PathBuilder.DashedNoUnderscore` | wyrm/services/storage/path_builder.py:157-161 | after ASCII folding and the separator collapse every character is ASCII and no '_' is left |
| `PathBuilder.KeptLowersToSlugChars` | wyrm/services/storage/path_builder.py:164-167 | the characters the filter keeps lower-case to slug characters |
| `PathBuilder.CutWellFormed` | wyrm/services/storage/path_builder.py:170-171 | cutting a long clean slug to 100 characters and stripping the cut end gives a non-empty well-formed slug |
| `PathBuilder.SlugFixpoint` | wyrm/services/storage/path_builder.py:155-171 | a well-formed slug with no doubled '-' is its own slug |
| `PathBuilder.SlugCharsSurvive` | wyrm/services/storage/path_builder.py:157-167 | the characters of such a slug pass every stage unchanged |
| `PathBuilder.SlugIdempotent` | wyrm/services/storage/path_builder.py:138-173 | slugging a slug again changes nothing, provided the slug has no doubled '-' |
| `PathBuilder.HeaderDir` | wyrm/services/storage/path_builder.py:50-54 | at most one directory for the header |
| `PathBuilder.MenuDir` | wyrm/services/storage/path_builder.py:56-60 | at most one directory for the menu |
| `PathBuilder.FileName` | wyrm/services/storage/path_builder.py:65-72 | the file name always ends in ".md" |
| `PathBuilder.OutputFilePath` | wyrm/services/storage/path_builder.py:26-74 | the path is the base followed by at most two directories and then the file name |
| `PathBuilder.PathDirectories` | wyrm/services/storage/path_builder.py:47-63 | the header slug is a directory iff the header is non-blank with a non-empty slug; the menu slug is a directory iff the menu is non-blank, differs from the header and has a non-empty slug; nothing else is added |
| `PathBuilder.MenuSameAsHeaderOmitted` | wyrm/services/storage/path_builder.py:57 | a menu with the same text as its header gets no directory of its own |
| `PathBuilder.PathDirectoriesSafe` | wyrm/services/storage/path_builder.py:51-60 | every directory the builder adds is a non-empty well-formed slug, so none holds a '/' or is "." or ".." |
| `PathBuilder.FileStemWellFormed` | wyrm/services/storage/path_builder.py:66-68 | the stem of the file name is a non-empty slug: "untitled" replaces an empty one |
| `PathBuilder.UntitledIsSlug` | wyrm/services/storage/path_builder.py:68 | "untitled" is itself a well-formed slug |
| `PathBuilder.FileNameStem` | wyrm/services/storage/path_builder.py:71-72 | removing one trailing ".md" is undone by adding it back |
| `PathBuilder.FileNameRoundTrip` | wyrm/services/storage/path_builder.py:65-72 | ".md" is added exactly when the stem does not already end in it, so it is never doubled and the stem can be recovered |
| `PathBuilder.SafeText` | wyrm/services/storage/path_builder.py:92-99 | the text part of an id-based file name is at most 50 characters |
| `PathBuilder.ReplaceChar` | wyrm/services/storage/path_builder.py:95 | `str.replace` of one character: same length, that character replaced everywhere and nothing else changed |
| `PathBuilder.OutputFilename` | wyrm/services/storage/path_builder.py:76-101 | the name starts with the safe text and ends with "_", the id as Python formats it, and ".md" |
| `PathBuilder.SafeTextChars` | wyrm/services/storage/path_builder.py:92-95 | the safe text holds no space and only alphanumerics, '-' and '_' |
| `PathBuilder.SafeTextKeepsSafe` | wyrm/services/storage/path_builder.py:92-99 | a short text of alphanumerics, '-' and '_' without whitespace passes through unchanged |
| `PathBuilder.RStripKeepsUnspaced` | wyrm/services/storage/path_builder.py:94 | right-stripping text without whitespace changes nothing |
| `PathBuilder.NoSpaceUnreplaced` | wyrm/services/storage/path_builder.py:95 | replacing spaces in text without whitespace changes nothing |
| `PathBuilder.DebugPath` | wyrm/services/storage/path_builder.py:119-136 | the debug file sits directly in the debug directory, its name starting with "page_content_" and ending with "." and the file type |
| `PathBuilder.DebugPathNamesSlug` | wyrm/services/storage/path_builder.py:135-136 | the part of the debug file name after the prefix is the id's slug, a well-formed slug |
| `ResumeManager.CheckExistingFiles` | wyrm/services/storage/resume_manager.py:52-99 | the entries are split into those whose expected output file exists and those whose file does not; together the two lists hold every entry exactly as often as the input does, and each keeps the input order |
| `ResumeManager.DisplayResumeInfo` | wyrm/services/storage/resume_manager.py:126-169 | the report's total, existing and remaining counts are the three list lengths; the first min(5, N) of the N pending entries are listed, then "... and N-5 more" exactly when more than 5 are pending, so listed plus more is the pending count; "all processed" iff nothing is pending |
| `ResumeManager.ReportCountsAddUp` | wyrm/services/storage/resume_manager.py:141-143 | when the two lists split the valid entries, the total is the existing count plus the remaining count |
| `Regex.KeepWordSpaceDash` | scraper/utils.py:94 | the character filter never lengthens its input |
| `Regex.KeepWordSpaceDashSpec` | scraper/utils.py:94 | every surviving character is a word character, whitespace or '-', and occurs in the input |
| `Regex.KeepWordSpaceDashKeepsAll` | scraper/utils.py:94 | text made only of word characters, whitespace and '-' passes the filter unchanged |
| `Regex.KeepWordSpaceDashConcat` | scraper/utils.py:94 | the filter works character by character: filtering a concatenation is concatenating the filtered parts |
| `Regex.CollapseRuns` | scraper/utils.py:95-97 | collapsing runs of separators never lengthens the text |
| `Regex.CollapseRunsSpec` | scraper/utils.py:95-97 | every output character is the replacement or a non-separator taken from the input |
| `Regex.CollapseRunsNoAdjacent` | scraper/utils.py:95-97 | when the replacement is itself a separator, no two separators stand side by side after collapsing |
| `Regex.CollapseRunsKeepsSingles` | scraper/utils.py:95-97 | text whose separators are already single replacement characters is left unchanged |
| `Regex.CollapsePlain` | scraper/utils.py:95-97 | a separator-free prefix passes through the collapse untouched |
| `Regex.CollapseRunThen` | scraper/utils.py:95-97 | a whole maximal run of separators becomes exactly one replacement character |
| `Regex.CollapseRunPlain` | scraper/utils.py:95-97 | a run of separators before plain text becomes one replacement followed by that text |
| `Regex.CollapseJoin` | scraper/utils.py:95-97 | two plain texts around a separator run come out joined by exactly one replacement |
| `Regex.TrimKeepsNoDoubles` | scraper/utils.py:98 | stripping the ends never creates two adjacent separators |
| `ScraperUtils.Slugify` | scraper/utils.py:84-103 | a slug is never empty |
| `ScraperUtils.SlugifyWellFormed` | scraper/utils.py:84-103 | every slug is the "_" placeholder or a non-empty run of lower-case ASCII letters, digits, '_' and '-' with neither '-' nor '_' at either end and no doubled '-' |
| `ScraperUtils.KeptChars` | scraper/utils.py:88-94 | after ASCII folding, lower-casing and the character filter only whitespace and slug characters remain |
| `ScraperUtils.DashedChars` | scraper/utils.py:95-97 | after collapsing, only slug characters remain and no two '-' are adjacent |
| `ScraperUtils.StrippedWellFormed` | scraper/utils.py:98-103 | stripping '-' and '_' from the ends leaves either nothing (replaced by "_") or a well-formed slug |
| `ScraperUtils.SlugFixpoint` | scraper/utils.py:84-103 | a well-formed slug is its own slug |
| `ScraperUtils.SlugCharsSurvive` | scraper/utils.py:88-98 | slug characters pass unchanged through folding, lower-casing, filtering and collapsing |
| `ScraperUtils.UnderscoreSlug` | scraper/utils.py:98-102 | the placeholder "_" is stripped to nothing and comes back as "_" |
| `ScraperUtils.SlugifyIdempotent` | scraper/utils.py:84-103 | slugifying twice gives the same result as slugifying once |
| `ScraperUtils.OutputFilePath` | scraper/utils.py:117-130 | the path is the base, then one directory per truthy header and per truthy menu, then the item slug with ".md" |
| `ScraperUtils.PathComponentsAreSlugs` | scraper/utils.py:120-130 | every component added below the base is a well-formed slug, the last one followed by ".md" |
| `ScraperUtils.SameHeaderAndMenuBothKept` | scraper/utils.py:121-124 | a header and menu with the same text give two equal directories; this builder does not deduplicate |
| `ScraperUtils.PlainWordSurvives` | scraper/utils.py:88-97 | lower-case letters and digits survive every stage and are not separators |
| `ScraperUtils.SeparatorSurvives` | scraper/utils.py:88-94 | '-' and whitespace survive folding, lower-casing and the filter |
| `ScraperUtils.SlugJoinsWords` | tests/test_utils.py:45-46 | lower-case analogue of the test: two plain lower-case words around any run of '-' and whitespace are joined by exactly one '-' |
| `ScraperUtils.SlugDropsLeadingSeparators` | tests/test_utils.py:62-63 | lower-case analogue of the test: a leading run of '-' and whitespace before a plain lower-case word disappears from the slug |
| `ScraperUtils.JoinStagesKeep` | scraper/utils.py:88-94 | plain words with a separator run between them pass the first three stages unchanged |
| `ScraperUtils.LeadingStagesKeep` | scraper/utils.py:88-94 | a separator run followed by a plain word passes the first three stages unchanged |
| `StructureHandler.ValidateRawItem` | wyrm/services/orchestration/structure_handler.py:209 | a decoded cache item becomes a sidebar item iff its text and type are present, the text is not blank, the type is "item" or "menu" and the level is not negative; the item built keeps its id and type |
| `StructureHandler.ValidateRawGroup` | wyrm/services/orchestration/structure_handler.py:207-208 | a decoded header group is accepted iff its header text is present and not blank |
| `StructureHandler.ValidateItems` | wyrm/services/orchestration/structure_handler.py:209 | the item list is accepted iff every item is, and then it holds each item's validated form in the same positions |
| `StructureHandler.ValidateGroups` | wyrm/services/orchestration/structure_handler.py:207-208 | the group list is accepted iff every group is |
| `StructureHandler.ValidateStructure` | wyrm/services/orchestration/structure_handler.py:207-210 | a cached structure validates iff all its groups and all its items do, and then keeps every item |
| `StructureHandler.RatioIsTenfold` | wyrm/services/orchestration/structure_handler.py:211 | the true-division test "valid / total > 0.1" holds iff ten times the valid count exceeds the total |
| `StructureHandler.ValidCount` | wyrm/services/orchestration/structure_handler.py:207-210 | the valid count exists iff the structure validates, and never exceeds the number of items |
| `StructureHandler.LoadStructureFromFile` | wyrm/services/orchestration/structure_handler.py:190-219 | the cached structure is used (returned with true) iff one was loaded, force is off, it validates, at least ten items are valid and more than a tenth of them; otherwise the result is no structure and false |
| `StructureHandler.RatioAboveChecked` | wyrm/services/orchestration/structure_handler.py:211 | once the count test has passed, the ratio test is the integer test on ten times the valid count |
| `StructureHandler.CacheMisses` | wyrm/services/orchestration/structure_handler.py:205-219 | force, any item that fails validation, or fewer than ten valid items each make the cache miss |
| `StructureHandler.HandleSidebarStructureAsWritten` | wyrm/services/orchestration/structure_handler.py:68-84 | on a cache miss the live parse is used and the expansion is recorded as done; on a hit the cached structure is used; the returned flag is true exactly for a live parse |
| `StructureHandler.HandleSidebarStructure` | wyrm/services/orchestration/workflow_manager.py:111-120 | the same selection, with the flag the caller reads as from_cache true exactly when the cached structure was used |
| `StructureHandler.FromCacheFlagInverted` | wyrm/services/orchestration/structure_handler.py:84 | on every input the flag as written is the negation of the intended one, while structure and expansion state agree |
| `StructureHandler.SampleItemValid` | wyrm/services/orchestration/structure_handler.py:209 | the example cached item validates and is ready for processing |
| `StructureHandler.TenItemCacheCount` | wyrm/services/orchestration/structure_handler.py:211 | a cache file of ten such items has ten valid items |
| `StructureHandler.CacheHitReportedAsLive` | wyrm/services/orchestration/structure_handler.py:84 | with that file and no force the cache is used, yet the flag as written reports it as not from the cache |
| `StructureParser.Parse` | wyrm/services/structure_parser/structure_parser.py:33-51 | empty HTML or a missing root list gives no groups; otherwise the groups are those of the flat parser when the detected layout is the flat one, and of the hierarchical parser in every other case |
| `StructureParser.DelegateParsing` | wyrm/services/structure_parser/structure_parser.py:53-57 | only the layout name "flat_with_trailing_header" selects the flat parser; every other name selects the hierarchical one |
| `StructureParser.ParseItemFromAppItem` | wyrm/services/structure_parser/structure_parser.py:135-198 | no clickable element means no item; a parsed item is never skipped text and always passes validate_item_data; its text is the extracted text; menus and only menus are expandable, recursively; an item's id is the resolved (possibly synthetic) id and it has no children; a menu keeps its own id |
| `StructureParser.PowerflexMenuChildren` | wyrm/services/structure_parser/structure_parser.py:200-248 | every child found, from the following list or from the nested elements, has a kind of "item" or "menu" that matches its expandable flag, all the way down |
| `StructureParser.ParseListChildren` | wyrm/services/structure_parser/structure_parser.py:219-230 | the children taken from the following list are well-kinded, never skipped text, and at most one per child node |
| `StructureParser.NestedChildren` | wyrm/services/structure_parser/structure_parser.py:232-240 | at most one child per nested element; each is a non-expandable "item" without children and always has an id ("unknown" when it had none) |
| `StructureParser.ScanFlat` | wyrm/services/structure_parser/structure_parser.py:72-99 | the first pass records exactly the reference walk of the nodes: the headers with their positions (`FlatHeaders`), the parsed items with their positions (`FlatItems`), both in nondecreasing position order and below the counter, and the counter ends moved once per non-header node |
| `StructureParser.FlatStep` | wyrm/services/structure_parser/structure_parser.py:73-99 | one node: a header app item appends its text at the current position and leaves the counter; an item app item that parses appends that item at the current position and moves the counter; any other node only moves the counter; nothing recorded before is changed |
| `StructureParser.AddHeader` | wyrm/services/structure_parser/structure_parser.py:82-89 | a header is recorded at the current position without moving the counter |
| `StructureParser.AddItem` | wyrm/services/structure_parser/structure_parser.py:92-99 | a parsed item is recorded at the current position and the counter moves on |
| `StructureParser.AdvanceOnly` | wyrm/services/structure_parser/structure_parser.py:99 | a node that yields nothing still moves the counter and records nothing |
| `StructureParser.Below` | wyrm/services/structure_parser/structure_parser.py:116 | every item kept lies before the header's position |
| `StructureParser.AtOrAbove` | wyrm/services/structure_parser/structure_parser.py:123 | every item kept lies at or after the header's position |
| `StructureParser.Data` | wyrm/services/structure_parser/structure_parser.py:106 | the item data are the recorded items, one for one and in order |
| `StructureParser.AssignToHeaders` | wyrm/services/structure_parser/structure_parser.py:111-128 | one group per header, in order, each titled with its header's text (which items each group receives is `StructureParser.AssignGroups`) |
| `StructureParser.ParseFlatStructure` | wyrm/services/structure_parser/structure_parser.py:60-133 | with no header node the result is the single "API Documentation" group holding every recorded item in document order; otherwise one group per header node, in document order, titled with that header's text |
| `StructureParser.SplitSorted` | wyrm/services/structure_parser/structure_parser.py:116-123 | on position-sorted items the items before a header followed by the rest are the items in their original order, and the rest stay sorted |
| `StructureParser.AssignKeepsAllItems` | wyrm/services/structure_parser/structure_parser.py:111-128 | the groups' children, one group after another, are exactly the recorded items in document order: none lost, none repeated, the leftovers in the last group |
| `StructureParser.AssignGroups` | wyrm/services/structure_parser/structure_parser.py:111-128 | which items each header receives: the first header the items positioned before it, header g the items positioned from header g-1's position up to its own, and the last header everything positioned from the previous header's position on, the leftovers included; each in document order |
| `StructureParser.FlatGroupsByPosition` | wyrm/services/structure_parser/structure_parser.py:60-133 | the same assignment stated for the groups of the flat layout over the recorded headers and items of the nodes |
| `StructureParser.FlatItemsFromNodes` | wyrm/services/structure_parser/structure_parser.py:90-99 | every node that parses to an item has that item recorded at the number of counter-moving nodes before it |
| `StructureParser.FlatItemsOnlyFromNodes` | wyrm/services/structure_parser/structure_parser.py:90-99 | every recorded item is the parse of some node, at that node's position |
| `StructureParser.FlatHeadersFromNodes` | wyrm/services/structure_parser/structure_parser.py:78-89 | every header app item has its text recorded at the number of counter-moving nodes before it |
| `StructureParser.FlatHeadersOnlyFromNodes` | wyrm/services/structure_parser/structure_parser.py:78-89 | every recorded header is the header text of some node, at that node's position |
| `StructureParser.FlatItemRecorded` | wyrm/services/structure_parser/structure_parser.py:90-99 | the item of any node that parses to one is among the recorded items' data |
| `StructureParser.FlatKeepsEveryItem` | wyrm/services/structure_parser/structure_parser.py:60-133 | the groups' children, one group after another, are exactly the recorded items in document order, the item of every node that parses to one is among them, and there is one group per header node or one default group when there is none |
| `StructureParser.FlatPositionCount` | wyrm/services/structure_parser/structure_parser.py:72-99 | the final counter is the number of nodes that are not header app items |
| `StructureParser.FlatWithoutHeaders` | wyrm/services/structure_parser/structure_parser.py:102-108 | when no node is a header app item there is one group, titled "API Documentation", whose children are all the recorded items in document order |
| `Tallies.TallyAttempts` | wyrm/services/orchestration/worker_coordinator.py:184-204 | each success counts as processed, each False result or exception as failed, nothing as skipped, so processed plus failed is the number of items |
| `Tallies.Merge` | wyrm/services/orchestration/worker_coordinator.py:206-215 | merging adds the counters, so the merged total is the sum of both totals |
| `Tallies.MergeCommutes` | wyrm/services/orchestration/worker_coordinator.py:127-130 | the order in which two batches complete does not change the merged counters |
| `Tallies.MergeAssociates` | wyrm/services/orchestration/worker_coordinator.py:127-130 | merging three batches gives the same counters however the merges are grouped |
| `Tallies.MergeEmpty` | wyrm/services/orchestration/worker_coordinator.py:101 | the all-zero starting counters are the unit of merging |
| `WorkerCoordinator.RoundRobin` | wyrm/services/orchestration/worker_coordinator.py:156-159 | there is one batch per worker; batch j holds the items at positions j, j + w, j + 2w, and so on, in order, so item i sits in batch i mod w at place i div w |
| `WorkerCoordinator.DistributeItems` | wyrm/services/orchestration/worker_coordinator.py:146-159 | a positive worker count yields that many round-robin batches; with no positive count an empty list yields no batches and a non-empty one raises |
| `WorkerCoordinator.BatchesBalanced` | wyrm/services/orchestration/worker_coordinator.py:156-159 | batch sizes differ by at most one, and batch j is non-empty exactly when j is below the item count |
| `WorkerCoordinator.BatchSizesAddUp` | wyrm/services/orchestration/worker_coordinator.py:156-159 | the batch sizes add up to the number of items |
| `WorkerCoordinator.DivModStep` | wyrm/services/orchestration/worker_coordinator.py:158 | stepping to the next position moves to the next batch, or wraps to batch 0 and one place further |
| `WorkerCoordinator.ProcessWorkerBatch` | wyrm/services/orchestration/worker_coordinator.py:161-204 | the batch reports its own size as total_items, counts each item once as processed or failed, never skips, and counts exactly the successes as processed |
| `WorkerCoordinator.ProcessWithThreadPool` | wyrm/services/orchestration/worker_coordinator.py:77-144 | with a positive worker count only non-empty batches are submitted, which are the first min(workers, items) ones; nothing is skipped, the total never exceeds the item count, and without a crashed batch every item is counted exactly once; with no positive worker count the call raises |
| `Text.TrimLeftSpec` | wyrm/services/storage/markdown_sanitizer.py:214 | lstrip returns a suffix of its input |
| `Text.TrimRightSpec` | wyrm/services/storage/markdown_sanitizer.py:271 | rstrip returns a prefix of its input |
| `Text.TrimSpec` | wyrm/services/structure_parser/markdown_converter.py:100 | a stripped text is empty or neither starts nor ends with a stripped character |
| `Text.TrimUnchanged` | wyrm/services/structure_parser/markdown_converter.py:100 | a text that neither starts nor ends with a stripped character is its own strip |
| `Text.BlankIffAllSpace` | wyrm/services/storage/markdown_sanitizer.py:44 | a text strips to nothing iff every character is whitespace |
| `Text.Lower` | wyrm/services/structure_parser/link_resolver.py:53 | lower-casing keeps the length and maps each character on its own |
| `Text.LowerIdempotent` | wyrm/services/structure_parser/link_resolver.py:53 | lower-casing twice is lower-casing once |
| `Text.LowerKeepsLower` | wyrm/services/structure_parser/link_resolver.py:53 | a text without upper-case letters is its own lower-case form |
| `Text.AsciiFold` | scraper/utils.py:88-92 | the ASCII fold never lengthens the text and leaves only ASCII characters |
| `Text.AsciiFoldKeepsAscii` | scraper/utils.py:88-92 | an ASCII text passes the fold unchanged |
| `Text.RemoveAll` | wyrm/services/structure_parser/markdown_converter.py:100 | removing every occurrence of a marker never lengthens the text |
| `Text.RemoveAllAbsent` | wyrm/services/structure_parser/markdown_converter.py:100 | a text without the marker is left unchanged |
| `Text.Words` | wyrm/services/structure_parser/markdown_converter.py:101 | split() yields non-empty words without whitespace |
| `Text.WordsJoinRoundTrip` | wyrm/services/structure_parser/markdown_converter.py:101 | splitting words joined by single spaces gives the same words back |
| `Text.JoinNormalized` | wyrm/services/structure_parser/markdown_converter.py:101 | words joined by single spaces have no leading, trailing or doubled whitespace |
| `Text.CollapseKeepsWords` | wyrm/services/structure_parser/markdown_converter.py:101 | normalizing the whitespace keeps the words, and the result is normalized |
| `Text.CollapseIdempotent` | wyrm/services/structure_parser/markdown_converter.py:101 | normalizing the whitespace twice is normalizing once |
| `Text.NormalizedStripped` | wyrm/services/structure_parser/markdown_converter.py:100-101 | normalized text is its own strip, so the strip before the split changes nothing |
| `Text.WordsStrip` | wyrm/services/structure_parser/markdown_converter.py:100-101 | stripping before split() does not change the words |
| `Text.SplitOn` | wyrm/services/storage/markdown_sanitizer.py:270 | split('\n') yields at least one part and no part holds the separator |
| `Text.JoinSplit` | wyrm/services/storage/markdown_sanitizer.py:270-273 | joining the parts of a split with the same separator rebuilds the text |
| `Text.SplitJoin` | wyrm/services/storage/markdown_sanitizer.py:270-273 | splitting parts joined by a separator none of them holds gives the parts back |
| `Text.SplitCount` | wyrm/services/storage/markdown_sanitizer.py:270 | a split yields one more part than there are separators |
| `Seqs.Filter` | wyrm/models/scrape.py:83 | the comprehension is never longer than its source and keeps only accepted elements of it |
| `Seqs.FilterComplete` | wyrm/models/scrape.py:83 | every accepted element of the source is kept |
| `Seqs.FilterIsSubsequence` | wyrm/models/scrape.py:83 | the kept elements stay in their source order |
| `Seqs.FilterPartition` | wyrm/models/scrape.py:86-93 | a comprehension and its negation together hold every element exactly as often as the source |
| `Seqs.FilterConcat` | wyrm/models/scrape.py:83 | filtering a concatenation is concatenating the filtered parts |
| `Seqs.ConcatSplit` | wyrm/services/structure_parser/flattening_utils.py:137-145 | appending each element's list in turn gives, over any split of the elements, the first part's lists followed by the second part's |
| `Seqs.Partition` | wyrm/services/storage/resume_manager.py:92-96 | one pass sends every element to exactly one of two lists, the accepted ones and the rest, each in source order |

## Left out

- Selenium and browser code: waits, scrolls, clicks, driver set-up and logging. Their outcomes are parameters of the model, such as the `Navigation` passes, the worker crash flags and the results of the asyncio tasks.
- BeautifulSoup selectors and markdownify. Node texts and candidate texts are given as data, and HTML-to-Markdown conversion is not modelled.
- The duplicate parsers and `file_operations` helpers outside the core. They are not part of this model.
- The `position` key of the flat layout's header groups (wyrm/services/structure_parser/structure_parser.py:84-88). `HeaderGroup` keeps only the header text and the children. The flat parser's scan records each header's position, and `StructureParser.AssignGroups` uses it, but the position is not part of the groups returned.
- File I/O and JSON. A cache file is modelled as its decoded value, and the output directory as the set of paths that exist.
- Real concurrency: asyncio, the thread pool and the semaphore. The semaphore is a counter of the workers inside it. The interleaving of tasks is any sequence of acquire and release requests.
- `estimate_processing_time`. The speed-up it estimates is a parameter of the mode choice.
- Floating point: the cache ratio test `valid / total > 0.1` is taken over exact rationals, and `StructureHandler.RatioIsTenfold` reduces it to `10 * valid > total`. Rounding of Python floats is not modelled.
- `Text.AsciiFold`: NFKD normalisation followed by an ASCII encode is modelled as dropping every non-ASCII character. Accented letters therefore vanish instead of losing their accents.
- `Text.Lower`: lower-casing is ASCII only, and so are `isalnum` and the regex word class. Unicode case tables are not modelled.
- `MarkdownSanitizer.SanitizeContent`: the cleanup-pattern pass and the table-spacing pass are function parameters. Their regular expressions are not modelled. The stripped, tab-free and no-triple-blank-line guarantees are stated only for a result that differs from the input, because an exception inside the passes returns the input unchanged.
- Sanitizer helpers outside the core, such as removing HTML comments and fixing code blocks. They are not part of this model.
- `Navigation.ExpandAllMenus`: when no attempt limit is set, a page that keeps offering icons loops forever in the source. The model stops when the oracle's passes run out and reports `PassesExhausted`.
- `MenuState.GetCachedState`: `cache.get` returns `None` both for a missing key and for a stored `None`. The model returns `Some` of the stored value, which keeps the two cases apart.
- Configuration loading, the command line, and the `sys.exit` in the resume check. The resume decision is returned instead.
- The worker coordinator's `execute_parallel_processing` (wyrm/services/orchestration/worker_coordinator.py:30-75) is not modelled beyond the thread pool it calls. It asks the progress service for the same missing display first (lines 57-61), as in the last Findings row.
- `WorkerCoordinator.ProcessWithThreadPool`: a worker batch that crashes counts as one failure. The items it had not yet processed are not counted.
- `MarkdownConverter.CleanIdempotent`: stated only for text whose cleaned form holds no comment marker. Cleaning is not idempotent in general; `MarkdownConverter.CleanNotIdempotentOnNestedMarker` shows that `<!--<!---->-->` cleans to a fresh comment.
- `PathBuilder.SlugIdempotent`: stated only for slugs without a doubled `-`. Slugging is not idempotent in general: `a-(-b` slugs to `a--b`, which slugs to `a-b`.

## Findings

| source | as written | input that shows it | evidently intended | confidence | as-written member | corrected member |
|---|---|---|---|---|---|---|
| wyrm/services/orchestration/structure_handler.py:84 | the second value returned is `not structure_is_valid`, and workflow_manager.py:111 receives it as `from_cache` | a cache file of ten valid items, with force off: the cache is used, but the flag reports a live parse | the flag is true exactly when the cached structure was used | not executed | `StructureHandler.HandleSidebarStructureAsWritten` (shown by `StructureHandler.CacheHitReportedAsLive`) | `StructureHandler.HandleSidebarStructure` (with `StructureHandler.FromCacheFlagInverted`) |
| wyrm/services/orchestration/item_processor.py:80-96 | menus are expanded exactly when no browser is open; `from_cache`, the overrides and the session's full-expansion flag are only logged or ignored | a cached structure, no override and no open browser: the code expands, but tests/test_orchestrator_process_items.py:101-139 expects no expansion | a live structure is always expanded; a cached one only on an override and never after a full expansion | not executed | `ItemProcessor.ProcessItemsFromStructure` with `ItemProcessor.ExpandsAsWritten` (shown by `ItemProcessor.ExpandsAsWrittenIgnoresCache` and `ItemProcessor.PreparationsDifferInExpansion`) | `ItemProcessor.ProcessItemsFromStructureIntended` with `ItemProcessor.ShouldExpand` (and `ItemProcessor.ShouldExpandMeetsTests`) |
| wyrm/services/orchestration/item_processor.py:310-313 | with force off, the skip check calls `storage_service.get_output_path`, which the storage service does not define, so the lookup raises | an entry with no output file, force off, and a navigation that succeeds: the entry is aborted instead of processed | the skip check looks at the entry's expected output path, skips when a file is there, and otherwise processes the entry | not executed | `ItemProcessor.ProcessSingleItemAsWritten` (shown by `ItemProcessor.SkipCheckAlwaysRaises`) | `ItemProcessor.ProcessSingleItem` |
| wyrm/services/orchestration/item_processor.py:252-254, wyrm/services/parallel_orchestrator.py:88-90, 237-239 | the processing loops call `create_progress_display` and `_suppress_console_logging` on the progress service, which defines only `create_progress_bar` (wyrm/services/progress_service.py:54), so each raises before its first item | any list of entries: the parallel run raises at the display, its sequential fallback raises too, and the one-by-one loop then raises before its first entry, so nothing is processed | the progress service offers a display, and the loops process the entries | not executed | `ItemProcessor.ProcessItemsHybridModeAsWritten` (with `display` false in `ItemProcessor.ProcessItemsWithProgress` and `ParallelOrchestrator.ProcessItemsParallel`) | `ItemProcessor.ProcessItemsHybridModeIntended` |
