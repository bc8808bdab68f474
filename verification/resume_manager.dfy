/** Resuming a run: the entries whose expected output file already exists are set aside,
    and a short report says how many are done and which come next. The file system is
    abstracted as the set of paths that exist. */
module ResumeManager {
  import opened Wrappers
  import opened Structure
  import opened Seqs
  import opened PathBuilder

  /** The deterministic path an entry's file is written to. */
  function ExpectedPath(e: FlatEntry, base: seq<string>): seq<string> {
    OutputFilePath(Some(e.header), e.menu, e.text, base)
  }

  predicate HasFile(e: FlatEntry, base: seq<string>, files: set<seq<string>>) {
    ExpectedPath(e, base) in files
  }

  /** Walks the entries once, in order, putting each one whose expected file exists into
      `existing` and every other one into `pending`. */
  method CheckExistingFiles(items: seq<FlatEntry>, base: seq<string>, files: set<seq<string>>)
    returns (existing: seq<FlatEntry>, pending: seq<FlatEntry>)
    ensures forall i | 0 <= i < |existing| :: existing[i] in items && HasFile(existing[i], base, files)
    ensures forall i | 0 <= i < |pending| :: pending[i] in items && !HasFile(pending[i], base, files)
    ensures multiset(existing) + multiset(pending) == multiset(items)
    ensures IsSubsequence(existing, items) && IsSubsequence(pending, items)
  {
    existing, pending := Partition(items, (e: FlatEntry) => HasFile(e, base, files));
  }

  const ShownPending := 5

  /** What the resume report shows: the three counts, the first pending entries, how many
      more there are, and whether everything is done. */
  datatype ResumeReport = ResumeReport(
    total: nat,
    existingCount: nat,
    remainingCount: nat,
    shown: seq<FlatEntry>,
    more: Option<nat>,
    allDone: bool)

  function DisplayResumeInfo(valid: seq<FlatEntry>, existing: seq<FlatEntry>, pending: seq<FlatEntry>): (rep: ResumeReport)
    ensures rep.total == |valid| && rep.existingCount == |existing| && rep.remainingCount == |pending|
    ensures |rep.shown| <= ShownPending && |rep.shown| <= |pending| && rep.shown == pending[..|rep.shown|]
    ensures rep.allDone <==> pending == []
    ensures rep.more.Some? <==> |pending| > ShownPending
    ensures |rep.shown| == if |pending| > ShownPending then ShownPending else |pending|
    ensures rep.more.Some? ==> rep.more.value == |pending| - ShownPending
    ensures |rep.shown| + rep.more.GetOr(0) == |pending|
  {
    var remaining := |pending|;
    if remaining > 0 then
      var shown := if remaining > ShownPending then pending[..ShownPending] else pending;
      var more := if remaining > ShownPending then Some(remaining - ShownPending) else None;
      assert pending[..|pending|] == pending;
      ResumeReport(|valid|, |existing|, remaining, shown, more, false)
    else
      ResumeReport(|valid|, |existing|, remaining, [], None, true)
  }

  /** When the two lists come from splitting the valid entries, the report's total is
      the number done plus the number remaining. */
  lemma ReportCountsAddUp(valid: seq<FlatEntry>, existing: seq<FlatEntry>, pending: seq<FlatEntry>)
    requires multiset(existing) + multiset(pending) == multiset(valid)
    ensures DisplayResumeInfo(valid, existing, pending).total
      == DisplayResumeInfo(valid, existing, pending).existingCount + DisplayResumeInfo(valid, existing, pending).remainingCount
  {
    assert |multiset(existing) + multiset(pending)| == |multiset(valid)|;
  }
}
