/** The processed, failed and skipped counters the orchestration code returns, and
    the one-item-at-a-time loop that fills them from worker outcomes. */
module Tallies {
  import opened Seqs

  datatype Tally = Tally(processed: nat, failed: nat, skipped: nat)

  function Total(t: Tally): nat {
    t.processed + t.failed + t.skipped
  }

  const Empty: Tally := Tally(0, 0, 0)

  /** What a call to a worker's `process_item` ends with: `True`, `False`, or an exception. */
  datatype Attempt = Succeeded | Declined | Raised

  predicate IsSuccess(a: Attempt) { a == Succeeded }
  predicate IsFailure(a: Attempt) { a != Succeeded }

  /** A success is counted as processed; `False` and an exception as failed; nothing is
      skipped. */
  method TallyAttempts(attempts: seq<Attempt>) returns (t: Tally)
    ensures t.processed == |Filter(attempts, IsSuccess)|
    ensures t.failed == |Filter(attempts, IsFailure)|
    ensures t.skipped == 0
    ensures t.processed + t.failed == |attempts|
  {
    t := Empty;
    var k := 0;
    while k < |attempts|
      invariant 0 <= k <= |attempts|
      invariant t.processed == |Filter(attempts[..k], IsSuccess)|
      invariant t.failed == |Filter(attempts[..k], IsFailure)|
      invariant t.skipped == 0
    {
      assert attempts[..k + 1] == attempts[..k] + [attempts[k]];
      FilterConcat(attempts[..k], [attempts[k]], IsSuccess);
      FilterConcat(attempts[..k], [attempts[k]], IsFailure);
      if attempts[k] == Succeeded {
        t := t.(processed := t.processed + 1);
      } else {
        t := t.(failed := t.failed + 1);
      }
      k := k + 1;
    }
    assert attempts[..k] == attempts;
    FilterPartition(attempts, IsSuccess, IsFailure);
  }

  /** `_merge_results`: the counters added pointwise. */
  function Merge(a: Tally, b: Tally): (r: Tally)
    ensures Total(r) == Total(a) + Total(b)
  {
    Tally(a.processed + b.processed, a.failed + b.failed, a.skipped + b.skipped)
  }

  /** Merging does not depend on the order the batches complete in. */
  lemma MergeCommutes(a: Tally, b: Tally)
    ensures Merge(a, b) == Merge(b, a)
  {
  }

  lemma MergeAssociates(a: Tally, b: Tally, c: Tally)
    ensures Merge(Merge(a, b), c) == Merge(a, Merge(b, c))
  {
  }

  /** The empty tally (`Empty`) is the unit of merging. */
  lemma MergeEmpty(a: Tally)
    ensures Merge(Tally(0, 0, 0), a) == a
  {
  }
}
