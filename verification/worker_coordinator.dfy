/** The thread-pool coordinator: items are dealt round-robin to `max_workers` batches, each
    non-empty batch is run by one worker with a staggered start, and the per-batch counters
    are merged as the batches complete. Threads and workers are abstracted: a batch run is
    given by the outcomes of its items, or by the batch raising as a whole. */
module WorkerCoordinator {
  import opened Wrappers
  import opened Seqs
  import opened Tallies

  /** How many of the first `n` positions fall on batch `j` when dealing to `w` batches. */
  function BatchSize(n: nat, w: nat, j: nat): nat
    requires w > 0
  {
    n / w + if j < n % w then 1 else 0
  }

  lemma {:induction false} MulAtLeast(d: int, w: int)
    requires d >= 1 && w > 0
    ensures d * w >= w
    decreases d
  {
    if d > 1 {
      MulAtLeast(d - 1, w);
      assert d * w == (d - 1) * w + w;
    }
  }

  /** Euclidean division is unique. */
  lemma DivUnique(x: int, w: int, q: int, r: int)
    requires w > 0 && 0 <= r < w && x == q * w + r
    ensures x / w == q && x % w == r
  {
    var q0, r0 := x / w, x % w;
    var d := q - q0;
    assert d * w == r0 - r by {
      assert q * w - q0 * w == (q - q0) * w;
    }
    if d >= 1 {
      MulAtLeast(d, w);
    } else if d <= -1 {
      MulAtLeast(-d, w);
    }
  }

  /** Moving from position `i` to `i + 1` either moves the remainder up by one or wraps it
      to zero and moves the quotient up by one. */
  lemma DivModStep(i: nat, w: nat)
    requires w > 0
    ensures i == (i / w) * w + i % w
    ensures i % w + 1 < w ==> (i + 1) / w == i / w && (i + 1) % w == i % w + 1
    ensures i % w + 1 == w ==> (i + 1) / w == i / w + 1 && (i + 1) % w == 0
  {
    var q, r := i / w, i % w;
    if r + 1 < w {
      DivUnique(i + 1, w, q, r + 1);
    } else {
      assert i + 1 == (q + 1) * w + 0 by {
        assert (q + 1) * w == q * w + w;
      }
      DivUnique(i + 1, w, q + 1, 0);
    }
  }

  /** The position dealt to place `k` of batch `j`. */
  function Slot(j: int, k: int, w: int): int {
    j + k * w
  }

  /** Batch `j` holds, at place `k`, the item at position `j + k * w`, which is below `i`. */
  ghost predicate PlacedBelow<T>(items: seq<T>, w: nat, batches: seq<seq<T>>, i: nat)
    requires |batches| == w
  {
    forall j, k | 0 <= j < w && 0 <= k < |batches[j]| ::
      Slot(j, k, w) < i && Slot(j, k, w) < |items| && batches[j][k] == items[Slot(j, k, w)]
  }

  /** Appending item `i` at place `i / w` of batch `i % w` keeps every placement right. */
  lemma PlacedStep<T>(items: seq<T>, w: nat, batches: seq<seq<T>>, i: nat)
    requires w > 0 && |batches| == w && i < |items|
    requires PlacedBelow(items, w, batches, i)
    requires |batches[i % w]| == i / w
    ensures PlacedBelow(items, w, batches[i % w := batches[i % w] + [items[i]]], i + 1)
  {
    DivModStep(i, w);
    var j0 := i % w;
    var next := batches[j0 := batches[j0] + [items[i]]];
    forall j, k | 0 <= j < w && 0 <= k < |next[j]|
      ensures Slot(j, k, w) < i + 1 && Slot(j, k, w) < |items| && next[j][k] == items[Slot(j, k, w)]
    {
      if j == j0 && k == i / w {
        assert Slot(j, k, w) == i;
        assert next[j][k] == items[i];
      } else {
        assert k < |batches[j]|;
        assert next[j][k] == batches[j][k];
        assert Slot(j, k, w) < i && batches[j][k] == items[Slot(j, k, w)];
      }
    }
    assert next == batches[i % w := batches[i % w] + [items[i]]];
    assert PlacedBelow(items, w, next, i + 1);
  }

  /** `_distribute_items` for a positive worker count: item `i` is appended to batch
      `i % w`. Batch `j` then holds the items at positions `j, j + w, j + 2w, ...`, in that
      order, and item `i` sits in batch `i % w` at place `i / w`. */
  method RoundRobin<T>(items: seq<T>, w: nat) returns (batches: seq<seq<T>>)
    requires w > 0
    ensures |batches| == w
    ensures forall j | 0 <= j < w :: |batches[j]| == BatchSize(|items|, w, j)
    ensures PlacedBelow(items, w, batches, |items|)
    ensures forall i | 0 <= i < |items| :: i / w < |batches[i % w]| && batches[i % w][i / w] == items[i]
  {
    batches := seq(w, _ => []);
    var i := 0;
    while i < |items|
      invariant 0 <= i <= |items|
      invariant |batches| == w
      invariant forall j | 0 <= j < w :: |batches[j]| == BatchSize(i, w, j)
      invariant PlacedBelow(items, w, batches, i)
      invariant forall p | 0 <= p < i :: p / w < |batches[p % w]| && batches[p % w][p / w] == items[p]
    {
      DivModStep(i, w);
      var j0 := i % w;
      assert |batches[j0]| == i / w;
      PlacedStep(items, w, batches, i);
      batches := batches[j0 := batches[j0] + [items[i]]];
      i := i + 1;
    }
  }

  /** `_distribute_items`: `[[] for _ in range(num_workers)]`, then item `i` appended to
      batch `i % num_workers`. With no positive worker count there are no batches, and
      dealing a non-empty list to them raises. */
  method DistributeItems<T>(items: seq<T>, numWorkers: int) returns (r: Result<seq<seq<T>>, string>)
    ensures r.Err? <==> numWorkers <= 0 && items != []
    ensures numWorkers <= 0 && items == [] ==> r == Ok([])
    ensures numWorkers > 0 ==> (r.Ok? && |r.value| == numWorkers
      && (forall j | 0 <= j < numWorkers :: |r.value[j]| == BatchSize(|items|, numWorkers, j))
      && PlacedBelow(items, numWorkers, r.value, |items|))
  {
    if numWorkers <= 0 {
      if items == [] {
        return Ok([]);
      }
      return Err("no batch to append to");
    }
    var batches := RoundRobin(items, numWorkers);
    return Ok(batches);
  }

  /** The batch sizes differ by at most one, and a batch is empty exactly when its index
      is at least the number of items. */
  lemma BatchesBalanced(n: nat, w: nat)
    requires w > 0
    ensures forall j1, j2 | 0 <= j1 < w && 0 <= j2 < w :: BatchSize(n, w, j1) <= BatchSize(n, w, j2) + 1
    ensures forall j | 0 <= j < w :: BatchSize(n, w, j) > 0 <==> j < n
  {
    forall j | 0 <= j < w
      ensures BatchSize(n, w, j) > 0 <==> j < n
    {
      DivModStep(n, w);
      if n < w {
        assert n / w == 0 && n % w == n;
      } else {
        assert n / w >= 1;
      }
    }
  }

  /** The sizes of the first `m` batches added up. */
  function SumSizes(n: nat, w: nat, m: nat): nat
    requires w > 0
  {
    if m == 0 then 0 else SumSizes(n, w, m - 1) + BatchSize(n, w, m - 1)
  }

  /** Together the batches hold every item once: their sizes add up to the item count. */
  lemma {:induction false} BatchSizesAddUp(n: nat, w: nat, m: nat)
    requires w > 0 && m <= w
    ensures SumSizes(n, w, m) == m * (n / w) + (if m < n % w then m else n % w)
    ensures m == w ==> SumSizes(n, w, m) == n
  {
    if m > 0 {
      BatchSizesAddUp(n, w, m - 1);
      assert m * (n / w) == (m - 1) * (n / w) + n / w;
    }
    if m == w {
      DivModStep(n, w);
      assert w * (n / w) == (n / w) * w;
    }
  }

  /** What `_process_worker_batch` returns: the counters and `total_items`. */
  datatype BatchResult = BatchResult(counts: Tally, totalItems: nat)

  /** `_process_worker_batch`: after its start delay the worker processes its items one by
      one; an item that raises is counted as failed and the batch goes on. */
  method ProcessWorkerBatch<T>(batch: seq<T>, attempts: seq<Attempt>) returns (r: BatchResult)
    requires |attempts| == |batch|
    ensures r.totalItems == |batch|
    ensures r.counts.processed + r.counts.failed == r.totalItems
    ensures r.counts.skipped == 0
    ensures r.counts.processed == |Filter(attempts, IsSuccess)|
  {
    var t := TallyAttempts(attempts);
    r := BatchResult(t, |batch|);
  }

  /** What collecting one submitted batch's future ends with. */
  datatype FutureOutcome = Completed | Crashed

  /** The estimated number of workers, `min(max_concurrent_tasks, num_items)`. */
  function EstimatedWorkers(n: nat, maxConcurrentTasks: int): int {
    if maxConcurrentTasks <= n then maxConcurrentTasks else n
  }

  /** `_process_with_thread_pool`. Item `i`'s worker outcome is `attempts[i]`; `crashed(j)`
      says the future of batch `j` raises as a whole, which counts as a single failure.
      Only non-empty batches are submitted, worker `j` after `j * start_delay` seconds;
      when no batch crashes the counters account for every item exactly once. Without a
      positive worker count the call raises: dealing a non-empty list fails, and the thread
      pool refuses to start with no workers. */
  method ProcessWithThreadPool<T>(items: seq<T>, maxWorkers: int, attempts: seq<Attempt>, crashed: nat -> bool)
    returns (r: Result<Tally, string>, submitted: seq<nat>)
    requires |attempts| == |items|
    ensures maxWorkers <= 0 ==> r.Err? && submitted == []
    ensures maxWorkers > 0 ==> r.Ok?
    ensures maxWorkers > 0 ==> |submitted| == EstimatedWorkers(|items|, maxWorkers)
    ensures forall k | 0 <= k < |submitted| :: submitted[k] == k
    ensures r.Ok? ==> r.value.skipped == 0 && Total(r.value) <= |items|
    ensures r.Ok? && (forall j | 0 <= j < maxWorkers :: !crashed(j)) ==> Total(r.value) == |items|
  {
    if maxWorkers <= 0 {
      var dealt := DistributeItems(items, maxWorkers);
      if dealt.Err? {
        return Err(dealt.error), [];
      }
      return Err("max_workers must be greater than 0"), [];
    }
    var w: nat := maxWorkers;
    var batches := RoundRobin(items, w);
    var outcomeBatches := RoundRobin(attempts, w);
    BatchesBalanced(|items|, w);
    var t := Tally(0, 0, 0);
    submitted := [];
    var j := 0;
    while j < w
      invariant 0 <= j <= w
      invariant |submitted| == if j < |items| then j else |items|
      invariant forall k | 0 <= k < |submitted| :: submitted[k] == k
      invariant t.skipped == 0
      invariant Total(t) <= SumSizes(|items|, w, j)
      invariant (forall c | 0 <= c < w :: !crashed(c)) ==> Total(t) == SumSizes(|items|, w, j)
    {
      if batches[j] != [] {
        submitted := submitted + [j];
        if crashed(j) {
          t := t.(failed := t.failed + 1);
        } else {
          var br := ProcessWorkerBatch(batches[j], outcomeBatches[j]);
          t := Merge(t, br.counts);
        }
      }
      j := j + 1;
    }
    BatchSizesAddUp(|items|, w, w);
    r := Ok(t);
  }
}
