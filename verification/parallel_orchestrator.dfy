/** The parallel orchestrator: one worker task per item, started with staggered delays and
    throttled by a semaphore; the results of the tasks are tallied, and a failure of the whole run
    falls back to processing the items one by one. Tasks, the event loop and the workers'
    browsers are abstracted: a run is given by the results its tasks end with. */
module ParallelOrchestrator {
  import opened Wrappers
  import opened Seqs
  import opened Tallies

  const DefaultMaxConcurrentTasks := 3
  const DefaultTaskStartDelay: real := 0.5
  const DefaultMaxParallelRetries := 2

  /** What the processing loops meet before their first item: they ask the progress service for
      `create_progress_display` and `_suppress_console_logging`, and it defines neither (it
      offers `create_progress_bar`), so the lookup raises. */
  const NoProgressDisplay := "AttributeError: 'ProgressService' object has no attribute 'create_progress_display'"

  /** What `asyncio.gather(..., return_exceptions=True)` yields for one task. */
  datatype TaskResult = TaskTrue | TaskFalse | TaskRaised | TaskOther

  predicate CountsProcessed(r: TaskResult) { r == TaskTrue }
  predicate CountsFailed(r: TaskResult) { r == TaskFalse || r == TaskRaised }
  predicate CountsSkipped(r: TaskResult) { r == TaskOther }

  /** `_collect_task_results`: `True` is processed, `False` or an exception is failed,
      anything else is skipped, so every task is counted exactly once. */
  method CollectTaskResults(results: seq<TaskResult>) returns (t: Tally)
    ensures t.processed == |Filter(results, CountsProcessed)|
    ensures t.failed == |Filter(results, CountsFailed)|
    ensures t.skipped == |Filter(results, CountsSkipped)|
    ensures Total(t) == |results|
  {
    var processed, failed, skipped := 0, 0, 0;
    var k := 0;
    while k < |results|
      invariant 0 <= k <= |results|
      invariant processed == |Filter(results[..k], CountsProcessed)|
      invariant failed == |Filter(results[..k], CountsFailed)|
      invariant skipped == |Filter(results[..k], CountsSkipped)|
      invariant processed + failed + skipped == k
    {
      assert results[..k + 1] == results[..k] + [results[k]];
      FilterSnoc(results[..k], results[k], CountsProcessed);
      FilterSnoc(results[..k], results[k], CountsFailed);
      FilterSnoc(results[..k], results[k], CountsSkipped);
      if CountsProcessed(results[k]) {
        processed := processed + 1;
      } else if CountsFailed(results[k]) {
        failed := failed + 1;
      } else {
        skipped := skipped + 1;
      }
      k := k + 1;
    }
    assert results[..k] == results;
    t := Tally(processed, failed, skipped);
  }

  /** `_fallback_to_sequential`: it first asks the progress service for a display, which
      raises unless `display` says the service offers one; then each item is handed to a
      fresh worker in turn; nothing is skipped and every item is either processed or
      failed. */
  method FallbackToSequential(attempts: seq<Attempt>, display: bool) returns (r: Result<Tally, string>)
    ensures r.Err? <==> !display
    ensures r.Ok? ==> r.value.skipped == 0
    ensures r.Ok? ==> r.value.processed + r.value.failed == |attempts|
    ensures r.Ok? ==> r.value.processed == |Filter(attempts, IsSuccess)|
  {
    if !display {
      return Err(NoProgressDisplay);
    }
    var t := TallyAttempts(attempts);
    return Ok(t);
  }

  /** Task `i` sleeps `i * task_start_delay` seconds before it starts. */
  function StartDelay(i: int, delay: real): real {
    i as real * delay
  }

  /** The delays of `n` tasks. */
  function StartDelays(n: nat, delay: real): (ds: seq<real>)
    ensures |ds| == n
    ensures forall i | 0 <= i < n :: ds[i] == StartDelay(i, delay)
  {
    seq(n, i => StartDelay(i, delay))
  }

  /** The first task starts at once, each later one `delay` after its predecessor; with a
      non-negative delay the start times never decrease, and a task sleeps only when it is
      not the first and the delay is positive. */
  lemma StartDelaysStagger(n: nat, delay: real)
    ensures n > 0 ==> StartDelays(n, delay)[0] == 0.0
    ensures forall i | 0 < i < n :: StartDelays(n, delay)[i] == StartDelays(n, delay)[i - 1] + delay
    ensures delay >= 0.0 ==> forall i, j | 0 <= i <= j < n :: StartDelays(n, delay)[i] <= StartDelays(n, delay)[j]
    ensures delay > 0.0 ==> forall i | 0 <= i < n :: (StartDelays(n, delay)[i] > 0.0 <==> i > 0)
  {
    var ds := StartDelays(n, delay);
    forall i | 0 < i < n
      ensures ds[i] == ds[i - 1] + delay
    {
      assert i as real * delay == (i - 1) as real * delay + delay;
    }
    if delay >= 0.0 {
      forall i, j | 0 <= i <= j < n
        ensures ds[i] <= ds[j]
      {
        assert ds[j] - ds[i] == (j - i) as real * delay;
        assert (j - i) as real >= 0.0;
        assert (j - i) as real * delay >= 0.0;
      }
    }
  }

  // ---------------------------------------------------------------------------
  // The semaphore bounding active workers
  // ---------------------------------------------------------------------------

  /** `asyncio.Semaphore(max_concurrent_tasks)` as a counter of the workers inside it. */
  datatype Semaphore = Semaphore(capacity: nat, active: nat)

  /** `Semaphore(value)` raises for a negative value. */
  function NewSemaphore(value: int): (r: Result<Semaphore, string>)
    ensures r.Ok? <==> value >= 0
    ensures r.Ok? ==> r.value.capacity == value && r.value.active == 0
  {
    if value < 0 then Err("ValueError: Semaphore initial value must be >= 0")
    else Ok(Semaphore(value, 0))
  }

  /** A worker asking to enter, or one leaving. */
  datatype SemaphoreEvent = Acquire | Release

  /** An acquire is granted only while a slot is free; otherwise the worker keeps waiting
      and the counter is unchanged. A release frees a slot. */
  function SemaphoreStep(s: Semaphore, e: SemaphoreEvent): Semaphore {
    match e
    case Acquire => if s.active < s.capacity then s.(active := s.active + 1) else s
    case Release => if s.active > 0 then s.(active := s.active - 1) else s
  }

  function SemaphoreRun(s: Semaphore, events: seq<SemaphoreEvent>): Semaphore
    decreases |events|
  {
    if events == [] then s else SemaphoreRun(SemaphoreStep(s, events[0]), events[1..])
  }

  /** Whatever the interleaving of acquires and releases, no more workers are inside the
      semaphore than its capacity: at most `max_concurrent_tasks`, three by default, and
      none at all with a capacity of zero. */
  lemma {:induction false} SemaphoreBound(s: Semaphore, events: seq<SemaphoreEvent>)
    requires s.active <= s.capacity
    ensures SemaphoreRun(s, events).active <= s.capacity
    ensures SemaphoreRun(s, events).capacity == s.capacity
    decreases |events|
  {
    if events != [] {
      SemaphoreBound(SemaphoreStep(s, events[0]), events[1..]);
    }
  }

  // ---------------------------------------------------------------------------
  // process_items_parallel
  // ---------------------------------------------------------------------------

  /** `process_items_parallel` for `n` items. `parallelRun` is how the parallel run ends: the
      results of its `n` tasks, or an exception out of it; creating the semaphore is part of
      the run and raises for a negative worker count, and so does asking the progress service
      for a display when `display` says it has none. `fallback` gives the worker outcomes of
      the sequential fallback. With concurrency disabled the fallback runs; when the parallel
      run raises, the fallback runs only if `max_parallel_retries` is positive, and the
      exception is re-raised otherwise. */
  method ProcessItemsParallel(
    n: nat, concurrencyEnabled: bool, maxWorkers: int, maxRetries: int,
    parallelRun: Result<seq<TaskResult>, string>, fallback: seq<Attempt>, display: bool) returns (r: Result<Tally, string>)
    requires parallelRun.Ok? ==> |parallelRun.value| == n
    requires |fallback| == n
    ensures r.Ok? ==> Total(r.value) == n
    ensures !display ==> r.Err?
    ensures display && !concurrencyEnabled ==> (r.Ok? && r.value.skipped == 0
      && r.value.processed == |Filter(fallback, IsSuccess)|)
    ensures display && concurrencyEnabled && maxWorkers >= 0 && parallelRun.Ok? ==> (r.Ok?
      && r.value.processed == |Filter(parallelRun.value, CountsProcessed)|
      && r.value.failed == |Filter(parallelRun.value, CountsFailed)|
      && r.value.skipped == |Filter(parallelRun.value, CountsSkipped)|)
    ensures display && concurrencyEnabled && (maxWorkers < 0 || parallelRun.Err?) ==> (
      (r.Err? <==> maxRetries <= 0)
      && (r.Ok? ==> r.value.skipped == 0 && r.value.processed == |Filter(fallback, IsSuccess)|))
  {
    if !concurrencyEnabled {
      r := FallbackToSequential(fallback, display);
      return;
    }
    var semaphore := NewSemaphore(maxWorkers);
    var run := if semaphore.Err? then Err(semaphore.error)
      else if display then parallelRun else Err(NoProgressDisplay);
    if run.Ok? {
      var t := CollectTaskResults(run.value);
      return Ok(t);
    }
    if maxRetries > 0 {
      r := FallbackToSequential(fallback, display);
      return;
    }
    return Err(run.error);
  }
}
