/** The run's progress counters: processed, skipped, errors, pages without content, and
    the number of items found in the structure. */
module ProgressService {
  import opened Seqs

  datatype Counters = Counters(
    processed: int,
    skipped: int,
    errors: int,
    noContent: int,
    totalInStructure: int)

  /** Every counter starts at zero. */
  const Initial: Counters := Counters(0, 0, 0, 0, 0)

  function SetTotalItems(c: Counters, count: int): (r: Counters)
    ensures r.totalInStructure == count
    ensures r.processed == c.processed && r.skipped == c.skipped && r.errors == c.errors
      && r.noContent == c.noContent
  {
    c.(totalInStructure := count)
  }

  /** The four per-item events, each raising one counter. */
  datatype Event = ProcessedOne | SkippedOne | ErrorOne | NoContentOne

  /** `increment_processed`, `increment_skipped`, `increment_errors`,
      `increment_no_content`. */
  function Increment(c: Counters, ev: Event): (r: Counters)
    ensures r.processed == c.processed + (if ev == ProcessedOne then 1 else 0)
    ensures r.skipped == c.skipped + (if ev == SkippedOne then 1 else 0)
    ensures r.errors == c.errors + (if ev == ErrorOne then 1 else 0)
    ensures r.noContent == c.noContent + (if ev == NoContentOne then 1 else 0)
    ensures r.totalInStructure == c.totalInStructure
  {
    match ev
    case ProcessedOne => c.(processed := c.processed + 1)
    case SkippedOne => c.(skipped := c.skipped + 1)
    case ErrorOne => c.(errors := c.errors + 1)
    case NoContentOne => c.(noContent := c.noContent + 1)
  }

  /** The events of a run, applied in order. */
  function ApplyAll(c: Counters, events: seq<Event>): Counters
    decreases |events|
  {
    if events == [] then c else ApplyAll(Increment(c, events[0]), events[1..])
  }

  predicate IsProcessed(ev: Event) { ev == ProcessedOne }
  predicate IsSkipped(ev: Event) { ev == SkippedOne }
  predicate IsError(ev: Event) { ev == ErrorOne }
  predicate IsNoContent(ev: Event) { ev == NoContentOne }

  /** After any run, each counter has grown by the number of its events, and the total is
      untouched. */
  lemma {:induction false} ApplyAllCounts(c: Counters, events: seq<Event>)
    ensures ApplyAll(c, events).processed == c.processed + |Filter(events, IsProcessed)|
    ensures ApplyAll(c, events).skipped == c.skipped + |Filter(events, IsSkipped)|
    ensures ApplyAll(c, events).errors == c.errors + |Filter(events, IsError)|
    ensures ApplyAll(c, events).noContent == c.noContent + |Filter(events, IsNoContent)|
    ensures ApplyAll(c, events).totalInStructure == c.totalInStructure
    decreases |events|
  {
    if events != [] {
      ApplyAllCounts(Increment(c, events[0]), events[1..]);
    }
  }

  /** Two adjacent events may be swapped: the counters end the same either way. */
  lemma IncrementsCommute(c: Counters, a: Event, b: Event)
    ensures Increment(Increment(c, a), b) == Increment(Increment(c, b), a)
  {
  }

  /** `get_stats`: the five counters under their report names. */
  function GetStats(c: Counters): (m: map<string, int>)
    ensures m.Keys == {"processed", "skipped", "errors", "no_content", "total_in_structure"}
    ensures m["processed"] == c.processed && m["skipped"] == c.skipped && m["errors"] == c.errors
    ensures m["no_content"] == c.noContent && m["total_in_structure"] == c.totalInStructure
  {
    map[
      "processed" := c.processed,
      "skipped" := c.skipped,
      "errors" := c.errors,
      "no_content" := c.noContent,
      "total_in_structure" := c.totalInStructure]
  }

  /** A run's statistics, read back through `get_stats`, are the event counts. */
  lemma StatsOfRun(events: seq<Event>)
    ensures GetStats(ApplyAll(Initial, events))["processed"] == |Filter(events, IsProcessed)|
    ensures GetStats(ApplyAll(Initial, events))["skipped"] == |Filter(events, IsSkipped)|
    ensures GetStats(ApplyAll(Initial, events))["errors"] == |Filter(events, IsError)|
    ensures GetStats(ApplyAll(Initial, events))["no_content"] == |Filter(events, IsNoContent)|
    ensures GetStats(ApplyAll(Initial, events))["total_in_structure"] == 0
  {
    ApplyAllCounts(Initial, events);
  }

  /** `reset_counters`: all five counters back to zero, whatever they were. */
  function ResetCounters(c: Counters): (r: Counters)
    ensures r.processed == 0 && r.skipped == 0 && r.errors == 0 && r.noContent == 0
    ensures r.totalInStructure == 0
  {
    Initial
  }

  /** Resetting forgets the run: resetting and replaying gives the counts of the replay
      alone. */
  lemma ResetThenRun(c: Counters, events: seq<Event>)
    ensures ApplyAll(ResetCounters(c), events) == ApplyAll(Initial, events)
  {
  }
}
