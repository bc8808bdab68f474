/** The loop control of the sidebar expansion: pass after pass, look for a collapsed
    menu's expander icon and click the first one, until none is left or the attempt budget
    is spent. What each pass finds in the page is given as an oracle, one answer per pass;
    the waits, scrolls and logging are not modelled. */
module Navigation {
  import opened Wrappers
  import opened Seqs

  /** What one pass of the loop meets in the page. */
  datatype Pass =
    | NoIcons                   // presence wait timed out, empty icon list, or lookup failed
    | Clicked                   // the first icon was clicked
    | NotClicked                // the click was intercepted or the icon vanished
    | OuterError(clicked: bool) // an error escaped to the outer handler, after a click or not

  predicate Clicks(p: Pass) {
    p == Clicked || (p.OuterError? && p.clicked)
  }

  /** Why the loop ended. `PassesExhausted` stands for a page that keeps offering icons
      beyond the answers the oracle holds. */
  datatype StopReason = NoMoreIcons | AttemptsUsed | PassesExhausted

  datatype Expansion = Expansion(attempts: nat, clicks: nat, warned: bool, stop: StopReason)

  /** `max_attempts is None or attempts < max_attempts`. */
  predicate MayContinue(maxAttempts: Option<int>, attempts: nat) {
    maxAttempts.None? || attempts < maxAttempts.value
  }

  /** Position of the first pass that finds no icon, or the number of passes. */
  function FirstNoIcons(passes: seq<Pass>): (k: nat)
    ensures k <= |passes|
    ensures forall i | 0 <= i < k :: passes[i] != NoIcons
    ensures k < |passes| ==> passes[k] == NoIcons
  {
    if passes == [] then 0
    else if passes[0] == NoIcons then 0
    else 1 + FirstNoIcons(passes[1..])
  }

  /** How many passes the attempt limit allows out of `n` available. */
  function Budget(maxAttempts: Option<int>, n: nat): (b: nat)
    ensures b <= n
    ensures maxAttempts.Some? ==> b <= if maxAttempts.value < 0 then 0 else maxAttempts.value
    ensures maxAttempts.None? ==> b == n
  {
    match maxAttempts
    case None => n
    case Some(m) => if m <= 0 then 0 else if m < n then m else n
  }

  function Min(a: nat, b: nat): nat {
    if a < b then a else b
  }

  /** The expansion loop. The number of passes is the attempt budget or one more than the
      position of the first pass without icons, whichever is smaller; each pass clicks at
      most once; the warning is given exactly when a limit is set and was reached. */
  method ExpandAllMenus(maxAttempts: Option<int>, passes: seq<Pass>) returns (e: Expansion)
    ensures e.attempts == Min(Budget(maxAttempts, |passes|), FirstNoIcons(passes) + 1)
    ensures maxAttempts.Some? ==> e.attempts <= if maxAttempts.value < 0 then 0 else maxAttempts.value
    ensures e.clicks == |Filter(passes[..e.attempts], Clicks)| && e.clicks <= e.attempts
    ensures e.stop == NoMoreIcons <==> e.attempts > 0 && passes[e.attempts - 1] == NoIcons
    ensures e.stop == AttemptsUsed ==> !MayContinue(maxAttempts, e.attempts)
    ensures e.stop == PassesExhausted ==> e.attempts == |passes| && MayContinue(maxAttempts, e.attempts)
    ensures e.warned <==> maxAttempts.Some? && e.attempts >= maxAttempts.value
  {
    var attempts: nat := 0;
    var clicks: nat := 0;
    var stop := AttemptsUsed;
    while MayContinue(maxAttempts, attempts)
      invariant attempts <= Budget(maxAttempts, |passes|)
      invariant attempts <= FirstNoIcons(passes)
      invariant clicks == |Filter(passes[..attempts], Clicks)|
      invariant stop == AttemptsUsed
      decreases |passes| - attempts
    {
      if attempts == |passes| {
        stop := PassesExhausted;
        break;
      }
      var p := passes[attempts];
      assert passes[..attempts + 1] == passes[..attempts] + [p];
      FilterSnoc(passes[..attempts], p, Clicks);
      attempts := attempts + 1;
      if Clicks(p) {
        clicks := clicks + 1;
      }
      if p == NoIcons {
        stop := NoMoreIcons;
        break;
      }
      if p.OuterError? && maxAttempts.Some? && attempts >= maxAttempts.value {
        break;
      }
    }
    e := Expansion(attempts, clicks, maxAttempts.Some? && attempts >= maxAttempts.value, stop);
  }
}
