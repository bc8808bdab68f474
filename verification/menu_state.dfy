/** The menu-state cache (menu text to cached state) and the bounded retry helper. An
    operation is given by its outcome on each attempt: `Ok` is a return value, `Err` a
    raised exception. */
module MenuState {
  import opened Wrappers

  type Cache<V> = map<string, V>

  function CacheExpansionState<V>(cache: Cache<V>, menuText: string, state: V): (r: Cache<V>)
    ensures menuText in r && r[menuText] == state
    ensures forall k | k in cache && k != menuText :: k in r && r[k] == cache[k]
    ensures r.Keys == cache.Keys + {menuText}
  {
    cache[menuText := state]
  }

  /** `cache.get(menu_text)`: `None` when the menu was never cached. */
  function GetCachedState<V>(cache: Cache<V>, menuText: string): (r: Option<V>)
    ensures r.Some? <==> menuText in cache
    ensures r.Some? ==> r.value == cache[menuText]
  {
    if menuText in cache then Some(cache[menuText]) else None
  }

  function ClearCache<V>(cache: Cache<V>): (r: Cache<V>)
    ensures |r| == 0
  {
    map[]
  }

  /** Reading a key after caching it gives the cached state; every other key reads as
      before. */
  lemma GetAfterCache<V>(cache: Cache<V>, menuText: string, state: V, other: string)
    ensures GetCachedState(CacheExpansionState(cache, menuText, state), menuText) == Some(state)
    ensures other != menuText ==>
      GetCachedState(CacheExpansionState(cache, menuText, state), other) == GetCachedState(cache, other)
  {
  }

  /** After clearing, nothing is cached. */
  lemma GetAfterClear<V>(cache: Cache<V>, menuText: string)
    ensures GetCachedState(ClearCache(cache), menuText) == None
  {
  }

  /** Position of the first successful attempt below `limit`, or `limit`. */
  function FirstSuccess<V, E>(op: nat -> Result<V, E>, limit: nat): (k: nat)
    ensures k <= limit
    ensures forall j | 0 <= j < k :: op(j).Err?
    ensures k < limit ==> op(k).Ok?
    decreases limit
  {
    if limit == 0 then 0
    else
      var k := FirstSuccess(op, limit - 1);
      if k < limit - 1 then k
      else if op(limit - 1).Ok? then limit - 1 else limit
  }

  /** `retry_operation`: tries `op` on attempts `0, 1, ...` up to `retries` times and
      returns the first success; the failure of the last attempt is raised again; with
      `retries <= 0` nothing is called and `None` comes back. */
  method RetryOperation<V, E>(op: nat -> Result<V, E>, retries: int) returns (r: Result<Option<V>, E>, calls: nat)
    ensures retries <= 0 ==> r == Ok(None) && calls == 0
    ensures retries > 0 ==> 1 <= calls <= retries
    ensures retries > 0 ==> calls == if FirstSuccess(op, retries) < retries then FirstSuccess(op, retries) + 1 else retries
    ensures forall j | 0 <= j < calls - 1 :: op(j).Err?
    ensures r.Ok? && retries > 0 ==> r.value.Some? && op(calls - 1) == Ok(r.value.value)
    ensures r.Err? <==> retries > 0 && FirstSuccess(op, retries) == retries
    ensures r.Err? ==> calls == retries && op(calls - 1) == Err(r.error)
  {
    if retries <= 0 {
      return Ok(None), 0;
    }
    var attempt: nat := 0;
    while true
      invariant attempt < retries
      invariant forall j | 0 <= j < attempt :: op(j).Err?
      decreases retries - attempt
    {
      var outcome := op(attempt);
      if outcome.Ok? {
        return Ok(Some(outcome.value)), attempt + 1;
      }
      if attempt == retries - 1 {
        return Err(outcome.error), attempt + 1;
      }
      attempt := attempt + 1;
    }
  }
}
