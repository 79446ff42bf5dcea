/** What the limiter answers over whole runs, against the full log of every attempt. */
module LimiterRuns {
  import opened Prelude
  import opened LruSpec
  import opened SlidingWindow
  import opened Residency
  import LruInclusion

  ghost predicate IsSorted(log: Log) {
    forall i, j :: 0 <= i <= j < |log| ==> log[i] <= log[j]
  }

  /** The clock never runs backwards. */
  ghost predicate IsMonotone(h: History) {
    forall i, j :: 0 <= i <= j < |h| ==> h[i].time <= h[j].time
  }

  /** Every attempt of the key comes with this window and this limit. */
  ghost predicate IsFixed(h: History, key: JsString, window: real, limit: int) {
    forall i :: 0 <= i < |h| && h[i].key == key ==> h[i].window == window && h[i].limit == limit
  }

  /** The verdict on the last attempt. */
  function Outcome(cfg: Config, h: History): Verdict
    requires h != []
  {
    Answer(StoreAfter(cfg, Front(h)), cfg, Last(h))
  }

  // ----- The full log

  /** The times of all attempts of the key. */
  function Full(h: History, key: JsString): Log {
    if h == [] then []
    else if Last(h).key == key then Full(Front(h), key) + [Last(h).time]
    else Full(Front(h), key)
  }

  /** The attempts of the last attempt's key that lie in its window, itself included. */
  function InWindow(h: History): Log
    requires h != []
  {
    Filter(Full(Front(h), Last(h).key), Last(h).time, Last(h).window) + [Last(h).time]
  }

  lemma MonotoneFront(h: History)
    requires h != [] && IsMonotone(h)
    ensures IsMonotone(Front(h))
    ensures forall i :: 0 <= i < |h| ==> h[i].time <= Last(h).time
  {
  }

  lemma {:induction false} FullSorted(h: History, key: JsString)
    requires IsMonotone(h)
    ensures IsSorted(Full(h, key))
    ensures h != [] ==> forall i :: 0 <= i < |Full(h, key)| ==> Full(h, key)[i] <= Last(h).time
  {
    if h != [] {
      MonotoneFront(h);
      FullSorted(Front(h), key);
    }
  }

  // ----- Filtering and truncating a sorted log cut off its front

  /** How many leading timestamps have left the window. */
  function Outside(log: Log, now: real, window: real): (n: nat)
    ensures n <= |log|
  {
    OutsideFrom(log, 0, now, window)
  }

  function OutsideFrom(log: Log, i: nat, now: real, window: real): (n: nat)
    requires i <= |log|
    ensures i <= n <= |log|
    decreases |log| - i
  {
    if i == |log| || now - log[i] <= window then i else OutsideFrom(log, i + 1, now, window)
  }

  lemma {:induction false} FilterAll(log: Log, i: nat, now: real, window: real)
    requires i <= |log| && forall k :: i <= k < |log| ==> now - log[k] <= window
    ensures FilterFrom(log, i, now, window) == log[i..]
    decreases |log| - i
  {
    if i < |log| {
      FilterAll(log, i + 1, now, window);
      assert log[i..] == [log[i]] + log[i + 1..];
    }
  }

  lemma {:induction false} FilterCutsFrom(log: Log, i: nat, now: real, window: real)
    requires i <= |log| && IsSorted(log)
    ensures FilterFrom(log, i, now, window) == log[OutsideFrom(log, i, now, window)..]
    ensures forall k :: i <= k < |log| ==> (now - log[k] <= window <==> k >= OutsideFrom(log, i, now, window))
    decreases |log| - i
  {
    if i < |log| {
      if now - log[i] <= window {
        FilterAll(log, i, now, window);
      } else {
        FilterCutsFrom(log, i + 1, now, window);
      }
    }
  }

  lemma FilterCuts(log: Log, now: real, window: real)
    requires IsSorted(log)
    ensures Filter(log, now, window) == log[Outside(log, now, window)..]
    ensures forall k :: 0 <= k < |log| ==> (now - log[k] <= window <==> k >= Outside(log, now, window))
  {
    FilterCutsFrom(log, 0, now, window);
  }

  /** The last n timestamps, but always at least the very last. */
  function Newest(log: Log, n: int): (r: Log)
    requires log != []
    ensures r != []
  {
    log[Skipped(log, n)..]
  }

  function Skipped(log: Log, n: int): (k: nat)
    requires log != []
    ensures k < |log|
  {
    var kept := if n < 1 then 1 else n;
    if |log| > kept then |log| - kept else 0
  }

  lemma {:induction false} OutsideIs(log: Log, i: nat, k: nat, now: real, window: real)
    requires i <= k <= |log|
    requires forall j :: i <= j < k ==> now - log[j] > window
    requires k < |log| ==> now - log[k] <= window
    ensures OutsideFrom(log, i, now, window) == k
    decreases k - i
  {
    if i < k {
      OutsideIs(log, i + 1, k, now, window);
    }
  }

  /** Cutting the front off first does not change what else the filter cuts off. */
  lemma FilterSuffix(log: Log, k: nat, now: real, window: real)
    requires k <= |log| && IsSorted(log)
    ensures var o := Outside(log, now, window);
            Filter(log[k..], now, window) == log[if k < o then o else k..]
  {
    var part, o := log[k..], Outside(log, now, window);
    var p := if k < o then o - k else 0;
    FilterCuts(log, now, window);
    FilterCuts(part, now, window);
    assert forall j :: 0 <= j < |part| ==> part[j] == log[k + j];
    OutsideIs(part, 0, p, now, window);
  }

  /** How many of n timestamps Truncate drops. */
  function Excess(n: nat, limit: int): (d: nat)
    ensures d <= n
  {
    if n <= limit + 1 then 0 else if limit + 1 >= 0 then n - (limit + 1) else n
  }

  lemma TruncateCuts(log: Log, limit: int)
    ensures Truncate(log, limit) == log[Excess(|log|, limit)..]
  {
  }

  /** Recording an attempt in the newest limit + 2 of a log gives the newest limit + 2 of the whole log recorded. */
  lemma LoggedNewest(log: Log, a: Attempt)
    requires log != [] && IsSorted(log)
    ensures Logged(Newest(log, a.limit + 2), a) == Newest(Filter(log, a.time, a.window) + [a.time], a.limit + 2)
  {
    var n, k, o := |log|, Skipped(log, a.limit + 2), Outside(log, a.time, a.window);
    var c := if k < o then o else k;
    LoggedSuffix(log, k, a);
    NewestRecorded(log, a);
    assert c + Excess(n - c, a.limit) == o + Excess(n - o, a.limit);
  }

  lemma LoggedSuffix(log: Log, k: nat, a: Attempt)
    requires k <= |log| && IsSorted(log)
    ensures var o := Outside(log, a.time, a.window);
            var c := if k < o then o else k;
            Logged(log[k..], a) == log[c + Excess(|log| - c, a.limit)..] + [a.time]
  {
    var o := Outside(log, a.time, a.window);
    var c := if k < o then o else k;
    FilterSuffix(log, k, a.time, a.window);
    TruncateCuts(log[c..], a.limit);
  }

  lemma NewestRecorded(log: Log, a: Attempt)
    requires IsSorted(log)
    ensures var o := Outside(log, a.time, a.window);
            Newest(Filter(log, a.time, a.window) + [a.time], a.limit + 2) ==
            log[o + Excess(|log| - o, a.limit)..] + [a.time]
  {
    FilterCuts(log, a.time, a.window);
  }

  // ----- What one call keeps and what it tells

  /** How many timestamps of a log are left behind when the new log r was made of it. */
  function Dropped(log: Log, r: Log): int {
    |log| + 1 - |r|
  }

  /** A timestamp stays if and only if it is in the window and among the last limit + 1; the current time is added. */
  lemma LoggedKeeps(log: Log, a: Attempt)
    requires IsSorted(log)
    ensures var k := Dropped(log, Logged(log, a));
            && 0 <= k <= |log| && Logged(log, a) == log[k..] + [a.time]
            && forall i :: 0 <= i < |log| ==>
                 (k <= i <==> a.time - log[i] <= a.window && |log| - i <= a.limit + 1)
  {
    FilterCuts(log, a.time, a.window);
    LoggedSuffix(log, 0, a);
    assert log[0..] == log;
  }

  /** After so many more seconds the timestamp is at least as old as the window. */
  predicate IsWaitedOut(timestamp: real, window: real, now: real, seconds: nat) {
    timestamp + window <= now + 1000.0 * seconds as real
  }

  /**
   * A log that fits the limit is allowed. Else the seconds told are the fewest after which the oldest timestamp is as
   * old as the window.
   */
  lemma WaitIsLeast(log: Log, a: Attempt)
    requires log != []
    ensures Judge(log, a).Allowed? <==> |log| <= a.limit
    ensures Judge(log, a).Denied? ==>
              && 0 <= Judge(log, a).retryAfterSeconds
              && forall n: nat ::
                   Judge(log, a).retryAfterSeconds <= n <==> IsWaitedOut(log[0], a.window, a.time, n)
  {
    var wait := RetryAfterMs(log, a);
    assert forall n: nat :: Ceil(wait / 1000.0) <= n <==> IsWaitedOut(log[0], a.window, a.time, n);
  }

  // ----- Links: whether an attempt found the log of the attempt before it

  datatype Mark = Mark(time: real, linked: bool)

  /** The key's log would be found at time now: not evicted and not expired. */
  predicate IsLinked(cfg: Config, h: History, key: JsString, now: real) {
    IsRetained(cfg, h, key) && (cfg.ttl > 0.0 ==> LastTime(h, key) + cfg.ttl > now)
  }

  /** The attempts of the key in order. */
  function Trail(cfg: Config, h: History, key: JsString): seq<Mark> {
    if h == [] then []
    else if Last(h).key == key then
      Trail(cfg, Front(h), key) + [Mark(Last(h).time, IsLinked(cfg, Front(h), key, Last(h).time))]
    else Trail(cfg, Front(h), key)
  }

  /** Each entry expires a time-to-live after the last attempt of its key. */
  lemma {:induction false} EntryExpiry(cfg: Config, h: History, key: JsString)
    requires HasKey(StoreAfter(cfg, h), key)
    ensures IsUsed(h, key)
    ensures Lookup(StoreAfter(cfg, h), key).value.expiry == Expiry(cfg.ttl, LastTime(h, key))
  {
    HoldsIffRetained(cfg, h, key);
    EntryAfter(cfg, h, key);
    if Last(h).key != key {
      EntryExpiry(cfg, Front(h), key);
    }
  }

  /** The entry of a key after the last attempt: the new log, or the entry as it was. */
  lemma EntryAfter(cfg: Config, h: History, key: JsString)
    requires h != [] && HasKey(StoreAfter(cfg, h), key)
    ensures Last(h).key == key ==>
              Lookup(StoreAfter(cfg, h), key) ==
              Some(Entry(key, NewLog(StoreAfter(cfg, Front(h)), cfg, Last(h)), Expiry(cfg.ttl, Last(h).time)))
    ensures Last(h).key != key ==>
              HasKey(StoreAfter(cfg, Front(h)), key) &&
              Lookup(StoreAfter(cfg, h), key) == Lookup(StoreAfter(cfg, Front(h)), key)
  {
    var es, a := StoreAfter(cfg, Front(h)), Last(h);
    StoreIsLru(cfg, Front(h));
    StoreIsLru(cfg, h);
    RecordIsSet(es, cfg, a);
    SetEntry(es, cfg.maxItems, cfg.ttl, a.key, NewLog(es, cfg, a), a.time, key);
  }

  lemma SetEntry(es: LogStore, max: nat, ttl: real, k: JsString, log: Log, now: real, key: JsString)
    requires LruInclusion.IsLru(es, max) && LruInclusion.IsLru(AfterSet(es, max, ttl, k, log, now), max)
    requires HasKey(AfterSet(es, max, ttl, k, log, now), key)
    ensures k == key ==> Lookup(AfterSet(es, max, ttl, k, log, now), key) == Some(Entry(key, log, Expiry(ttl, now)))
    ensures k != key ==> HasKey(es, key) && Lookup(AfterSet(es, max, ttl, k, log, now), key) == Lookup(es, key)
  {
    var next := AfterSet(es, max, ttl, k, log, now);
    var i :| 0 <= i < |next| && next[i].key == key;
    WithoutAt(next, i);
    assert next[|next| - 1].key == k;
    if k != key {
      assert next[i] in next[..|next| - 1];
      EntryStays(es, k, next[i]);
    }
  }

  lemma EntryStays(es: LogStore, k: JsString, e: Entry<JsString, Log>)
    requires HasDistinctKeys(es) && (e in Without(es, k) || e in es)
    ensures HasKey(es, e.key) && Lookup(es, e.key) == Some(e)
  {
    if e in Without(es, k) && HasKey(es, k) {
      var j :| 0 <= j < |es| && es[j].key == k;
      WithoutAt(es, j);
    } else if e !in es {
      WithoutAbsent(es, k);
    }
    var i :| 0 <= i < |es| && es[i] == e;
    WithoutAt(es, i);
  }
}
