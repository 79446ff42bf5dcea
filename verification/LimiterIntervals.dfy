/** Throughput, the retry hint and exactness where no log was lost in between; what was lost before does not matter. */
module LimiterIntervals {
  import opened Prelude
  import opened SlidingWindow
  import opened Residency
  import opened LimiterRuns
  import opened LimiterTheorems
  import opened LimiterGuarantees

  /** Between lo and hi every attempt found the log of the one before it. */
  ghost predicate IsLinkedBetween(trail: seq<Mark>, lo: real, hi: real) {
    forall i :: 0 < i < |trail| && lo <= trail[i - 1].time && trail[i].time <= hi ==> trail[i].linked
  }

  lemma LinkedBetweenFront(cfg: Config, h: History, key: JsString, lo: real, hi: real)
    requires h != [] && IsLinkedBetween(Trail(cfg, h, key), lo, hi)
    ensures IsLinkedBetween(Trail(cfg, Front(h), key), lo, hi)
  {
    var trail, front := Trail(cfg, h, key), Trail(cfg, Front(h), key);
    assert forall i :: 0 <= i < |front| ==> front[i] == trail[i];
  }

  /** Without eviction and with entries that outlive the window no link within a window's length is broken. */
  lemma NeverEvictedIsLinked(cfg: Config, h: History, key: JsString, window: real, lo: real, hi: real)
    requires NeverEvicted(cfg, h, key) && OutlivesWindow(cfg, window) && hi <= lo + window
    ensures IsLinkedBetween(Trail(cfg, h, key), lo, hi)
  {
    TrailGapFree(cfg, h, key, window);
  }

  /** More than `limit` linked attempts within a window's length deny the last of them. */
  lemma CrowdedIsDenied(cfg: Config, h: History, window: real, limit: nat, lo: real)
    requires h != [] && IsMonotone(h) && IsFixed(h, Last(h).key, window, limit) && Last(h).time <= lo + window
    requires IsLinkedBetween(Trail(cfg, h, Last(h).key), lo, Last(h).time)
    requires var full := Full(h, Last(h).key); limit < |full| && lo <= full[|full| - 1 - limit]
    ensures Outcome(cfg, h).Denied?
  {
    var trail := Trail(cfg, h, Last(h).key);
    TrailTimes(cfg, h, Last(h).key);
    TrailOrdered(cfg, h, Last(h).key);
    CrowdedReaches(trail, window, limit, lo);
    DeniedIff(cfg, h, window, limit);
  }

  lemma CrowdedReaches(trail: seq<Mark>, window: real, j: nat, lo: real)
    requires IsOrdered(trail) && j < |trail| && lo <= trail[|trail| - 1 - j].time
    requires trail[|trail| - 1].time <= lo + window && IsLinkedBetween(trail, lo, trail[|trail| - 1].time)
    ensures Reaches(trail, window, j)
  {
    forall i | |trail| - j <= i < |trail|
      ensures trail[i].linked
    {
      assert trail[|trail| - 1 - j].time <= trail[i - 1].time && trail[i].time <= trail[|trail| - 1].time;
    }
  }

  // ----- Throughput

  /** How many attempts of the key were allowed from time lo to time hi. */
  function AllowedBetween(cfg: Config, h: History, key: JsString, lo: real, hi: real): nat {
    if h == [] then 0
    else
      AllowedBetween(cfg, Front(h), key, lo, hi) +
      if Last(h).key == key && lo <= Last(h).time <= hi && Outcome(cfg, h).Allowed? then 1 else 0
  }

  /** The first o timestamps lie before lo. */
  ghost predicate ArePast(log: Log, o: nat, lo: real)
    requires o <= |log|
  {
    forall i :: 0 <= i < o ==> log[i] < lo
  }

  /** No more were allowed than were made. */
  lemma {:induction false} AllowedWereMade(cfg: Config, h: History, key: JsString, lo: real, hi: real, o: nat)
    requires o <= |Full(h, key)| && ArePast(Full(h, key), o, lo)
    ensures AllowedBetween(cfg, h, key, lo, hi) <= |Full(h, key)| - o
  {
    if h != [] {
      var full, earlier := Full(h, key), Full(Front(h), key);
      if Last(h).key == key {
        assert forall i :: 0 <= i < |earlier| ==> full[i] == earlier[i];
        if o == |full| {
          assert full[o - 1] == Last(h).time;
          AllowedWereMade(cfg, Front(h), key, lo, hi, o - 1);
        } else {
          AllowedWereMade(cfg, Front(h), key, lo, hi, o);
        }
      } else {
        AllowedWereMade(cfg, Front(h), key, lo, hi, o);
      }
    }
  }

  lemma FixedFront(h: History, key: JsString, window: real, limit: int)
    requires h != [] && IsFixed(h, key, window, limit)
    ensures IsFixed(Front(h), key, window, limit)
  {
  }

  /** Up to an allowed attempt at most `limit` attempts were allowed since one window before it. */
  lemma AllowedUpTo(cfg: Config, h: History, window: real, limit: int, lo: real)
    requires h != [] && IsMonotone(h) && IsFixed(h, Last(h).key, window, limit)
    requires IsLinkedBetween(Trail(cfg, h, Last(h).key), lo, Last(h).time)
    requires Last(h).time <= lo + window && Outcome(cfg, h).Allowed?
    ensures AllowedBetween(cfg, Front(h), Last(h).key, lo, lo + window) <= limit - 1
  {
    var front, key := Front(h), Last(h).key;
    var o := AttemptsBefore(cfg, h, window, limit, lo);
    AllowedWereMade(cfg, front, key, lo, lo + window, o);
    assert AllowedBetween(cfg, front, key, lo, lo + window) <= |Full(front, key)| - o;
  }

  /** Without a positive limit everything is denied. */
  lemma NoLimitIsDenied(cfg: Config, h: History, window: real, limit: int)
    requires h != [] && IsMonotone(h) && IsFixed(h, Last(h).key, window, limit) && limit <= 0
    ensures Outcome(cfg, h).Denied?
  {
    DeniedIff(cfg, h, window, limit);
    TrailTimes(cfg, h, Last(h).key);
  }

  /** All but fewer than `limit` of the attempts before an allowed one were made before its window. */
  lemma AttemptsBefore(cfg: Config, h: History, window: real, limit: int, lo: real) returns (o: nat)
    requires h != [] && IsMonotone(h) && IsFixed(h, Last(h).key, window, limit)
    requires IsLinkedBetween(Trail(cfg, h, Last(h).key), lo, Last(h).time)
    requires Last(h).time <= lo + window && Outcome(cfg, h).Allowed?
    ensures var earlier := Full(Front(h), Last(h).key);
            |earlier| - limit < o <= |earlier| && ArePast(earlier, o, lo)
  {
    var full := Full(h, Last(h).key);
    if limit <= 0 {
      NoLimitIsDenied(cfg, h, window, limit);
    }
    FullSorted(h, Last(h).key);
    o := 0;
    if limit < |full| {
      if lo <= full[|full| - 1 - limit] {
        CrowdedIsDenied(cfg, h, window, limit, lo);
        assert false;
      }
      o := |full| - limit;
    }
    assert forall i :: 0 <= i < |full| - 1 ==> Full(Front(h), Last(h).key)[i] == full[i];
  }

  /**
   * In every closed interval as long as the window at most `limit` attempts of a key are allowed, as long as the log
   * was not lost between two of the attempts made in it.
   */
  lemma {:induction false} ThroughputBound(cfg: Config, h: History, key: JsString, window: real, limit: int, lo: real)
    requires IsMonotone(h) && IsFixed(h, key, window, limit)
    requires IsLinkedBetween(Trail(cfg, h, key), lo, lo + window)
    ensures AllowedBetween(cfg, h, key, lo, lo + window) <= if limit < 0 then 0 else limit
  {
    if h != [] {
      if Last(h).key == key && Last(h).time <= lo + window && Outcome(cfg, h).Allowed? {
        AllowedUpTo(cfg, h, window, limit, lo);
      } else {
        MonotoneFront(h);
        FixedFront(h, key, window, limit);
        LinkedBetweenFront(cfg, h, key, lo, lo + window);
        ThroughputBound(cfg, Front(h), key, window, limit, lo);
      }
    }
  }

  /** Without eviction the bound holds in every interval. */
  lemma ThroughputWithoutEviction(cfg: Config, h: History, key: JsString, window: real, limit: int, lo: real)
    requires IsMonotone(h) && IsFixed(h, key, window, limit)
    requires NeverEvicted(cfg, h, key) && OutlivesWindow(cfg, window)
    ensures AllowedBetween(cfg, h, key, lo, lo + window) <= if limit < 0 then 0 else limit
  {
    NeverEvictedIsLinked(cfg, h, key, window, lo, lo + window);
    ThroughputBound(cfg, h, key, window, limit, lo);
  }

  // ----- The retry hint

  /** The wait lies between 0 and the window, and is told in whole seconds, rounded up. */
  lemma RetryHintRange(cfg: Config, h: History)
    requires h != [] && IsMonotone(h) && Outcome(cfg, h).Denied?
    ensures var ms := RetryAfterMs(NewLog(StoreAfter(cfg, Front(h)), cfg, Last(h)), Last(h));
            && 0.0 <= ms && (ms <= Last(h).window || ms == 0.0)
            && var s := Outcome(cfg, h).retryAfterSeconds;
               s as real * 1000.0 >= ms && (s - 1) as real * 1000.0 < ms
  {
    var i := NewLogIsSuffix(cfg, h);
    FullSorted(h, Last(h).key);
  }

  lemma {:induction false} FullExtends(h: History, more: History, key: JsString)
    requires h <= more
    ensures Full(h, key) <= Full(more, key)
    ensures more != [] && |h| < |more| && Last(more).key == key ==> |Full(h, key)| < |Full(more, key)|
  {
    if |h| < |more| {
      FullExtends(h, Front(more), key);
    } else {
      assert h == more;
    }
  }

  /** The log a verdict was given on. */
  function JudgedLog(cfg: Config, h: History): (log: Log)
    requires h != []
    ensures log != []
  {
    NewLog(StoreAfter(cfg, Front(h)), cfg, Last(h))
  }

  /**
   * After a denial every further attempt up to the end of the wait is denied as well, whatever attempts come in
   * between, as long as the log was not lost since its oldest timestamp; so the hint is a lower bound.
   */
  lemma RetryHintIsLowerBound(cfg: Config, h: History, more: History, window: real, limit: int)
    requires h != [] && h <= more && |h| < |more| && Last(more).key == Last(h).key
    requires IsMonotone(more) && IsFixed(more, Last(h).key, window, limit)
    requires Outcome(cfg, h).Denied? && Last(more).time <= Last(h).time + RetryAfterMs(JudgedLog(cfg, h), Last(h))
    requires IsLinkedBetween(Trail(cfg, more, Last(h).key), JudgedLog(cfg, h)[0], Last(more).time)
    ensures Outcome(cfg, more).Denied?
  {
    if limit <= 0 {
      NoLimitIsDenied(cfg, more, window, limit);
    } else {
      var oldest := JudgedLog(cfg, h)[0];
      WaitEnds(cfg, h, more, window, limit);
      CrowdedIsDenied(cfg, more, window, limit, oldest);
    }
  }

  /** Until the end of the wait the timestamps of a denying log stay in the window and are too many. */
  lemma WaitEnds(cfg: Config, h: History, more: History, window: real, limit: nat)
    requires h != [] && h <= more && |h| < |more| && Last(more).key == Last(h).key && limit > 0
    requires IsMonotone(more) && IsFixed(more, Last(h).key, window, limit)
    requires Outcome(cfg, h).Denied? && Last(more).time <= Last(h).time + RetryAfterMs(JudgedLog(cfg, h), Last(h))
    ensures Last(more).time <= JudgedLog(cfg, h)[0] + window
    ensures var full := Full(more, Last(h).key); limit < |full| && JudgedLog(cfg, h)[0] <= full[|full| - 1 - limit]
  {
    assert more[|h| - 1] == Last(h);
    MonotonePrefix(h, more);
    KeptAttempts(cfg, h, more, limit);
    OldestInWindow(cfg, h);
  }

  lemma MonotonePrefix(h: History, more: History)
    requires h <= more && IsMonotone(more)
    ensures IsMonotone(h)
  {
    assert forall i :: 0 <= i < |h| ==> h[i] == more[i];
  }

  /** The attempts of a denying log are among the last ones ever after. */
  lemma KeptAttempts(cfg: Config, h: History, more: History, limit: nat)
    requires h != [] && h <= more && |h| < |more| && Last(more).key == Last(h).key
    requires IsMonotone(more) && IsMonotone(h) && Last(h).limit == limit && Outcome(cfg, h).Denied?
    ensures var full := Full(more, Last(h).key);
            limit < |full| && JudgedLog(cfg, h)[0] <= full[|full| - 1 - limit]
    ensures |JudgedLog(cfg, h)| > limit
  {
    var i := NewLogIsSuffix(cfg, h);
    FullExtends(h, more, Last(h).key);
    FullSorted(more, Last(h).key);
    assert JudgedLog(cfg, h)[0] == Full(more, Last(h).key)[i];
  }

  /** Without eviction the hint is always a lower bound. */
  lemma HintWithoutEviction(cfg: Config, h: History, more: History, window: real, limit: int)
    requires h != [] && h <= more && |h| < |more| && Last(more).key == Last(h).key
    requires IsMonotone(more) && IsFixed(more, Last(h).key, window, limit)
    requires NeverEvicted(cfg, more, Last(h).key) && OutlivesWindow(cfg, window)
    requires Outcome(cfg, h).Denied? && Last(more).time <= Last(h).time + RetryAfterMs(JudgedLog(cfg, h), Last(h))
    ensures Outcome(cfg, more).Denied?
  {
    if limit <= 0 {
      NoLimitIsDenied(cfg, more, window, limit);
    } else {
      WaitEnds(cfg, h, more, window, limit);
      NeverEvictedIsLinked(cfg, more, Last(h).key, window, JudgedLog(cfg, h)[0], Last(more).time);
      RetryHintIsLowerBound(cfg, h, more, window, limit);
    }
  }

  // ----- When a retry succeeds

  /**
   * Without eviction an attempt is denied if and only if the attempt `limit` places before it, denied or not, is still
   * in its window. So a retry succeeds once more than a window has passed since the limit-th last attempt.
   */
  lemma DeniedIffCrowded(cfg: Config, h: History, window: real, limit: nat)
    requires h != [] && IsMonotone(h) && IsFixed(h, Last(h).key, window, limit) && limit > 0
    requires NeverEvicted(cfg, h, Last(h).key) && OutlivesWindow(cfg, window)
    ensures var earlier := Full(Front(h), Last(h).key);
            Outcome(cfg, h).Denied? <==>
            limit <= |earlier| && Last(h).time - earlier[|earlier| - limit] <= window
  {
    ExactWithoutEviction(cfg, h, window, limit);
    CrowdedIff(h, window, limit);
  }

  /** The window holds more than `limit` attempts if and only if the one `limit` places before the last is in it. */
  lemma CrowdedIff(h: History, window: real, limit: nat)
    requires h != [] && IsMonotone(h) && IsFixed(h, Last(h).key, window, limit) && limit > 0
    ensures var earlier := Full(Front(h), Last(h).key);
            |InWindow(h)| > limit <==> limit <= |earlier| && Last(h).time - earlier[|earlier| - limit] <= window
  {
    assert h[|h| - 1].window == window;
    InWindowIsSuffix(h);
    FullOfLast(h);
    if limit <= |Full(Front(h), Last(h).key)| {
      InWindowReach(h, limit);
    }
  }

  lemma FullOfLast(h: History)
    requires h != []
    ensures var full, earlier := Full(h, Last(h).key), Full(Front(h), Last(h).key);
            && |full| == |earlier| + 1 && full[|full| - 1] == Last(h).time
            && forall i :: 0 <= i < |earlier| ==> full[i] == earlier[i]
  {
  }

  /** Attempts of K at 0 and half a second, with a window of a second and a limit of 1; and one when told to retry. */
  function Retried(n: nat): History
    requires n <= 3
  {
    [Attempt(K, 1000.0, 1, 0.0), Attempt(K, 1000.0, 1, 500.0), Attempt(K, 1000.0, 1, 1500.0)][..n]
  }

  /** A caller that waits for the told number of seconds, and makes no other attempt, may be denied again. */
  lemma ToldWaitMayFail()
    ensures var cfg, h, more := Config(0, 0.0), Retried(2), Retried(3);
            && h != [] && h <= more && |more| == |h| + 1 && Last(more).key == Last(h).key
            && Outcome(cfg, h).Denied?
            && Last(more).time == Last(h).time + 1000.0 * Outcome(cfg, h).retryAfterSeconds as real
            && Outcome(cfg, more).Denied?
  {
  }

  /** The oldest timestamp of a log of two or more lies in the window. */
  lemma OldestInWindow(cfg: Config, h: History)
    requires h != [] && IsMonotone(h) && |NewLog(StoreAfter(cfg, Front(h)), cfg, Last(h))| > 1
    ensures Last(h).time - NewLog(StoreAfter(cfg, Front(h)), cfg, Last(h))[0] <= Last(h).window
  {
    var log := Recalled(StoreAfter(cfg, Front(h)), cfg, Last(h));
    var kept := Truncate(Filter(log, Last(h).time, Last(h).window), Last(h).limit);
    FilteredInWindow(log, 0, Last(h).time, Last(h).window);
    TruncateCuts(Filter(log, Last(h).time, Last(h).window), Last(h).limit);
    assert kept != [] && NewLog(StoreAfter(cfg, Front(h)), cfg, Last(h))[0] == kept[0];
  }

  lemma {:induction false} FilteredInWindow(log: Log, i: nat, now: real, window: real)
    requires i <= |log|
    ensures forall k :: 0 <= k < |FilterFrom(log, i, now, window)| ==>
              now - FilterFrom(log, i, now, window)[k] <= window
    decreases |log| - i
  {
    if i < |log| {
      FilteredInWindow(log, i + 1, now, window);
    }
  }

  // ----- Exactness from the keys used lately

  /** The other keys used since the attempt at p, which is one of the key. */
  function OthersSince(h: History, p: nat, key: JsString): set<JsString>
    requires p <= |h|
  {
    UsedKeys(h[p..]) - {key}
  }

  lemma SuffixFront(h: History, p: nat)
    requires p < |h| - 1
    ensures h[p..] != [] && Front(h[p..]) == Front(h)[p..] && Last(h[p..]) == Last(h) && Front(h)[p] == h[p]
  {
  }

  lemma {:induction false} SinceLately(h: History, p: nat, key: JsString)
    requires p < |h| && h[p].key == key
    ensures IsUsed(h, key) && Since(h, key) <= OthersSince(h, p, key)
  {
    if Last(h).key != key {
      SuffixFront(h, p);
      SinceLately(Front(h), p, key);
    }
  }

  /** The link at i is only broken if the log had expired. */
  predicate IsUnevictedAt(trail: seq<Mark>, ttl: real, i: nat)
    requires 0 < i < |trail|
  {
    trail[i].linked || (ttl > 0.0 && trail[i].time - trail[i - 1].time >= ttl)
  }

  /** None of the last j links was broken by an eviction. */
  ghost predicate IsUnevicted(trail: seq<Mark>, ttl: real, j: nat) {
    forall i :: 0 < i < |trail| && |trail| - j <= i ==> IsUnevictedAt(trail, ttl, i)
  }

  /** The number of links between the attempts of the key from p on. */
  function LinksSince(h: History, p: nat, key: JsString): int
    requires p <= |h|
  {
    |Full(h[p..], key)| - 1
  }

  lemma {:induction false} UnevictedLately(cfg: Config, h: History, p: nat, key: JsString)
    requires p < |h| && h[p].key == key
    requires cfg.maxItems == 0 || |OthersSince(h, p, key)| < cfg.maxItems
    ensures LinksSince(h, p, key) >= 0 && IsUnevicted(Trail(cfg, h, key), cfg.ttl, LinksSince(h, p, key))
  {
    if p == |h| - 1 {
      assert h[p..] == [h[p]] && Front(h[p..]) == [];
      assert Full(h[p..], key) == [] + [h[p].time];
    } else {
      SuffixFront(h, p);
      SubsetCount(OthersSince(Front(h), p, key), OthersSince(h, p, key));
      UnevictedLately(cfg, Front(h), p, key);
      if Last(h).key == key {
        SinceLately(Front(h), p, key);
        SubsetCount(Since(Front(h), key), OthersSince(Front(h), p, key));
        TrailTimes(cfg, Front(h), key);
        OneMoreLink(cfg, h, key, LinksSince(Front(h), p, key));
      }
    }
  }

  lemma OneMoreLink(cfg: Config, h: History, key: JsString, j: nat)
    requires h != [] && Last(h).key == key && IsRetained(cfg, Front(h), key)
    requires IsUnevicted(Trail(cfg, Front(h), key), cfg.ttl, j)
    ensures IsUnevicted(Trail(cfg, h, key), cfg.ttl, j + 1)
  {
    var front, now := Trail(cfg, Front(h), key), Last(h).time;
    TrailTimes(cfg, Front(h), key);
    MarkAppended(front, Mark(now, IsLinked(cfg, Front(h), key, now)), cfg.ttl, j);
  }

  lemma MarkAppended(front: seq<Mark>, mark: Mark, ttl: real, j: nat)
    requires IsUnevicted(front, ttl, j) && front != []
    requires mark.linked || (ttl > 0.0 && mark.time - front[|front| - 1].time >= ttl)
    ensures IsUnevicted(front + [mark], ttl, j + 1)
  {
    var trail := front + [mark];
    forall i | 0 < i < |trail| && |trail| - (j + 1) <= i
      ensures IsUnevictedAt(trail, ttl, i)
    {
      assert i < |front| ==> IsUnevictedAt(front, ttl, i) && trail[i - 1] == front[i - 1];
    }
  }

  /**
   * A verdict is exact when fewer than maxItems other keys were used since the (limit + 1)-th last attempt of the key,
   * or an earlier one, and entries outlive the window.
   */
  lemma ExactWhenFewSince(cfg: Config, h: History, window: real, limit: int, p: nat)
    requires h != [] && IsMonotone(h) && IsFixed(h, Last(h).key, window, limit) && OutlivesWindow(cfg, window)
    requires p < |h| && h[p].key == Last(h).key && LinksSince(h, p, Last(h).key) >= limit
    requires cfg.maxItems == 0 || |OthersSince(h, p, Last(h).key)| < cfg.maxItems
    ensures Outcome(cfg, h).Denied? <==> |InWindow(h)| > limit
  {
    ExactIff(cfg, h, window, limit);
    if 0 <= limit < |InWindow(h)| {
      UnevictedLately(cfg, h, p, Last(h).key);
      LinkedWhenInWindow(cfg, h, window, limit, LinksSince(h, p, Last(h).key));
    }
  }

  lemma LinkedWhenInWindow(cfg: Config, h: History, window: real, limit: nat, j: nat)
    requires h != [] && IsMonotone(h) && IsFixed(h, Last(h).key, window, limit) && OutlivesWindow(cfg, window)
    requires limit <= j && IsUnevicted(Trail(cfg, h, Last(h).key), cfg.ttl, j) && limit < |InWindow(h)|
    ensures limit < |Trail(cfg, h, Last(h).key)| && LinkedBack(Trail(cfg, h, Last(h).key), limit)
  {
    var trail := Trail(cfg, h, Last(h).key);
    TrailTimes(cfg, h, Last(h).key);
    TrailOrdered(cfg, h, Last(h).key);
    InWindowIsSuffix(h);
    InWindowReach(h, limit);
    assert h[|h| - 1].window == window;
    FewerUnevicted(trail, cfg.ttl, j, limit);
    LinkedInWindow(trail, cfg, window, limit);
  }

  lemma FewerUnevicted(trail: seq<Mark>, ttl: real, j: nat, fewer: nat)
    requires IsUnevicted(trail, ttl, j) && fewer <= j
    ensures IsUnevicted(trail, ttl, fewer)
  {
  }

  lemma LinkedInWindow(trail: seq<Mark>, cfg: Config, window: real, j: nat)
    requires IsOrdered(trail) && IsUnevicted(trail, cfg.ttl, j) && OutlivesWindow(cfg, window) && j < |trail|
    requires j == 0 || trail[|trail| - 1].time - trail[|trail| - 1 - j].time <= window
    ensures LinkedBack(trail, j)
  {
    forall i | |trail| - j <= i < |trail|
      ensures trail[i].linked
    {
      assert IsUnevictedAt(trail, cfg.ttl, i);
      assert trail[|trail| - 1 - j].time <= trail[i - 1].time && trail[i].time <= trail[|trail| - 1].time;
    }
  }
}
