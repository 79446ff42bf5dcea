/** When the verdict is that of the full log, and the one direction in which lost state can err. */
module LimiterGuarantees {
  import opened Prelude
  import opened LruSpec
  import opened SlidingWindow
  import opened Residency
  import opened LimiterRuns
  import opened LimiterTheorems

  // ----- Losing state only errs towards allowing, whatever the windows, limits, capacity and time-to-live

  /** What the store holds of a key is the end of its full log. */
  lemma {:induction false} StoredIsSuffix(cfg: Config, h: History, key: JsString) returns (i: nat)
    requires IsMonotone(h) && HasKey(StoreAfter(cfg, h), key)
    ensures i <= |Full(h, key)| && Lookup(StoreAfter(cfg, h), key).value.value == Full(h, key)[i..]
    decreases |h|, 1
  {
    EntryAfter(cfg, h, key);
    if Last(h).key == key {
      i := NewLogIsSuffix(cfg, h);
    } else {
      MonotoneFront(h);
      i := StoredIsSuffix(cfg, Front(h), key);
    }
  }

  lemma {:induction false} NewLogIsSuffix(cfg: Config, h: History) returns (i: nat)
    requires h != [] && IsMonotone(h)
    ensures i < |Full(h, Last(h).key)|
    ensures NewLog(StoreAfter(cfg, Front(h)), cfg, Last(h)) == Full(h, Last(h).key)[i..]
    ensures |NewLog(StoreAfter(cfg, Front(h)), cfg, Last(h))| <= |InWindow(h)|
    decreases |h|, 0
  {
    var front, a := Front(h), Last(h);
    var es, full := StoreAfter(cfg, front), Full(front, a.key);
    MonotoneFront(h);
    FullSorted(front, a.key);
    var k := |full|;
    if GetValue(es, cfg.ttl, a.key, a.time).Some? {
      k := StoredIsSuffix(cfg, front, a.key);
    }
    assert Recalled(es, cfg, a) == full[k..];
    i := LoggedIsSuffix(full, k, a);
  }

  lemma LoggedIsSuffix(full: Log, k: nat, a: Attempt) returns (i: nat)
    requires k <= |full| && IsSorted(full)
    ensures i <= |full| && Logged(full[k..], a) == (full + [a.time])[i..]
    ensures |Logged(full[k..], a)| <= |Filter(full, a.time, a.window)| + 1
  {
    LoggedSuffix(full, k, a);
    FilterCuts(full, a.time, a.window);
    var o := Outside(full, a.time, a.window);
    var c := if k < o then o else k;
    i := c + Excess(|full| - c, a.limit);
    assert (full + [a.time])[i..] == full[i..] + [a.time];
  }

  /** Every denied attempt would also be denied by the full log. */
  lemma DeniedByFullLog(cfg: Config, h: History)
    requires h != [] && IsMonotone(h)
    ensures Outcome(cfg, h).Denied? ==> |InWindow(h)| > Last(h).limit
  {
    var i := NewLogIsSuffix(cfg, h);
  }

  // ----- Without eviction the verdict is that of the full log

  /** The key is never evicted between two of its attempts. */
  ghost predicate NeverEvicted(cfg: Config, h: History, key: JsString) {
    forall i :: 0 <= i < |h| && h[i].key == key && IsUsed(h[..i], key) ==> IsRetained(cfg, h[..i], key)
  }

  /** Entries outlive the window. A time-to-live of 0 means for ever. */
  predicate OutlivesWindow(cfg: Config, window: real) {
    cfg.ttl <= 0.0 || window < cfg.ttl
  }

  lemma NeverEvictedFront(cfg: Config, h: History, key: JsString)
    requires h != [] && NeverEvicted(cfg, h, key)
    ensures NeverEvicted(cfg, Front(h), key)
  {
    forall i | 0 <= i < |Front(h)| && Front(h)[i].key == key && IsUsed(Front(h)[..i], key)
      ensures IsRetained(cfg, Front(h)[..i], key)
    {
      assert Front(h)[..i] == h[..i] && h[i].key == key;
    }
  }

  lemma {:induction false} TrailTimes(cfg: Config, h: History, key: JsString)
    ensures |Trail(cfg, h, key)| == |Full(h, key)|
    ensures forall i :: 0 <= i < |Full(h, key)| ==> Trail(cfg, h, key)[i].time == Full(h, key)[i]
    ensures IsUsed(h, key) <==> Full(h, key) != []
    ensures IsUsed(h, key) ==> Full(h, key)[|Full(h, key)| - 1] == LastTime(h, key)
  {
    if h != [] {
      TrailTimes(cfg, Front(h), key);
    }
  }

  /** A broken link is a gap wider than the window. */
  ghost predicate IsGapFree(trail: seq<Mark>, window: real) {
    forall i :: 0 < i < |trail| ==> trail[i].linked || trail[i].time - trail[i - 1].time > window
  }

  lemma {:induction false} TrailGapFree(cfg: Config, h: History, key: JsString, window: real)
    requires NeverEvicted(cfg, h, key) && OutlivesWindow(cfg, window)
    ensures IsGapFree(Trail(cfg, h, key), window)
  {
    if h != [] {
      NeverEvictedFront(cfg, h, key);
      TrailGapFree(cfg, Front(h), key, window);
      TrailTimes(cfg, Front(h), key);
      assert h[..|h| - 1] == Front(h);
    }
  }

  lemma ReachesInWindow(trail: seq<Mark>, window: real, j: nat)
    requires IsOrdered(trail) && IsGapFree(trail, window) && j < |trail|
    ensures Reaches(trail, window, j) <==>
            j == 0 || trail[|trail| - 1].time - trail[|trail| - 1 - j].time <= window
  {
    if j > 0 && trail[|trail| - 1].time - trail[|trail| - 1 - j].time <= window {
      forall i | |trail| - j <= i < |trail|
        ensures trail[i].linked
      {
        assert trail[i - 1].time >= trail[|trail| - 1 - j].time;
      }
    }
  }

  /** The attempt j places before the last one lies in the window of the last one. */
  lemma InWindowReach(h: History, j: nat)
    requires h != [] && IsMonotone(h) && j < |Full(h, Last(h).key)|
    ensures var full := Full(h, Last(h).key);
            j < |InWindow(h)| <==> j == 0 || full[|full| - 1] - full[|full| - 1 - j] <= Last(h).window
  {
    var earlier := Full(Front(h), Last(h).key);
    MonotoneFront(h);
    FullSorted(Front(h), Last(h).key);
    FilterCuts(earlier, Last(h).time, Last(h).window);
    var full := Full(h, Last(h).key);
    assert forall i :: 0 <= i < |earlier| ==> full[i] == earlier[i];
  }

  lemma InWindowIsSuffix(h: History)
    requires h != [] && IsMonotone(h)
    ensures |InWindow(h)| <= |Full(h, Last(h).key)|
    ensures forall i :: 0 <= i < |InWindow(h)| ==>
              InWindow(h)[i] == Full(h, Last(h).key)[|Full(h, Last(h).key)| - |InWindow(h)| + i]
  {
    var earlier := Full(Front(h), Last(h).key);
    MonotoneFront(h);
    FullSorted(Front(h), Last(h).key);
    FilterCuts(earlier, Last(h).time, Last(h).window);
  }

  /** Without eviction the live log is the window of the full log. */
  lemma LiveIsWindow(cfg: Config, h: History, window: real, limit: int)
    requires h != [] && IsMonotone(h) && IsFixed(h, Last(h).key, window, limit)
    requires NeverEvicted(cfg, h, Last(h).key) && OutlivesWindow(cfg, window)
    ensures Live(Trail(cfg, h, Last(h).key), window) == InWindow(h)
  {
    var key := Last(h).key;
    var trail := Trail(cfg, h, key);
    var live := Live(trail, window);
    TrailOrdered(cfg, h, key);
    TrailTimes(cfg, h, key);
    TrailGapFree(cfg, h, key, window);
    LiveTimes(trail, window);
    InWindowIsSuffix(h);
    var l, n := |live|, |InWindow(h)|;
    if l < n {
      LiveReach(trail, window, l);
      ReachesInWindow(trail, window, l);
      InWindowReach(h, l);
    } else if n < l {
      LiveReach(trail, window, n);
      ReachesInWindow(trail, window, n);
      InWindowReach(h, n);
    }
  }

  /** The truncated log decides as the full log does, and holds exactly its last limit + 2 timestamps in the window. */
  lemma ExactWithoutEviction(cfg: Config, h: History, window: real, limit: int)
    requires h != [] && IsMonotone(h) && IsFixed(h, Last(h).key, window, limit)
    requires NeverEvicted(cfg, h, Last(h).key) && OutlivesWindow(cfg, window)
    ensures NewLog(StoreAfter(cfg, Front(h)), cfg, Last(h)) == Newest(InWindow(h), limit + 2)
    ensures Outcome(cfg, h).Allowed? <==> |InWindow(h)| <= limit
  {
    LiveIsWindow(cfg, h, window, limit);
    NewLogIsNewest(cfg, h, Last(h).key, window, limit);
  }

  lemma ReachesIffLinked(cfg: Config, h: History, window: real, limit: nat)
    requires h != [] && IsMonotone(h) && IsFixed(h, Last(h).key, window, limit) && limit < |InWindow(h)|
    ensures limit < |Trail(cfg, h, Last(h).key)|
    ensures Reaches(Trail(cfg, h, Last(h).key), window, limit) <==> LinkedBack(Trail(cfg, h, Last(h).key), limit)
  {
    assert h[|h| - 1].window == window;
    TrailTimes(cfg, h, Last(h).key);
    InWindowIsSuffix(h);
    InWindowReach(h, limit);
  }

  /**
   * For every capacity and time-to-live: the verdict is that of the full log if and only if no link that matters is
   * broken. A link matters when the window holds more than `limit` attempts and it joins two of the last limit + 1.
   */
  lemma ExactIff(cfg: Config, h: History, window: real, limit: int)
    requires h != [] && IsMonotone(h) && IsFixed(h, Last(h).key, window, limit)
    ensures var trail := Trail(cfg, h, Last(h).key);
            (Outcome(cfg, h).Denied? <==> |InWindow(h)| > limit) <==>
            (0 <= limit < |InWindow(h)| ==> limit <= |trail| && LinkedBack(trail, limit))
  {
    DeniedIff(cfg, h, window, limit);
    if 0 <= limit < |InWindow(h)| {
      ReachesIffLinked(cfg, h, window, limit);
    } else {
      DeniedByFullLog(cfg, h);
      assert h[|h| - 1].limit == limit;
    }
  }

  // ----- When a key is never evicted

  function UsedKeys(h: History): set<JsString> {
    if h == [] then {} else UsedKeys(Front(h)) + {Last(h).key}
  }

  lemma {:induction false} SinceUsed(h: History, i: nat, key: JsString)
    requires i <= |h| && key in UsedKeys(h)
    ensures Since(h[..i], key) <= UsedKeys(h) - {key}
    decreases i
  {
    if i > 0 {
      assert Front(h[..i]) == h[..i - 1] && Last(h[..i]) == h[i - 1];
      SinceUsed(h, i - 1, key);
      UsedAt(h, i - 1);
    }
  }

  lemma {:induction false} UsedAt(h: History, i: nat)
    requires i < |h|
    ensures h[i].key in UsedKeys(h)
  {
    if i < |h| - 1 {
      UsedAt(Front(h), i);
    }
  }

  /** No key is evicted while at most maxItems keys are in use, or without a bound. */
  lemma FewKeysNeverEvicted(cfg: Config, h: History, key: JsString)
    requires cfg.maxItems == 0 || |UsedKeys(h)| <= cfg.maxItems
    ensures NeverEvicted(cfg, h, key)
  {
    forall i | 0 <= i < |h| && h[i].key == key && IsUsed(h[..i], key)
      ensures IsRetained(cfg, h[..i], key)
    {
      UsedAt(h, i);
      SinceUsed(h, i, key);
      SubsetCount(Since(h[..i], key), UsedKeys(h) - {key});
    }
  }

  // ----- The stored log exceeds the limit by two

  /** Attempts of one key, all at time 0, with a limit of 1. */
  function AtOnce(n: nat): History {
    seq(n, _ => Attempt([1], 10.0, 1, 0.0))
  }

  lemma AtOnceFront(n: nat)
    requires n > 0
    ensures Front(AtOnce(n)) == AtOnce(n - 1) && Last(AtOnce(n)) == Attempt([1], 10.0, 1, 0.0)
  {
  }

  lemma {:induction false} AtOnceLogs(n: nat)
    ensures |Full(AtOnce(n), [1])| == n
    ensures forall i :: 0 <= i < n ==> Full(AtOnce(n), [1])[i] == 0.0
  {
    if n > 0 {
      AtOnceFront(n);
      AtOnceLogs(n - 1);
    }
  }

  /** Three attempts at once with a limit of 1 leave three timestamps: one more than one more. */
  lemma ThreeAreKept()
    ensures var h := AtOnce(3);
            && h != [] && Last(h).limit == 1
            && |NewLog(StoreAfter(Config(0, 0.0), Front(h)), Config(0, 0.0), Last(h))| == 3
  {
    var cfg, h := Config(0, 0.0), AtOnce(3);
    AtOnceFront(3);
    AtOnceLogs(3);
    FewKeysNeverEvicted(cfg, h, [1]);
    ExactWithoutEviction(cfg, h, 10.0, 1);
    InWindowReach(h, 2);
    InWindowIsSuffix(h);
  }

  // ----- A loss is felt longer than until the next attempt

  const K: JsString := [1]
  const X: JsString := [2]

  /** One attempt each of K, X, K and K, a second apart, with a window of 10 and a limit of 2. */
  function Interrupted(n: nat): History
    requires n <= 4
  {
    if n == 0 then []
    else Interrupted(n - 1) + [Attempt(if n == 2 then X else K, 10.0, 2, n as real)]
  }

  lemma InterruptedFull()
    ensures Full(Interrupted(2), K) == [1.0]
    ensures Full(Interrupted(3), K) == [1.0, 3.0]
    ensures Full(Interrupted(4), K) == [1.0, 3.0, 4.0]
  {
    assert Full(Interrupted(1), K) == Full(Interrupted(0), K) + [1.0] == [1.0];
    assert K != X;
  }

  lemma InterruptedTrail(cfg: Config)
    requires cfg == Config(1, 0.0)
    ensures Trail(cfg, Interrupted(3), K) == [Mark(1.0, false), Mark(3.0, false)]
    ensures |Trail(cfg, Interrupted(4), K)| == 3 && !Trail(cfg, Interrupted(4), K)[1].linked
  {
    assert K != X;
    assert Trail(cfg, Interrupted(1), K) == [Mark(1.0, false)];
  }

  lemma BrokenLink(trail: seq<Mark>, j: nat, i: nat)
    requires j <= |trail| && |trail| - j <= i < |trail| && !trail[i].linked
    ensures !LinkedBack(trail, j)
  {
  }

  lemma InterruptedIsRegular()
    ensures IsMonotone(Interrupted(4)) && IsFixed(Interrupted(4), K, 10.0, 2)
  {
  }

  lemma InterruptedAllowed(cfg: Config)
    requires cfg == Config(1, 0.0)
    ensures Outcome(cfg, Interrupted(4)).Allowed?
  {
    var h := Interrupted(4);
    InterruptedIsRegular();
    InterruptedTrail(cfg);
    BrokenLink(Trail(cfg, h, K), 2, 1);
    DeniedIff(cfg, h, 10.0, 2);
  }

  lemma InterruptedInWindow()
    ensures Interrupted(4) != [] && |InWindow(Interrupted(4))| > 2
  {
    InterruptedIsRegular();
    InterruptedFull();
    InWindowReach(Interrupted(4), 2);
  }

  /**
   * Fewer than maxItems other keys used since the key's last attempt do not make a verdict exact: timestamps lost
   * before that attempt stay lost. DeniedIff tells which links matter.
   */
  lemma LossCarriesOver()
    ensures exists cfg: Config, h: History ::
              && h != [] && IsMonotone(h) && IsFixed(h, Last(h).key, 10.0, 2) && OutlivesWindow(cfg, 10.0)
              && IsUsed(Front(h), Last(h).key) && IsRetained(cfg, Front(h), Last(h).key)
              && |InWindow(h)| > 2 && Outcome(cfg, h).Allowed?
  {
    var cfg, h := Config(1, 0.0), Interrupted(4);
    InterruptedAllowed(cfg);
    InterruptedIsRegular();
    InterruptedInWindow();
  }
}
