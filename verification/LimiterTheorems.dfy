/** When the limiter denies, exactly; and what follows for exactness, throughput and the retry hint. */
module LimiterTheorems {
  import opened Prelude
  import opened LruSpec
  import opened SlidingWindow
  import opened Residency
  import opened LimiterRuns

  // ----- The log that would be kept if nothing were truncated

  /** What the links and the window leave of the attempts so far. */
  function Live(trail: seq<Mark>, window: real): (log: Log)
    ensures trail != [] ==> log != []
  {
    if trail == [] then []
    else
      var last := trail[|trail| - 1];
      (if last.linked then Filter(Live(trail[..|trail| - 1], window), last.time, window) else []) + [last.time]
  }

  ghost predicate IsOrdered(trail: seq<Mark>) {
    forall i, j :: 0 <= i <= j < |trail| ==> trail[i].time <= trail[j].time
  }

  lemma {:induction false} TrailOrdered(cfg: Config, h: History, key: JsString)
    requires IsMonotone(h)
    ensures IsOrdered(Trail(cfg, h, key))
    ensures h != [] ==> forall i :: 0 <= i < |Trail(cfg, h, key)| ==> Trail(cfg, h, key)[i].time <= Last(h).time
  {
    if h != [] {
      MonotoneFront(h);
      TrailOrdered(cfg, Front(h), key);
    }
  }

  lemma {:induction false} LiveSorted(trail: seq<Mark>, window: real)
    requires IsOrdered(trail)
    ensures IsSorted(Live(trail, window))
    ensures forall i :: 0 <= i < |Live(trail, window)| ==> Live(trail, window)[i] <= trail[|trail| - 1].time
  {
    if trail != [] {
      var front, last := trail[..|trail| - 1], trail[|trail| - 1];
      LiveSorted(front, window);
      RecordedSorted(Live(front, window), last.time, window);
    }
  }

  lemma RecordedSorted(log: Log, now: real, window: real)
    requires IsSorted(log) && forall i :: 0 <= i < |log| ==> log[i] <= now
    ensures IsSorted(Filter(log, now, window) + [now])
    ensures forall i :: 0 <= i <= |Filter(log, now, window)| ==> (Filter(log, now, window) + [now])[i] <= now
  {
    FilterCuts(log, now, window);
  }

  // ----- The stored log is the newest limit + 2 of the live one

  /** The log is found exactly when the attempt is linked. */
  lemma FoundIffLinked(cfg: Config, h: History, key: JsString, now: real)
    ensures GetValue(StoreAfter(cfg, h), cfg.ttl, key, now).Some? <==> IsLinked(cfg, h, key, now)
  {
    HoldsIffRetained(cfg, h, key);
    if HasKey(StoreAfter(cfg, h), key) {
      EntryExpiry(cfg, h, key);
    }
  }

  lemma {:induction false} NewLogIsNewest(cfg: Config, h: History, key: JsString, window: real, limit: int)
    requires h != [] && Last(h).key == key && IsMonotone(h) && IsFixed(h, key, window, limit)
    ensures NewLog(StoreAfter(cfg, Front(h)), cfg, Last(h)) == Newest(Live(Trail(cfg, h, key), window), limit + 2)
    decreases |h|, 0
  {
    var front, a := Front(h), Last(h);
    var trail := Trail(cfg, front, key);
    assert Trail(cfg, h, key)[..|trail|] == trail;
    MonotoneFront(h);
    FoundIffLinked(cfg, front, key, a.time);
    if IsLinked(cfg, front, key, a.time) {
      StoredIsNewest(cfg, front, key, window, limit);
      TrailOrdered(cfg, front, key);
      LiveSorted(trail, window);
      LoggedNewest(Live(trail, window), a);
    } else {
      assert [] + [a.time] == [a.time];
    }
  }

  /** The truncated log is exactly the last limit + 2 of the log without truncation. */
  lemma {:induction false} StoredIsNewest(cfg: Config, h: History, key: JsString, window: real, limit: int)
    requires IsMonotone(h) && IsFixed(h, key, window, limit) && HasKey(StoreAfter(cfg, h), key)
    ensures Trail(cfg, h, key) != []
    ensures Lookup(StoreAfter(cfg, h), key).value.value == Newest(Live(Trail(cfg, h, key), window), limit + 2)
    decreases |h|, 1
  {
    EntryAfter(cfg, h, key);
    if Last(h).key == key {
      NewLogIsNewest(cfg, h, key, window, limit);
    } else {
      MonotoneFront(h);
      StoredIsNewest(cfg, Front(h), key, window, limit);
    }
  }

  /** Truncation never changes a verdict. */
  lemma AllowedIffLiveFits(cfg: Config, h: History, window: real, limit: int)
    requires h != [] && IsMonotone(h) && IsFixed(h, Last(h).key, window, limit)
    ensures Outcome(cfg, h).Allowed? <==> |Live(Trail(cfg, h, Last(h).key), window)| <= limit
  {
    NewLogIsNewest(cfg, h, Last(h).key, window, limit);
  }

  // ----- Which attempts the live log reaches back to

  /** The last j attempts of the trail all found the log of the attempt before them. */
  ghost predicate LinkedBack(trail: seq<Mark>, j: nat)
    requires j <= |trail|
  {
    forall i :: |trail| - j <= i < |trail| ==> trail[i].linked
  }

  /** The attempt j places before the last one still counts. */
  ghost predicate Reaches(trail: seq<Mark>, window: real, j: nat)
    requires j < |trail|
  {
    j == 0 || (trail[|trail| - 1].time - trail[|trail| - 1 - j].time <= window && LinkedBack(trail, j))
  }

  /** The live log is the tail of the trail's times. */
  lemma {:induction false} LiveTimes(trail: seq<Mark>, window: real)
    requires IsOrdered(trail)
    ensures |Live(trail, window)| <= |trail|
    ensures forall i :: 0 <= i < |Live(trail, window)| ==>
              Live(trail, window)[i] == trail[|trail| - |Live(trail, window)| + i].time
  {
    if trail != [] {
      var front, last := trail[..|trail| - 1], trail[|trail| - 1];
      LiveTimes(front, window);
      LiveSorted(front, window);
      if last.linked {
        RecordedTimes(Live(front, window), trail, window);
      }
    }
  }

  lemma RecordedTimes(log: Log, trail: seq<Mark>, window: real)
    requires trail != [] && IsSorted(log) && |log| < |trail|
    requires forall i :: 0 <= i < |log| ==> log[i] == trail[|trail| - 1 - |log| + i].time
    ensures var recorded := Filter(log, trail[|trail| - 1].time, window) + [trail[|trail| - 1].time];
            && |recorded| <= |trail|
            && forall i :: 0 <= i < |recorded| ==> recorded[i] == trail[|trail| - |recorded| + i].time
  {
    FilterCuts(log, trail[|trail| - 1].time, window);
  }

  lemma {:induction false} LiveReach(trail: seq<Mark>, window: real, j: nat)
    requires IsOrdered(trail) && j < |trail|
    ensures j < |Live(trail, window)| <==> Reaches(trail, window, j)
  {
    var front, last := trail[..|trail| - 1], trail[|trail| - 1];
    if j > 0 {
      if last.linked {
        LiveReach(front, window, j - 1);
        LiveTimes(front, window);
        LiveSorted(front, window);
        StillCounts(Live(front, window), front, last.time, window, j);
      } else {
        assert !trail[|trail| - 1].linked;
      }
    }
  }

  /** One attempt later the j-th last timestamp has survived if it had survived before and is in the window. */
  lemma StillCounts(log: Log, front: seq<Mark>, now: real, window: real, j: nat)
    requires IsSorted(log) && |log| <= |front| && 0 < j <= |front|
    requires forall i :: 0 <= i < |log| ==> log[i] == front[|front| - |log| + i].time
    ensures j <= |Filter(log, now, window)| <==> j <= |log| && now - front[|front| - j].time <= window
  {
    FilterCuts(log, now, window);
    if j <= |log| {
      assert log[|log| - j] == front[|front| - j].time;
    }
  }

  /**
   * The stored log exceeds the limit by more than one, and then by two unless the limit is below -1, if and only if the
   * limit + 2 last attempts of the key, this one included, all lie in its window and each but the first of them found
   * the log of the one before, or the limit is negative.
   */
  lemma ExceedsByTwoIff(cfg: Config, h: History, window: real, limit: int)
    requires h != [] && IsMonotone(h) && IsFixed(h, Last(h).key, window, limit)
    ensures var stored, trail := |NewLog(StoreAfter(cfg, Front(h)), cfg, Last(h))|, Trail(cfg, h, Last(h).key);
            && stored <= (if limit < -1 then 1 else limit + 2)
            && (stored > limit + 1 <==> limit < 0 || (limit + 1 < |trail| && Reaches(trail, window, limit + 1)))
  {
    var trail := Trail(cfg, h, Last(h).key);
    NewLogIsNewest(cfg, h, Last(h).key, window, limit);
    TrailOrdered(cfg, h, Last(h).key);
    LiveTimes(trail, window);
    if 0 <= limit < |trail| - 1 {
      LiveReach(trail, window, limit + 1);
    }
  }

  /**
   * The exact condition, for every capacity and time-to-live: an attempt is denied if and only if the limit + 1
   * last attempts of its key, itself included, all lie in its window and each but the first of them found the log
   * of the one before, neither evicted nor expired.
   */
  lemma DeniedIff(cfg: Config, h: History, window: real, limit: int)
    requires h != [] && IsMonotone(h) && IsFixed(h, Last(h).key, window, limit)
    ensures Outcome(cfg, h).Denied? <==>
            var trail := Trail(cfg, h, Last(h).key);
            limit < 0 || (limit < |trail| && Reaches(trail, window, limit))
  {
    var trail := Trail(cfg, h, Last(h).key);
    AllowedIffLiveFits(cfg, h, window, limit);
    TrailOrdered(cfg, h, Last(h).key);
    if 0 <= limit < |trail| {
      LiveReach(trail, window, limit);
    } else {
      LiveTimes(trail, window);
    }
  }
}
