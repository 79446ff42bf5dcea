/** The sliding-window rate limiter on top of the LRU map. */
module RateLimiter {
  import opened Prelude
  import opened LruMap
  import opened SlidingWindow
  import opened Residency
  import opened LimiterRuns

  class RateLimiter {
    const maxItems: nat
    const timeToLiveInMS: real
    const rateLimitedItems: LRUMap<JsString, Log>

    // Every attempt so far.
    ghost var history: History

    ghost function Repr(): set<object>
      reads this, rateLimitedItems
    {
      {this} + rateLimitedItems.Repr()
    }

    /** The map is sound and of the limiter's own capacity and time-to-live. */
    ghost predicate HasMap()
      reads this, rateLimitedItems, rateLimitedItems.order
    {
      && rateLimitedItems.Valid()
      && rateLimitedItems.max == maxItems && rateLimitedItems.ttl == timeToLiveInMS
    }

    /** And it holds what the attempts so far have left in it. */
    ghost predicate Valid()
      reads this, rateLimitedItems, rateLimitedItems.order
    {
      HasMap() && rateLimitedItems.entries == StoreAfter(Cfg(), history)
    }

    ghost function Cfg(): Config {
      Config(maxItems, timeToLiveInMS)
    }

    constructor (maxItems: nat, timeToLiveInMS: real)
      requires timeToLiveInMS >= 0.0
      ensures Valid() && history == [] && fresh(Repr())
      ensures Cfg() == Config(maxItems, timeToLiveInMS)
    {
      this.maxItems := maxItems;
      this.timeToLiveInMS := timeToLiveInMS;
      rateLimitedItems := new LRUMap(maxItems, timeToLiveInMS);
      history := [];
    }

    /** The code of isAllowed, as one step on the entries of the map. */
    method Admit(key: JsString, windowSizeInMS: real, maxRequests: int, currentTime: real) returns (r: Verdict)
      requires HasMap()
      modifies rateLimitedItems.Repr()
      ensures HasMap()
      ensures forall x <- rateLimitedItems.order :: x in old(rateLimitedItems.order) || fresh(x)
      ensures r == Answer(old(rateLimitedItems.entries), Cfg(), Attempt(key, windowSizeInMS, maxRequests, currentTime))
      ensures rateLimitedItems.entries ==
              Record(old(rateLimitedItems.entries), Cfg(), Attempt(key, windowSizeInMS, maxRequests, currentTime))
    {
      ghost var a := Attempt(key, windowSizeInMS, maxRequests, currentTime);
      var found := rateLimitedItems.Get(key, currentTime);
      var requestTimestamps := if found.Some? then found.value else [];
      var filteredTimestamps := SlideWindow(requestTimestamps, currentTime, windowSizeInMS, maxRequests, a);
      rateLimitedItems.Set(key, filteredTimestamps, currentTime);
      r := Decide(filteredTimestamps, currentTime, windowSizeInMS, maxRequests, a);
    }

    /** The verdict is the outcome of the whole history up to and including this attempt. */
    method IsAllowed(key: JsString, windowSizeInMS: real, maxRequests: int, currentTime: real) returns (r: Verdict)
      requires Valid()
      modifies `history, rateLimitedItems.Repr()
      ensures Valid()
      ensures forall x <- rateLimitedItems.order :: x in old(rateLimitedItems.order) || fresh(x)
      ensures history == old(history) + [Attempt(key, windowSizeInMS, maxRequests, currentTime)]
      ensures r == Outcome(Cfg(), history)
    {
      StoreOneMore(Cfg(), history, Attempt(key, windowSizeInMS, maxRequests, currentTime));
      history := history + [Attempt(key, windowSizeInMS, maxRequests, currentTime)];
      r := Admit(key, windowSizeInMS, maxRequests, currentTime);
    }
  }

  lemma StoreOneMore(cfg: Config, h: History, a: Attempt)
    ensures StoreAfter(cfg, h + [a]) == Record(StoreAfter(cfg, h), cfg, a)
    ensures Outcome(cfg, h + [a]) == Answer(StoreAfter(cfg, h), cfg, a)
  {
    assert Front(h + [a]) == h && Last(h + [a]) == a;
  }

  /** The constructor as callers see it: null where the map underneath throws. */
  method NewRateLimiter(maxItems: int, timeToLiveInMS: real) returns (r: RateLimiter?)
    ensures r == null <==> maxItems < 0 || timeToLiveInMS < 0.0
    ensures r != null ==>
              && fresh(r.Repr()) && r.Valid() && r.history == []
              && r.Cfg() == Config(maxItems, timeToLiveInMS)
  {
    if maxItems < 0 || timeToLiveInMS < 0.0 {
      return null;
    }
    r := new RateLimiter(maxItems, timeToLiveInMS);
  }

  /** The history once n of the attempts were made. */
  ghost function Upto(before: History, attempts: seq<Attempt>, n: nat): History
    requires n <= |attempts|
  {
    before + attempts[..n]
  }

  lemma UptoNext(before: History, attempts: seq<Attempt>, n: nat)
    requires n < |attempts|
    ensures Upto(before, attempts, n + 1) == Upto(before, attempts, n) + [attempts[n]]
  {
  }

  /** The outcomes of the first n attempts, each that of the history up to its own attempt. */
  ghost function Outcomes(cfg: Config, before: History, attempts: seq<Attempt>, n: nat): seq<Verdict>
    requires n <= |attempts|
  {
    if n == 0 then []
    else Outcomes(cfg, before, attempts, n - 1) + [Outcome(cfg, Upto(before, attempts, n - 1) + [attempts[n - 1]])]
  }

  lemma UptoAll(before: History, attempts: seq<Attempt>)
    ensures Upto(before, attempts, 0) == before && Upto(before, attempts, |attempts|) == before + attempts
  {
  }

  /** A run of attempts on one limiter. */
  method AllowAll(limiter: RateLimiter, attempts: seq<Attempt>) returns (verdicts: seq<Verdict>)
    requires limiter.Valid()
    modifies limiter.Repr()
    ensures limiter.Valid() && limiter.history == old(limiter.history) + attempts
    ensures forall x <- limiter.rateLimitedItems.order :: x in old(limiter.rateLimitedItems.order) || fresh(x)
    ensures verdicts == Outcomes(limiter.Cfg(), old(limiter.history), attempts, |attempts|)
  {
    ghost var before := limiter.history;
    UptoAll(before, attempts);
    verdicts := [];
    for i := 0 to |attempts|
      invariant limiter.Valid() && limiter.history == Upto(before, attempts, i)
      invariant forall x <- limiter.rateLimitedItems.order :: x in old(limiter.rateLimitedItems.order) || fresh(x)
      invariant verdicts == Outcomes(limiter.Cfg(), before, attempts, i)
    {
      var a := attempts[i];
      var r := limiter.IsAllowed(a.key, a.window, a.limit, a.time);
      UptoNext(before, attempts, i);
      verdicts := verdicts + [r];
    }
  }

  /** The middle part of isAllowed: filter, truncate and push. */
  method SlideWindow(requestTimestamps: Log, currentTime: real, windowSizeInMS: real, maxRequests: int,
                     ghost a: Attempt)
    returns (filteredTimestamps: Log)
    requires a.time == currentTime && a.window == windowSizeInMS && a.limit == maxRequests
    ensures filteredTimestamps == Logged(requestTimestamps, a)
    ensures IsSorted(requestTimestamps) ==>
              var n, k := |requestTimestamps|, Dropped(requestTimestamps, filteredTimestamps);
              && 0 <= k <= n && filteredTimestamps == requestTimestamps[k..] + [currentTime]
              && forall i :: 0 <= i < n ==>
                   (k <= i <==> currentTime - requestTimestamps[i] <= windowSizeInMS && n - i <= maxRequests + 1)
  {
    if IsSorted(requestTimestamps) {
      LoggedKeeps(requestTimestamps, a);
    }
    filteredTimestamps := Filter(requestTimestamps, currentTime, windowSizeInMS);

    // Together with the timestamp pushed below there may be maxRequests + 2 of them.
    if |filteredTimestamps| > maxRequests + 1 {
      filteredTimestamps := DropFirst(filteredTimestamps, |filteredTimestamps| - (maxRequests + 1));
    }

    filteredTimestamps := filteredTimestamps + [currentTime];
  }

  /** The last part of isAllowed: the verdict, with the time to wait rounded up to seconds. */
  method Decide(filteredTimestamps: Log, currentTime: real, windowSizeInMS: real, maxRequests: int, ghost a: Attempt)
    returns (r: Verdict)
    requires filteredTimestamps != []
    requires a.time == currentTime && a.window == windowSizeInMS && a.limit == maxRequests
    ensures r == Judge(filteredTimestamps, a)
    ensures r.Allowed? <==> |filteredTimestamps| <= maxRequests
    ensures r.Denied? ==>
              && 0 <= r.retryAfterSeconds
              && forall n: nat ::
                   r.retryAfterSeconds <= n <==> IsWaitedOut(filteredTimestamps[0], windowSizeInMS, currentTime, n)
  {
    WaitIsLeast(filteredTimestamps, a);
    if |filteredTimestamps| <= maxRequests {
      return Allowed;
    }

    var wait := filteredTimestamps[0] + windowSizeInMS - currentTime;
    var retryAfterMs := if wait < 0.0 then 0.0 else wait;
    return Denied(Ceil(retryAfterMs / 1000.0));
  }
}
