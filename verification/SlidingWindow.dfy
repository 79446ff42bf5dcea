/** One attempt against the sliding-window limiter, as a step on the sequence of LruSpec. */
module SlidingWindow {
  import opened Prelude
  import opened LruSpec

  type Log = seq<real>
  type LogStore = seq<Entry<JsString, Log>>

  datatype Attempt = Attempt(key: JsString, window: real, limit: int, time: real)
  datatype Config = Config(maxItems: nat, ttl: real)
  datatype Verdict = Allowed | Denied(retryAfterSeconds: int)

  /** `timestamps.filter(t => now - t <= window)` */
  function Filter(log: Log, now: real, window: real): Log {
    FilterFrom(log, 0, now, window)
  }

  function FilterFrom(log: Log, i: nat, now: real, window: real): Log
    requires i <= |log|
    decreases |log| - i
  {
    if i == |log| then []
    else if now - log[i] <= window then [log[i]] + FilterFrom(log, i + 1, now, window)
    else FilterFrom(log, i + 1, now, window)
  }

  /** `splice(0, n)` removes at most what there is. */
  function DropFirst(log: Log, n: int): Log
    requires n >= 0
  {
    if n <= |log| then log[n..] else []
  }

  /** At most limit + 1 timestamps are kept before the current one is added. */
  function Truncate(log: Log, limit: int): Log {
    if |log| > limit + 1 then DropFirst(log, |log| - (limit + 1)) else log
  }

  function Logged(log: Log, a: Attempt): (r: Log)
    ensures r != []
  {
    Truncate(Filter(log, a.time, a.window), a.limit) + [a.time]
  }

  function RetryAfterMs(log: Log, a: Attempt): real
    requires log != []
  {
    var wait := log[0] + a.window - a.time;
    if wait < 0.0 then 0.0 else wait
  }

  function Ceil(x: real): (n: int)
    ensures n as real - 1.0 < x <= n as real
  {
    -((-x).Floor)
  }

  function Judge(log: Log, a: Attempt): Verdict
    requires log != []
  {
    if |log| <= a.limit then Allowed else Denied(Ceil(RetryAfterMs(log, a) / 1000.0))
  }

  function Recalled(es: LogStore, cfg: Config, a: Attempt): Log {
    match GetValue(es, cfg.ttl, a.key, a.time)
    case None => []
    case Some(log) => log
  }

  /** The log of the attempt's key once the attempt is recorded. */
  function NewLog(es: LogStore, cfg: Config, a: Attempt): (r: Log)
    ensures r != []
  {
    Logged(Recalled(es, cfg, a), a)
  }

  /** The store after the attempt: a get and then a set. */
  function Record(es: LogStore, cfg: Config, a: Attempt): LogStore {
    AfterSet(AfterGet(es, cfg.ttl, a.key, a.time), cfg.maxItems, cfg.ttl, a.key, NewLog(es, cfg, a), a.time)
  }

  function Answer(es: LogStore, cfg: Config, a: Attempt): Verdict {
    Judge(NewLog(es, cfg, a), a)
  }
}
