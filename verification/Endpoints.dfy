/** Which configured endpoints a request matches, and to which of them it is charged. */
module Endpoints {
  import opened Prelude
  import opened StableSort

  const STAR: CodeUnit := 0x2A
  const ANY_METHOD: JsString := [STAR]

  datatype RateLimiting = RateLimiting(enabled: bool, maxRequests: int, windowSizeInMS: int)

  /** A configured endpoint; `place` is its position in the configuration. */
  datatype Endpoint = Endpoint(place: nat, verb: JsString, route: JsString, rateLimiting: Option<RateLimiting>)

  /** What a request is matched by; None is undefined. */
  datatype Request = Request(verb: Option<JsString>, route: Option<JsString>, url: Option<JsString>)

  /** The path of a URL, if it parses, and whether a wildcard route, as a regular expression, matches a path. */
  datatype Router = Router(pathOf: JsString -> Option<JsString>, test: (JsString, JsString) -> bool)

  /** Neither undefined nor the empty string. */
  predicate IsSet(s: Option<JsString>) {
    s.Some? && s.value != []
  }

  function CountStars(route: JsString): nat {
    if route == [] then 0 else (if route[0] == STAR then 1 else 0) + CountStars(route[1..])
  }

  /** A quotient in JavaScript: dividing by 0 does not throw. */
  datatype Number = Finite(value: real) | Infinite | NegativeInfinite | NotANumber

  function Quotient(a: int, b: int): Number {
    if b != 0 then Finite(a as real / b as real)
    else if a > 0 then Infinite
    else if a < 0 then NegativeInfinite
    else NotANumber
  }

  function Difference(a: Number, b: Number): Number {
    if a.NotANumber? || b.NotANumber? then NotANumber
    else if a.Finite? && b.Finite? then Finite(a.value - b.value)
    else if a == b then NotANumber
    else if a.Infinite? || b.NegativeInfinite? then Infinite
    else NegativeInfinite
  }

  /** The code asks for the rate of endpoints with rate limiting only. */
  function Rate(e: Endpoint): Number {
    match e.rateLimiting
    case None => NotANumber
    case Some(limiting) => Quotient(limiting.maxRequests, limiting.windowSizeInMS)
  }

  // ----- The comparators of the three sorts: a may stand before b

  predicate MethodsInOrder(a: Endpoint, b: Endpoint) {
    var compared := if a.verb == b.verb then 0 else if a.verb == ANY_METHOD then 1 else -1;
    compared <= 0
  }

  predicate StarsInOrder(a: Endpoint, b: Endpoint) {
    CountStars(b.route) - CountStars(a.route) <= 0
  }

  /** A sort takes a comparison that is not a number for a tie. */
  predicate RatesInOrder(a: Endpoint, b: Endpoint) {
    match Difference(Rate(a), Rate(b))
    case Finite(d) => d <= 0.0
    case Infinite => false
    case _ => true
  }

  // ----- The filters

  predicate MethodFits(req: Request, e: Endpoint) {
    IsSet(req.verb) && (e.verb == ANY_METHOD || e.verb == req.verb.value)
  }

  predicate IsOwnRoute(req: Request, e: Endpoint) {
    Some(e.route) == req.route
  }

  predicate IsWildcard(e: Endpoint) {
    STAR in e.route
  }

  predicate PathFits(router: Router, req: Request, e: Endpoint) {
    && IsSet(req.url) && IsSet(router.pathOf(req.url.value))
    && router.test(e.route, router.pathOf(req.url.value).value)
  }

  /** The filters as the arguments of filter and find. */
  function FitsMethod(req: Request): Endpoint -> bool {
    e => MethodFits(req, e)
  }

  function HasOwnRoute(req: Request): Endpoint -> bool {
    e => IsOwnRoute(req, e)
  }

  function FitsPath(router: Router, req: Request): Endpoint -> bool {
    e => PathFits(router, req, e)
  }

  predicate IsEnabled(e: Endpoint) {
    e.rateLimiting.Some? && e.rateLimiting.value.enabled
  }

  // ----- Matching

  function Possible(req: Request, endpoints: seq<Endpoint>): seq<Endpoint> {
    Sort(Filter(endpoints, FitsMethod(req)), MethodsInOrder)
  }

  function Wildcards(possible: seq<Endpoint>): seq<Endpoint> {
    Sort(Filter(possible, IsWildcard), StarsInOrder)
  }

  function Find(s: seq<Endpoint>, p: Endpoint -> bool): Option<Endpoint> {
    if s == [] then None else if p(s[0]) then Some(s[0]) else Find(s[1..], p)
  }

  function Exact(req: Request, possible: seq<Endpoint>): seq<Endpoint> {
    match Find(possible, HasOwnRoute(req))
    case None => []
    case Some(e) => [e]
  }

  function Matching(router: Router, req: Request, endpoints: seq<Endpoint>): seq<Endpoint> {
    var possible := Possible(req, endpoints);
    Exact(req, possible) + Filter(Wildcards(possible), FitsPath(router, req))
  }

  lemma {:induction false} FilterAppend(s: seq<Endpoint>, e: Endpoint, keep: Endpoint -> bool)
    ensures Filter(s + [e], keep) == Filter(s, keep) + if keep(e) then [e] else []
  {
    if s != [] {
      assert (s + [e])[1..] == s[1..] + [e];
      FilterAppend(s[1..], e, keep);
    }
  }

  lemma {:induction false} FilterNone(s: seq<Endpoint>, keep: Endpoint -> bool)
    requires forall e :: e in s ==> !keep(e)
    ensures Filter(s, keep) == []
  {
    if s != [] {
      assert s[0] in s;
      FilterNone(s[1..], keep);
    }
  }

  method MatchEndpoints(router: Router, req: Request, endpoints: seq<Endpoint>) returns (matches: seq<Endpoint>)
    ensures matches == Matching(router, req, endpoints)
  {
    if |endpoints| == 0 {
      return [];
    }
    if !IsSet(req.verb) {
      FilterNone(endpoints, FitsMethod(req));
      return [];
    }
    var possible := Filter(endpoints, FitsMethod(req));
    possible := Sort(possible, MethodsInOrder);
    matches := [];
    var exact := Find(possible, HasOwnRoute(req));
    if exact.Some? {
      matches := matches + [exact.value];
    }
    ghost var exacts := matches;
    ghost var keep := FitsPath(router, req);
    var wildcards := Sort(Filter(possible, IsWildcard), StarsInOrder);
    if !IsSet(req.url) {
      FilterNone(wildcards, keep);
      return;
    }
    var path := router.pathOf(req.url.value);
    if IsSet(path) {
      for i := 0 to |wildcards|
        invariant matches == exacts + Filter(wildcards[..i], keep)
      {
        FilterAppend(wildcards[..i], wildcards[i], keep);
        assert wildcards[..i + 1] == wildcards[..i] + [wildcards[i]];
        if router.test(wildcards[i].route, path.value) {
          matches := matches + [wildcards[i]];
        }
      }
      assert wildcards[..|wildcards|] == wildcards;
    } else {
      FilterNone(wildcards, keep);
    }
  }
}
