/** The choice of endpoint spelled out in whole numbers, counts and places, without the functions of the code. */
module EndpointMeaning {
  import opened Prelude
  import opened StableSort
  import opened Endpoints
  import opened EndpointChoice

  // ----- Matches

  predicate Fits(req: Request, e: Endpoint) {
    req.verb.Some? && req.verb.value != [] && (e.verb == [0x2A] || e.verb == req.verb.value)
  }

  predicate HasRoute(req: Request, e: Endpoint) {
    req.route == Some(e.route)
  }

  /** A route with a star that the path of the URL passes. */
  predicate Passes(router: Router, req: Request, e: Endpoint) {
    && 0x2A in e.route
    && req.url.Some? && req.url.value != []
    && router.pathOf(req.url.value).Some? && router.pathOf(req.url.value).value != []
    && router.test(e.route, router.pathOf(req.url.value).value)
  }

  /** An endpoint for one method before one for all, and of two alike the one configured first. */
  predicate ComesFirst(a: Endpoint, b: Endpoint) {
    || (a.verb != [0x2A] && b.verb == [0x2A])
    || ((a.verb == [0x2A] <==> b.verb == [0x2A]) && a.place < b.place)
  }

  ghost predicate Matches(router: Router, req: Request, endpoints: seq<Endpoint>, e: Endpoint) {
    && e in endpoints && Fits(req, e)
    && (|| Passes(router, req, e)
        || (HasRoute(req, e) &&
            forall f :: f in endpoints && Fits(req, f) && HasRoute(req, f) ==> f == e || ComesFirst(e, f)))
  }

  predicate IsLimited(e: Endpoint) {
    e.rateLimiting.Some? && e.rateLimiting.value.enabled
  }

  lemma MatchesIff(router: Router, req: Request, endpoints: seq<Endpoint>, e: Endpoint)
    ensures IsMatch(router, req, endpoints, e) <==> Matches(router, req, endpoints, e)
    ensures IsEnabled(e) <==> IsLimited(e)
  {
    forall f
      ensures MethodFits(req, f) <==> Fits(req, f)
      ensures IsOwnRoute(req, f) <==> HasRoute(req, f)
      ensures ByMethod(e, f) <==> ComesFirst(e, f)
    {
    }
  }

  // ----- Rates and stars

  /** The endpoint allows fewer requests for the time: maxRequests / windowSizeInMS is smaller. */
  predicate IsStricter(a: RateLimiting, b: RateLimiting) {
    a.maxRequests * b.windowSizeInMS < b.maxRequests * a.windowSizeInMS
  }

  function Stars(e: Endpoint): nat {
    multiset(e.route)[0x2A]
  }

  lemma {:induction false} StarsAreCounted(route: JsString)
    ensures CountStars(route) == multiset(route)[0x2A]
  {
    if route != [] {
      StarsAreCounted(route[1..]);
      assert route == [route[0]] + route[1..];
    }
  }

  predicate HasWindow(e: Endpoint) {
    IsLimited(e) && e.rateLimiting.value.windowSizeInMS > 0
  }

  /** Rates with windows compare as the cross products. */
  lemma RateOrder(a: Endpoint, b: Endpoint)
    requires HasWindow(a) && HasWindow(b)
    ensures Rate(a) != NotANumber
    ensures IsBelow(Rate(a), Rate(b)) <==> IsStricter(a.rateLimiting.value, b.rateLimiting.value)
    ensures Rate(a) == Rate(b) <==>
            !IsStricter(a.rateLimiting.value, b.rateLimiting.value) &&
            !IsStricter(b.rateLimiting.value, a.rateLimiting.value)
  {
  }

  /** a is stricter, or as strict with more stars in its route, or alike in both and comes first. */
  predicate IsPreferred(a: Endpoint, b: Endpoint)
    requires HasWindow(a) && HasWindow(b)
  {
    || IsStricter(a.rateLimiting.value, b.rateLimiting.value)
    || (!IsStricter(b.rateLimiting.value, a.rateLimiting.value) &&
        (Stars(a) > Stars(b) || (Stars(a) == Stars(b) && ComesFirst(a, b))))
  }

  lemma PreferredIff(a: Endpoint, b: Endpoint)
    requires HasWindow(a) && HasWindow(b)
    ensures ByRate(a, b) <==> IsPreferred(a, b)
  {
    RateOrder(a, b);
    StarsAreCounted(a.route);
    StarsAreCounted(b.route);
  }

  /** Without a window an endpoint that allows requests is laxer than any with one; if it allows 0 it ties with all. */
  lemma WithoutWindow(a: Endpoint, b: Endpoint)
    requires HasWindow(a) && IsLimited(b) && b.rateLimiting.value.windowSizeInMS == 0
    ensures b.rateLimiting.value.maxRequests > 0 ==> ByRate(a, b) && !ByRate(b, a)
    ensures b.rateLimiting.value.maxRequests < 0 ==> ByRate(b, a) && !ByRate(a, b)
    ensures b.rateLimiting.value.maxRequests == 0 ==> AreTied(a, b)
  {
    RateOrder(a, a);
  }

  // ----- The choice

  /** A request is charged to none if and only if no match is limited. */
  lemma ChargedToNone(router: Router, req: Request, endpoints: seq<Endpoint>)
    ensures (forall e :: IsMatch(router, req, endpoints, e) ==> !IsEnabled(e)) <==>
            (forall e :: Matches(router, req, endpoints, e) ==> !IsLimited(e))
  {
    forall e
      ensures IsMatch(router, req, endpoints, e) <==> Matches(router, req, endpoints, e)
      ensures IsEnabled(e) <==> IsLimited(e)
    {
      MatchesIff(router, req, endpoints, e);
    }
  }

  /** What is chosen is a limited match; with the own route if there is one, and of those the first. */
  lemma ChargedToOwnRoute(router: Router, req: Request, endpoints: seq<Endpoint>, e: Endpoint, f: Endpoint)
    requires IsCharged(router, req, endpoints, e)
    requires Matches(router, req, endpoints, f) && IsLimited(f) && HasRoute(req, f)
    ensures Matches(router, req, endpoints, e) && IsLimited(e)
    ensures HasRoute(req, e) && (f == e || ComesFirst(e, f))
  {
    MatchesIff(router, req, endpoints, e);
    MatchesIff(router, req, endpoints, f);
    assert IsOwnRoute(req, f);
  }

  /** No limited match has the request's own route, and each of them has a window. */
  ghost predicate OnlyWildcards(router: Router, req: Request, endpoints: seq<Endpoint>) {
    forall f :: Matches(router, req, endpoints, f) && IsLimited(f) ==> !HasRoute(req, f) && HasWindow(f)
  }

  /** Else it is the strictest limited match; ties go to more stars, then to one method, then to configuration order. */
  lemma ChargedToStrictest(router: Router, req: Request, endpoints: seq<Endpoint>, e: Endpoint, f: Endpoint)
    requires IsCharged(router, req, endpoints, e) && OnlyWildcards(router, req, endpoints)
    requires Matches(router, req, endpoints, f) && IsLimited(f)
    ensures Matches(router, req, endpoints, e) && HasWindow(e) && HasWindow(f)
    ensures f == e || IsPreferred(e, f)
  {
    MatchesIff(router, req, endpoints, e);
    MatchesIff(router, req, endpoints, f);
    forall g | IsMatch(router, req, endpoints, g) && IsEnabled(g)
      ensures !IsOwnRoute(req, g) && Rate(g) != NotANumber
    {
      MatchesIff(router, req, endpoints, g);
      RateOrder(g, g);
    }
    assert HaveRates(router, req, endpoints);
    PreferredIff(e, f);
  }
}
