/** The endpoint a request is charged to is the least of its matches in an order told from the configuration. */
module EndpointChoice {
  import opened Prelude
  import opened StableSort
  import opened Endpoints

  // ----- The orders, each settling the ties of the next

  predicate Earlier(a: Endpoint, b: Endpoint) {
    a.place < b.place
  }

  /** Exact methods before "*", then configuration order. */
  predicate ByMethod(a: Endpoint, b: Endpoint) {
    if (a.verb == ANY_METHOD) == (b.verb == ANY_METHOD) then Earlier(a, b) else b.verb == ANY_METHOD
  }

  /** More "*" in the route first. */
  predicate ByStars(a: Endpoint, b: Endpoint) {
    CountStars(a.route) > CountStars(b.route) || (CountStars(a.route) == CountStars(b.route) && ByMethod(a, b))
  }

  /** The order of numbers, with the infinities at its ends. */
  predicate IsBelow(a: Number, b: Number) {
    match (a, b)
    case (Finite(x), Finite(y)) => x < y
    case (NegativeInfinite, Finite(_)) => true
    case (NegativeInfinite, Infinite) => true
    case (Finite(_), Infinite) => true
    case _ => false
  }

  /** Fewer requests per millisecond first. */
  predicate ByRate(a: Endpoint, b: Endpoint) {
    IsBelow(Rate(a), Rate(b)) || (Rate(a) == Rate(b) && ByStars(a, b))
  }

  /** The endpoints stand as configured. */
  ghost predicate IsConfiguration(endpoints: seq<Endpoint>) {
    IsChain(endpoints, Earlier)
  }

  // ----- What the sorts achieve

  lemma PossibleMember(req: Request, endpoints: seq<Endpoint>, e: Endpoint)
    ensures e in Possible(req, endpoints) <==> e in endpoints && MethodFits(req, e)
  {
    FilterMember(endpoints, FitsMethod(req), e);
    SortMember(Filter(endpoints, FitsMethod(req)), MethodsInOrder, e);
  }

  lemma PossibleChain(req: Request, endpoints: seq<Endpoint>)
    requires IsConfiguration(endpoints)
    ensures IsChain(Possible(req, endpoints), ByMethod)
  {
    var fitting := Filter(endpoints, FitsMethod(req));
    FilterKeepsChain(endpoints, FitsMethod(req), Earlier);
    forall e | e in fitting
      ensures e.verb == ANY_METHOD || Some(e.verb) == req.verb
    {
      FilterMember(endpoints, FitsMethod(req), e);
    }
    SortOrders(fitting, fitting, MethodsInOrder, Earlier, ByMethod);
  }

  lemma WildcardMember(possible: seq<Endpoint>, e: Endpoint)
    ensures e in Wildcards(possible) <==> e in possible && IsWildcard(e)
  {
    FilterMember(possible, IsWildcard, e);
    SortMember(Filter(possible, IsWildcard), StarsInOrder, e);
  }

  lemma WildcardChain(possible: seq<Endpoint>)
    requires IsChain(possible, ByMethod)
    ensures IsChain(Wildcards(possible), ByStars)
  {
    var wildcards := Filter(possible, IsWildcard);
    FilterKeepsChain(possible, IsWildcard, ByMethod);
    SortOrders(wildcards, wildcards, StarsInOrder, ByMethod, ByStars);
  }

  lemma {:induction false} FindFirst(s: seq<Endpoint>, p: Endpoint -> bool, before: InOrder<Endpoint>)
    requires IsChain(s, before)
    ensures Find(s, p).None? <==> forall e :: e in s ==> !p(e)
    ensures Find(s, p).Some? ==> Find(s, p).value in s && p(Find(s, p).value)
    ensures Find(s, p).Some? ==> forall e :: e in s && p(e) ==> e == Find(s, p).value || before(Find(s, p).value, e)
  {
    if s != [] {
      FindFirst(s[1..], p, before);
      assert s == [s[0]] + s[1..];
    }
  }

  // ----- Matches, told from the configuration

  predicate IsWildcardMatch(router: Router, req: Request, endpoints: seq<Endpoint>, e: Endpoint) {
    e in endpoints && MethodFits(req, e) && IsWildcard(e) && PathFits(router, req, e)
  }

  /** Of the endpoints with the request's own route only the first by method counts as an exact match. */
  ghost predicate IsExactMatch(req: Request, endpoints: seq<Endpoint>, e: Endpoint) {
    && e in endpoints && MethodFits(req, e) && IsOwnRoute(req, e)
    && forall f :: f in endpoints && MethodFits(req, f) && IsOwnRoute(req, f) ==> f == e || ByMethod(e, f)
  }

  ghost predicate IsMatch(router: Router, req: Request, endpoints: seq<Endpoint>, e: Endpoint) {
    IsExactMatch(req, endpoints, e) || IsWildcardMatch(router, req, endpoints, e)
  }

  lemma ExactIs(req: Request, endpoints: seq<Endpoint>, e: Endpoint)
    requires IsConfiguration(endpoints)
    ensures e in Exact(req, Possible(req, endpoints)) <==> IsExactMatch(req, endpoints, e)
  {
    var possible := Possible(req, endpoints);
    PossibleChain(req, endpoints);
    FindFirst(possible, HasOwnRoute(req), ByMethod);
    PossibleMember(req, endpoints, e);
    var found := Find(possible, HasOwnRoute(req));
    forall f ensures f in possible <==> f in endpoints && MethodFits(req, f) {
      PossibleMember(req, endpoints, f);
    }
  }

  lemma MatchingIs(router: Router, req: Request, endpoints: seq<Endpoint>, e: Endpoint)
    requires IsConfiguration(endpoints)
    ensures e in Matching(router, req, endpoints) <==> IsMatch(router, req, endpoints, e)
  {
    var possible := Possible(req, endpoints);
    ExactIs(req, endpoints, e);
    PossibleMember(req, endpoints, e);
    WildcardMember(possible, e);
    FilterMember(Wildcards(possible), FitsPath(router, req), e);
  }

  /**
   * A fitting endpoint with the request's own route and no "*" in it is found if and only if no other with that route
   * comes before it by method and place, enabled or not.
   */
  lemma ExactHides(router: Router, req: Request, endpoints: seq<Endpoint>, f: Endpoint)
    requires IsConfiguration(endpoints)
    requires f in endpoints && MethodFits(req, f) && IsOwnRoute(req, f) && !IsWildcard(f)
    ensures f in Matching(router, req, endpoints) <==>
            forall e :: e in endpoints && MethodFits(req, e) && IsOwnRoute(req, e) ==> !ByMethod(e, f)
  {
    MatchingIs(router, req, endpoints, f);
    assert forall e :: e in endpoints && e != f ==> (ByMethod(e, f) <==> !ByMethod(f, e));
  }

  /** `/a` */
  const ROUTE: JsString := [0x2F, 0x61]
  const GET: JsString := [0x47, 0x45, 0x54]

  /** Rate limiting of GET /a is off, that of every method on /a is on. */
  function DisabledFirst(): seq<Endpoint> {
    [Endpoint(0, GET, ROUTE, Some(RateLimiting(false, 1, 1000))),
     Endpoint(1, ANY_METHOD, ROUTE, Some(RateLimiting(true, 1, 1000)))]
  }

  /** A request that an enabled endpoint fits is charged to none, because a disabled one hides it. */
  lemma HiddenByDisabled(router: Router, url: Option<JsString>)
    ensures var endpoints, req := DisabledFirst(), Request(Some(GET), Some(ROUTE), url);
            && IsConfiguration(endpoints)
            && MethodFits(req, endpoints[1]) && IsOwnRoute(req, endpoints[1]) && IsEnabled(endpoints[1])
            && forall e :: e in Matching(router, req, endpoints) ==> !IsEnabled(e)
  {
    var endpoints, req := DisabledFirst(), Request(Some(GET), Some(ROUTE), url);
    forall e | e in Matching(router, req, endpoints)
      ensures !IsEnabled(e)
    {
      MatchingIs(router, req, endpoints, e);
      assert ByMethod(endpoints[0], endpoints[1]);
    }
  }

  /** The matches are the exact one, if there is one, and then the wildcards by stars, method and place. */
  lemma MatchingInOrder(router: Router, req: Request, endpoints: seq<Endpoint>)
    requires IsConfiguration(endpoints)
    ensures var matching, n := Matching(router, req, endpoints), |Exact(req, Possible(req, endpoints))|;
            n <= 1 && n <= |matching| && IsChain(matching[n..], ByStars)
  {
    var possible := Possible(req, endpoints);
    var exact, onPath := Exact(req, possible), Filter(Wildcards(possible), FitsPath(router, req));
    PossibleChain(req, endpoints);
    WildcardChain(possible);
    FilterKeepsChain(Wildcards(possible), FitsPath(router, req), ByStars);
    assert (exact + onPath)[|exact|..] == onPath;
  }

  // ----- The choice

  /** The enabled matches, in the order in which they are found. */
  function Enabled(router: Router, req: Request, endpoints: seq<Endpoint>): seq<Endpoint> {
    Filter(Matching(router, req, endpoints), IsEnabled)
  }

  lemma EnabledIs(router: Router, req: Request, endpoints: seq<Endpoint>, e: Endpoint)
    requires IsConfiguration(endpoints)
    ensures e in Enabled(router, req, endpoints) <==> IsMatch(router, req, endpoints, e) && IsEnabled(e)
  {
    MatchingIs(router, req, endpoints, e);
    FilterMember(Matching(router, req, endpoints), IsEnabled, e);
  }

  /** An exact match that is enabled comes first; else the enabled matches stand by stars. */
  lemma EnabledChain(router: Router, req: Request, endpoints: seq<Endpoint>)
    requires IsConfiguration(endpoints)
    ensures var exact := Exact(req, Possible(req, endpoints));
            var enabled := Enabled(router, req, endpoints);
            if exact != [] && IsEnabled(exact[0]) then enabled != [] && enabled[0] == exact[0]
            else IsChain(enabled, ByStars)
  {
    var matching, exact := Matching(router, req, endpoints), Exact(req, Possible(req, endpoints));
    MatchingInOrder(router, req, endpoints);
    FilterKeepsChain(matching[|exact|..], IsEnabled, ByStars);
    if exact == [] {
      assert matching[0..] == matching;
    }
  }

  /** Of the enabled matches with the request's own route the first is the least by method. */
  lemma OwnRouteFirst(router: Router, req: Request, endpoints: seq<Endpoint>, f: Endpoint)
    requires IsConfiguration(endpoints)
    requires f in Enabled(router, req, endpoints) && IsOwnRoute(req, f)
    ensures var found := Find(Enabled(router, req, endpoints), HasOwnRoute(req));
            && found.Some? && IsOwnRoute(req, found.value) && found.value in Enabled(router, req, endpoints)
            && (f == found.value || ByMethod(found.value, f))
  {
    var exact, enabled := Exact(req, Possible(req, endpoints)), Enabled(router, req, endpoints);
    EnabledChain(router, req, endpoints);
    if exact != [] && IsEnabled(exact[0]) {
      assert exact[0] in exact;
      ExactIs(req, endpoints, exact[0]);
      EnabledIs(router, req, endpoints, f);
      assert Find(enabled, HasOwnRoute(req)) == Some(exact[0]);
    } else {
      FindFirst(enabled, HasOwnRoute(req), ByStars);
    }
  }

  /** Without an enabled match that has the request's own route the enabled matches stand by stars. */
  lemma NoOwnRouteChain(router: Router, req: Request, endpoints: seq<Endpoint>)
    requires IsConfiguration(endpoints)
    requires Find(Enabled(router, req, endpoints), HasOwnRoute(req)).None?
    ensures IsChain(Enabled(router, req, endpoints), ByStars)
  {
    var exact, enabled := Exact(req, Possible(req, endpoints)), Enabled(router, req, endpoints);
    EnabledChain(router, req, endpoints);
    if exact != [] && IsEnabled(exact[0]) {
      assert exact[0] in exact;
      ExactIs(req, endpoints, exact[0]);
      assert false;
    }
  }

  lemma RatesConsistent(enabled: seq<Endpoint>)
    requires forall e :: e in enabled ==> Rate(e) != NotANumber
    ensures IsConsistent(enabled, RatesInOrder) && Refines(enabled, RatesInOrder, ByStars, ByRate)
  {
    assert forall a, b :: a in enabled && b in enabled ==> (RatesInOrder(a, b) <==> !IsBelow(Rate(b), Rate(a)));
  }

  /** The comparator tells neither before the other. */
  predicate AreTied(a: Endpoint, b: Endpoint) {
    RatesInOrder(a, b) && RatesInOrder(b, a)
  }

  /** Two rates tie if and only if they are equal or one of them is no number. */
  lemma TiedIff(a: Endpoint, b: Endpoint)
    ensures AreTied(a, b) <==> Rate(a) == Rate(b) || Rate(a) == NotANumber || Rate(b) == NotANumber
  {
  }

  /** The sort by rate has a consistent comparator if and only if every rate is a number or all of them tie. */
  lemma ConsistentIff(s: seq<Endpoint>)
    ensures IsConsistent(s, RatesInOrder) <==>
            (forall e :: e in s ==> Rate(e) != NotANumber) || (forall a, b :: a in s && b in s ==> AreTied(a, b))
  {
    if forall e :: e in s ==> Rate(e) != NotANumber {
      RatesConsistent(s);
    } else if IsConsistent(s, RatesInOrder) {
      var n :| n in s && Rate(n) == NotANumber;
      forall a, b | a in s && b in s
        ensures AreTied(a, b)
      {
        assert RatesInOrder(a, n) && RatesInOrder(n, b);
        assert RatesInOrder(b, n) && RatesInOrder(n, a);
      }
    } else if forall a, b :: a in s && b in s ==> AreTied(a, b) {
      TiesConsistent(s);
    }
  }

  /** When all rates tie the sort leaves the first where it is. */
  lemma LeastStars(enabled: seq<Endpoint>, f: Endpoint)
    requires IsChain(enabled, ByStars) && f in enabled
    requires forall a, b :: a in enabled && b in enabled ==> AreTied(a, b)
    ensures var sorted := Sort(enabled, RatesInOrder);
            sorted != [] && sorted[0] in enabled && (f == sorted[0] || ByStars(sorted[0], f))
  {
    var sorted := Sort(enabled, RatesInOrder);
    SortMember(enabled, RatesInOrder, f);
    SortMember(enabled, RatesInOrder, sorted[0]);
    TiesConsistent(enabled);
    SortOrders(enabled, enabled, RatesInOrder, ByStars, ByStars);
  }

  lemma TiesConsistent(s: seq<Endpoint>)
    requires forall a, b :: a in s && b in s ==> AreTied(a, b)
    ensures IsConsistent(s, RatesInOrder) && Refines(s, RatesInOrder, ByStars, ByStars)
  {
    forall a, b | a in s && b in s
      ensures RatesInOrder(a, b) && RatesInOrder(b, a)
    {
      assert AreTied(a, b);
    }
  }

  /** Sorted by rate the first is the least by rate, then by stars, then by method, then by place. */
  lemma LeastRate(enabled: seq<Endpoint>, f: Endpoint)
    requires IsChain(enabled, ByStars) && f in enabled && forall e :: e in enabled ==> Rate(e) != NotANumber
    ensures var sorted := Sort(enabled, RatesInOrder);
            sorted != [] && sorted[0] in enabled && (f == sorted[0] || ByRate(sorted[0], f))
  {
    var sorted := Sort(enabled, RatesInOrder);
    SortMember(enabled, RatesInOrder, f);
    SortMember(enabled, RatesInOrder, sorted[0]);
    RatesConsistent(enabled);
    SortOrders(enabled, enabled, RatesInOrder, ByStars, ByRate);
  }

  /** The endpoint a request is charged to, told from the configuration. */
  ghost predicate IsCharged(router: Router, req: Request, endpoints: seq<Endpoint>, e: Endpoint) {
    && IsMatch(router, req, endpoints, e) && IsEnabled(e)
    && if exists f :: IsMatch(router, req, endpoints, f) && IsEnabled(f) && IsOwnRoute(req, f) then
         && IsOwnRoute(req, e)
         && forall f :: IsMatch(router, req, endpoints, f) && IsEnabled(f) && IsOwnRoute(req, f) ==>
                          f == e || ByMethod(e, f)
       else
         && (HaveRates(router, req, endpoints) ==>
               forall f :: IsMatch(router, req, endpoints, f) && IsEnabled(f) ==> f == e || ByRate(e, f))
         && (HaveTies(router, req, endpoints) ==>
               forall f :: IsMatch(router, req, endpoints, f) && IsEnabled(f) ==> f == e || ByStars(e, f))
  }

  /** The rates of all enabled matches tie. */
  ghost predicate HaveTies(router: Router, req: Request, endpoints: seq<Endpoint>) {
    forall f, g ::
      IsMatch(router, req, endpoints, f) && IsEnabled(f) && IsMatch(router, req, endpoints, g) && IsEnabled(g) ==>
        AreTied(f, g)
  }

  /** No enabled match has 0 requests in a window of 0, which is no number. */
  ghost predicate HaveRates(router: Router, req: Request, endpoints: seq<Endpoint>) {
    forall f :: IsMatch(router, req, endpoints, f) && IsEnabled(f) ==> Rate(f) != NotANumber
  }

  lemma ChargedToOwn(router: Router, req: Request, endpoints: seq<Endpoint>)
    requires IsConfiguration(endpoints) && Find(Enabled(router, req, endpoints), HasOwnRoute(req)).Some?
    ensures IsCharged(router, req, endpoints, Find(Enabled(router, req, endpoints), HasOwnRoute(req)).value)
  {
    var enabled := Enabled(router, req, endpoints);
    var e := Find(enabled, HasOwnRoute(req)).value;
    FindMember(enabled, HasOwnRoute(req));
    EnabledIs(router, req, endpoints, e);
    forall f | IsMatch(router, req, endpoints, f) && IsEnabled(f) && IsOwnRoute(req, f)
      ensures f == e || ByMethod(e, f)
    {
      EnabledIs(router, req, endpoints, f);
      OwnRouteFirst(router, req, endpoints, f);
    }
  }

  lemma {:induction false} FindMember(s: seq<Endpoint>, p: Endpoint -> bool)
    ensures Find(s, p).Some? ==> Find(s, p).value in s && p(Find(s, p).value)
    ensures Find(s, p).None? ==> forall e :: e in s ==> !p(e)
  {
    if s != [] {
      FindMember(s[1..], p);
      assert s == [s[0]] + s[1..];
    }
  }

  lemma ChargedToLeast(router: Router, req: Request, endpoints: seq<Endpoint>)
    requires IsConfiguration(endpoints) && Enabled(router, req, endpoints) != []
    requires Find(Enabled(router, req, endpoints), HasOwnRoute(req)).None?
    ensures Sort(Enabled(router, req, endpoints), RatesInOrder) != []
    ensures IsCharged(router, req, endpoints, Sort(Enabled(router, req, endpoints), RatesInOrder)[0])
  {
    var enabled := Enabled(router, req, endpoints);
    FindMember(enabled, HasOwnRoute(req));
    SortMember(enabled, RatesInOrder, enabled[0]);
    var e := Sort(enabled, RatesInOrder)[0];
    SortMember(enabled, RatesInOrder, e);
    EnabledIs(router, req, endpoints, e);
    forall f | IsMatch(router, req, endpoints, f) && IsEnabled(f)
      ensures !IsOwnRoute(req, f) && (HaveRates(router, req, endpoints) ==> f == e || ByRate(e, f))
      ensures HaveTies(router, req, endpoints) ==> f == e || ByStars(e, f)
    {
      EnabledIs(router, req, endpoints, f);
      if HaveRates(router, req, endpoints) {
        LeastOfEnabled(router, req, endpoints, f);
      }
      if HaveTies(router, req, endpoints) {
        LeastOfTied(router, req, endpoints, f);
      }
    }
  }

  lemma LeastOfEnabled(router: Router, req: Request, endpoints: seq<Endpoint>, f: Endpoint)
    requires IsConfiguration(endpoints) && f in Enabled(router, req, endpoints) && HaveRates(router, req, endpoints)
    requires Find(Enabled(router, req, endpoints), HasOwnRoute(req)).None?
    ensures var sorted := Sort(Enabled(router, req, endpoints), RatesInOrder);
            sorted != [] && (f == sorted[0] || ByRate(sorted[0], f))
  {
    var enabled := Enabled(router, req, endpoints);
    NoOwnRouteChain(router, req, endpoints);
    forall e | e in enabled
      ensures Rate(e) != NotANumber
    {
      EnabledIs(router, req, endpoints, e);
    }
    LeastRate(enabled, f);
  }

  lemma LeastOfTied(router: Router, req: Request, endpoints: seq<Endpoint>, f: Endpoint)
    requires IsConfiguration(endpoints) && f in Enabled(router, req, endpoints) && HaveTies(router, req, endpoints)
    requires Find(Enabled(router, req, endpoints), HasOwnRoute(req)).None?
    ensures var sorted := Sort(Enabled(router, req, endpoints), RatesInOrder);
            sorted != [] && (f == sorted[0] || ByStars(sorted[0], f))
  {
    var enabled := Enabled(router, req, endpoints);
    NoOwnRouteChain(router, req, endpoints);
    forall a, b | a in enabled && b in enabled
      ensures AreTied(a, b)
    {
      EnabledIs(router, req, endpoints, a);
      EnabledIs(router, req, endpoints, b);
    }
    LeastStars(enabled, f);
  }

  method GetRateLimitedEndpoint(router: Router, req: Request, endpoints: seq<Endpoint>) returns (r: Option<Endpoint>)
    requires IsConfiguration(endpoints)
    ensures r.None? <==> forall e :: IsMatch(router, req, endpoints, e) ==> !IsEnabled(e)
    ensures r.Some? ==> IsCharged(router, req, endpoints, r.value)
  {
    var matches := MatchEndpoints(router, req, endpoints);
    matches := Filter(matches, IsEnabled);
    if |matches| == 0 {
      NoneEnabled(router, req, endpoints);
      return None;
    }
    var exact := Find(matches, HasOwnRoute(req));
    if exact.Some? {
      ChargedToOwn(router, req, endpoints);
      return exact;
    }
    ChargedToLeast(router, req, endpoints);
    matches := Sort(matches, RatesInOrder);
    return Some(matches[0]);
  }

  lemma NoneEnabled(router: Router, req: Request, endpoints: seq<Endpoint>)
    requires IsConfiguration(endpoints) && Enabled(router, req, endpoints) == []
    ensures forall e :: IsMatch(router, req, endpoints, e) ==> !IsEnabled(e)
  {
    forall e | IsMatch(router, req, endpoints, e)
      ensures !IsEnabled(e)
    {
      EnabledIs(router, req, endpoints, e);
    }
  }
}
