/** The request context as a value: its user strings, its caches, and what every operation answers and leaves behind. */
module ContextSpec {
  import opened Prelude
  import opened Values
  import opened UserInput

  datatype Property =
    | Url | Method | Query | Headers | RouteParams | RemoteAddress | Body | Cookies | AttackDetected
    | BlockedDueToIPOrBot | ConsumedRateLimit | User | Source | Route | Graphql | Xml | RawBody | Subdomains
    | MarkUnsafe | OutgoingRequestRedirects | ExecutedMiddleware | RateLimitGroup | RateLimitedEndpoint | TenantId
    | BypassRequest

  /** The properties of a context other than its caches; one that is missing is undefined. */
  type Properties = map<Property, Value>

  function Get(values: Properties, p: Property): Value {
    if p in values then values[p] else Nullish
  }

  /** The order of SOURCES. */
  function Sources(): (r: seq<Property>)
    ensures |r| == 11
  {
    [Query, Body, Headers, Cookies, RouteParams, Graphql, Xml, Subdomains, MarkUnsafe, Url, RawBody]
  }

  predicate IsSourceKey(p: Property) {
    p in Sources()
  }

  // ----- The user strings of a request, computed afresh

  function StringsOf(env: Env, v: Value): set<JsString> {
    if IsTruthy(v) then Extract(env, v, 0) else {}
  }

  /** The strings of the first n sources. */
  function Union(env: Env, values: Properties, n: nat): set<JsString>
    requires n <= 11
  {
    if n == 0 then {} else Union(env, values, n - 1) + StringsOf(env, Get(values, Sources()[n - 1]))
  }

  function AllStrings(env: Env, values: Properties): set<JsString> {
    Union(env, values, 11)
  }

  function WithSeparator(strings: set<JsString>, sep: CodeUnit): set<JsString> {
    set s | s in strings && sep in s
  }

  /** The strings depend on the sources alone. */
  lemma {:induction false} UnionOnlySources(env: Env, values: Properties, others: Properties, n: nat)
    requires n <= 11 && forall i :: 0 <= i < 11 ==> Get(values, Sources()[i]) == Get(others, Sources()[i])
    ensures Union(env, values, n) == Union(env, others, n)
  {
    if n > 0 {
      UnionOnlySources(env, values, others, n - 1);
    }
  }

  lemma {:induction false} UnionAre(env: Env, values: Properties, n: nat, s: JsString)
    requires n <= 11
    ensures s in Union(env, values, n) <==> exists i :: 0 <= i < n && s in StringsOf(env, Get(values, Sources()[i]))
  {
    if n > 0 {
      UnionAre(env, values, n - 1, s);
    }
  }

  // ----- Attribution

  /** The first source from position i on that holds the string. */
  function FirstSource(env: Env, values: Properties, s: JsString, i: nat): Option<Property>
    requires i <= 11
    decreases 11 - i
  {
    if i == 11 then None
    else if s in StringsOf(env, Get(values, Sources()[i])) then Some(Sources()[i])
    else FirstSource(env, values, s, i + 1)
  }

  lemma {:induction false} FirstSourceFrom(env: Env, values: Properties, s: JsString, i: nat)
    requires i <= 11
    ensures FirstSource(env, values, s, i).Some? <==>
            exists j :: i <= j < 11 && s in StringsOf(env, Get(values, Sources()[j]))
    decreases 11 - i
  {
    if i < 11 {
      FirstSourceFrom(env, values, s, i + 1);
    }
  }

  /** A string is attributed to a source if and only if it is among the user strings of the request. */
  lemma AttributedIff(env: Env, values: Properties, s: JsString)
    ensures FirstSource(env, values, s, 0).Some? <==> s in AllStrings(env, values)
  {
    FirstSourceFrom(env, values, s, 0);
    UnionAre(env, values, 11, s);
  }

  /** The source found holds the string, and no source before it in the order does. */
  lemma {:induction false} AttributedToFirst(env: Env, values: Properties, s: JsString, i: nat) returns (j: nat)
    requires i <= 11 && FirstSource(env, values, s, i).Some?
    ensures i <= j < 11 && FirstSource(env, values, s, i) == Some(Sources()[j])
    ensures s in StringsOf(env, Get(values, Sources()[j]))
    ensures forall k :: i <= k < j ==> s !in StringsOf(env, Get(values, Sources()[k]))
    decreases 11 - i
  {
    if s in StringsOf(env, Get(values, Sources()[i])) {
      j := i;
    } else {
      j := AttributedToFirst(env, values, s, i + 1);
    }
  }

  // ----- The same, source by source

  /** The source is there and the extraction of it holds the string. */
  predicate Holds(env: Env, values: Properties, p: Property, s: JsString) {
    p in values && s in Extract(env, values[p], 0)
  }

  /** A falsy source is skipped, but there would be nothing in it. */
  lemma FalsyHoldsNone(env: Env, values: Properties, p: Property, s: JsString)
    ensures s in StringsOf(env, Get(values, p)) <==> Holds(env, values, p, s)
  {
  }

  lemma FirstStep(env: Env, values: Properties, s: JsString, i: nat)
    requires i < 11
    ensures FirstSource(env, values, s, i) ==
            if Holds(env, values, Sources()[i], s) then Some(Sources()[i]) else FirstSource(env, values, s, i + 1)
  {
    FalsyHoldsNone(env, values, Sources()[i], s);
  }

  /** A string is attributed to the first of the eleven sources that holds it. */
  lemma AttributedInOrder(env: Env, values: Properties, s: JsString)
    ensures FirstSource(env, values, s, 0) ==
            if Holds(env, values, Query, s) then Some(Query)
            else if Holds(env, values, Body, s) then Some(Body)
            else if Holds(env, values, Headers, s) then Some(Headers)
            else if Holds(env, values, Cookies, s) then Some(Cookies)
            else if Holds(env, values, RouteParams, s) then Some(RouteParams)
            else if Holds(env, values, Graphql, s) then Some(Graphql)
            else if Holds(env, values, Xml, s) then Some(Xml)
            else if Holds(env, values, Subdomains, s) then Some(Subdomains)
            else if Holds(env, values, MarkUnsafe, s) then Some(MarkUnsafe)
            else if Holds(env, values, Url, s) then Some(Url)
            else if Holds(env, values, RawBody, s) then Some(RawBody)
            else None
  {
    FirstStep(env, values, s, 0);
    FirstStep(env, values, s, 1);
    FirstStep(env, values, s, 2);
    FirstStep(env, values, s, 3);
    FirstStep(env, values, s, 4);
    FirstStep(env, values, s, 5);
    FirstStep(env, values, s, 6);
    FirstStep(env, values, s, 7);
    FirstStep(env, values, s, 8);
    FirstStep(env, values, s, 9);
    FirstStep(env, values, s, 10);
  }

  /** The user strings of a request are those of its eleven sources. */
  lemma AllStringsIff(env: Env, values: Properties, s: JsString)
    ensures s in AllStrings(env, values) <==>
            || Holds(env, values, Query, s) || Holds(env, values, Body, s) || Holds(env, values, Headers, s)
            || Holds(env, values, Cookies, s) || Holds(env, values, RouteParams, s) || Holds(env, values, Graphql, s)
            || Holds(env, values, Xml, s) || Holds(env, values, Subdomains, s) || Holds(env, values, MarkUnsafe, s)
            || Holds(env, values, Url, s) || Holds(env, values, RawBody, s)
  {
    AttributedIff(env, values, s);
    AttributedInOrder(env, values, s);
  }

  /** The path strings are the user strings with a separator somewhere in them. */
  lemma PathStringsIff(env: Env, values: Properties, sep: CodeUnit, s: JsString)
    ensures s in WithSeparator(AllStrings(env, values), sep) <==>
            s in AllStrings(env, values) && exists i :: 0 <= i < |s| && s[i] == sep
  {
  }

  // ----- Entering a context

  /** What runWithContext copies from the given context onto the one already there. */
  predicate IsCopied(p: Property) {
    p in [Url, Method, Query, Headers, RouteParams, RemoteAddress, Body, Cookies, Source, Route, Graphql, Xml, RawBody,
          Subdomains, OutgoingRequestRedirects, MarkUnsafe]
  }

  function CopiedFrom(given: Properties): Properties {
    map p: Property | IsCopied(p) :: Get(given, p)
  }

  /** `given.bypassRequest ?? current.bypassRequest` */
  function BypassOf(current: Properties, given: Properties): Value {
    if Get(given, BypassRequest) != Nullish then Get(given, BypassRequest) else Get(current, BypassRequest)
  }

  function Entered(current: Properties, given: Properties): Properties {
    (current + CopiedFrom(given))[BypassRequest := BypassOf(current, given)]
  }

  lemma CopiedGet(current: Properties, given: Properties, p: Property)
    ensures IsCopied(p) ==> Get(Entered(current, given), p) == Get(given, p)
    ensures !IsCopied(p) && p != BypassRequest ==> Get(Entered(current, given), p) == Get(current, p)
    ensures p == BypassRequest ==>
              Get(Entered(current, given), p) == if Get(given, p) == Nullish then Get(current, p) else Get(given, p)
  {
  }

  /** What the firewall itself notes in a context. */
  predicate IsNote(p: Property) {
    || p.AttackDetected? || p.BlockedDueToIPOrBot? || p.ConsumedRateLimit? || p.User? || p.ExecutedMiddleware?
    || p.RateLimitGroup? || p.RateLimitedEndpoint? || p.TenantId?
  }

  lemma CopiedUnlessNote(p: Property)
    ensures IsCopied(p) <==> !IsNote(p) && p != BypassRequest
  {
  }

  /** What the firewall itself has noted stays, all else comes from the given context, bypassRequest if it is set. */
  lemma EnteredGet(current: Properties, given: Properties, p: Property)
    ensures Get(Entered(current, given), p) ==
            if IsNote(p) || (p == BypassRequest && Get(given, p) == Nullish) then Get(current, p) else Get(given, p)
  {
    CopiedUnlessNote(p);
    CopiedGet(current, given, p);
  }

  /** Every source is copied. */
  lemma SourcesCopied(i: nat)
    requires i < 11
    ensures IsCopied(Sources()[i])
  {
  }

  /** The user strings become those of the given context. */
  lemma EnteredStrings(env: Env, current: Properties, given: Properties)
    ensures AllStrings(env, Entered(current, given)) == AllStrings(env, given)
  {
    forall i | 0 <= i < 11
      ensures Get(Entered(current, given), Sources()[i]) == Get(given, Sources()[i])
    {
      SourcesCopied(i);
      CopiedGet(current, given, Sources()[i]);
    }
    UnionOnlySources(env, Entered(current, given), given, 11);
  }

  lemma UpdatedStrings(env: Env, values: Properties, key: Property, value: Value)
    requires !IsSourceKey(key)
    ensures AllStrings(env, values[key := value]) == AllStrings(env, values)
  {
    UnionOnlySources(env, values[key := value], values, 11);
  }

  // ----- The context as a state machine

  datatype State = State(values: Properties, cache: Option<set<JsString>>, paths: Option<set<JsString>>)

  datatype Op =
    | Start(given: State)  // runWithContext outside any context
    | Enter(given: State)  // runWithContext inside one
    | Update(key: Property, value: Value)
    | Strings
    | PathStrings
    | SourceOf(str: JsString)

  datatype Answer = Done | Found(strings: set<JsString>) | From(source: Option<Property>)

  function CachedStrings(env: Env, st: State): set<JsString> {
    if st.cache.Some? then st.cache.value else AllStrings(env, st.values)
  }

  function CachedPaths(env: Env, sep: CodeUnit, st: State): set<JsString> {
    if st.paths.Some? then st.paths.value else WithSeparator(AllStrings(env, st.values), sep)
  }

  function After(env: Env, sep: CodeUnit, st: State, op: Op): State {
    match op
    case Start(given) => State(given.values, None, None)
    case Enter(given) => State(Entered(st.values, given.values), None, None)
    case Update(key, value) =>
      if IsSourceKey(key) then State(st.values[key := value], None, None)
      else st.(values := st.values[key := value])
    case Strings => st.(cache := Some(CachedStrings(env, st)))
    case PathStrings => st.(paths := Some(CachedPaths(env, sep, st)))
    case SourceOf(_) => st
  }

  function Reply(env: Env, sep: CodeUnit, st: State, op: Op): Answer {
    match op
    case Strings => Found(CachedStrings(env, st))
    case PathStrings => Found(CachedPaths(env, sep, st))
    case SourceOf(str) => From(FirstSource(env, st.values, str, 0))
    case _ => Done
  }

  function Replies(env: Env, sep: CodeUnit, st: State, ops: seq<Op>): seq<Answer>
    decreases ops
  {
    if ops == [] then []
    else [Reply(env, sep, st, ops[0])] + Replies(env, sep, After(env, sep, st, ops[0]), ops[1..])
  }

  // ----- The same without caches

  function PlainAfter(values: Properties, op: Op): Properties {
    match op
    case Start(given) => given.values
    case Enter(given) => Entered(values, given.values)
    case Update(key, value) => values[key := value]
    case _ => values
  }

  function PlainReply(env: Env, sep: CodeUnit, values: Properties, op: Op): Answer {
    match op
    case Strings => Found(AllStrings(env, values))
    case PathStrings => Found(WithSeparator(AllStrings(env, values), sep))
    case SourceOf(str) => From(FirstSource(env, values, str, 0))
    case _ => Done
  }

  function PlainReplies(env: Env, sep: CodeUnit, values: Properties, ops: seq<Op>): seq<Answer>
    decreases ops
  {
    if ops == [] then []
    else [PlainReply(env, sep, values, ops[0])] + PlainReplies(env, sep, PlainAfter(values, ops[0]), ops[1..])
  }

  // ----- Coherence

  /** A cache that is present holds what would be computed afresh. */
  predicate IsCoherent(env: Env, sep: CodeUnit, st: State) {
    && (st.cache.Some? ==> st.cache.value == AllStrings(env, st.values))
    && (st.paths.Some? ==> st.paths.value == WithSeparator(AllStrings(env, st.values), sep))
  }

  lemma CoherenceKept(env: Env, sep: CodeUnit, st: State, op: Op)
    requires IsCoherent(env, sep, st) || op.Start? || op.Enter?
    ensures IsCoherent(env, sep, After(env, sep, st, op))
    ensures After(env, sep, st, op).values == PlainAfter(st.values, op)
    ensures Reply(env, sep, st, op) == PlainReply(env, sep, st.values, op)
  {
    if op.Update? && !IsSourceKey(op.key) {
      UpdatedStrings(env, st.values, op.key, op.value);
    }
  }

  /** A lookup leaves its cache filled, a source drops both, and nothing else touches them. */
  lemma CachesFilled(env: Env, sep: CodeUnit, st: State, key: Property, value: Value)
    ensures After(env, sep, st, Strings).cache.Some? && After(env, sep, st, Strings).paths == st.paths
    ensures After(env, sep, st, PathStrings).paths.Some? && After(env, sep, st, PathStrings).cache == st.cache
    ensures var updated := After(env, sep, st, Update(key, value));
            if key.Query? || key.Body? || key.Headers? || key.Cookies? || key.RouteParams? || key.Graphql? ||
               key.Xml? || key.Subdomains? || key.MarkUnsafe? || key.Url? || key.RawBody?
            then updated.cache == None && updated.paths == None
            else updated.cache == st.cache && updated.paths == st.paths
  {
  }

  /** Once a context was started or entered, whatever the caches held before, no answer shows that there are caches. */
  lemma {:induction false} CachesAreInvisible(env: Env, sep: CodeUnit, st: State, ops: seq<Op>)
    requires IsCoherent(env, sep, st) || (ops != [] && (ops[0].Start? || ops[0].Enter?))
    ensures Replies(env, sep, st, ops) == PlainReplies(env, sep, st.values, ops)
    decreases ops
  {
    if ops != [] {
      CoherenceKept(env, sep, st, ops[0]);
      CachesAreInvisible(env, sep, After(env, sep, st, ops[0]), ops[1..]);
    }
  }
}
