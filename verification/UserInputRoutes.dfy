/** What is extracted, spelled out: the routes through the raw value, and what the value at their end contributes. */
module UserInputRoutes {
  import opened Prelude
  import opened Values
  import opened UserInput

  /** One step through a raw value; claims says that v is what a token held, whose issuer is not looked at. */
  predicate IsWalkStep(env: Env, v: Value, claims: bool, part: PathPart, child: Value) {
    match part
    case Jwt => v.Str? && v.s != [] && env.decodeJwt(v.s) == Some(child)
    case Key(key) => v.Obj? && Field(key, child) in v.fields && (claims ==> key != [0x69, 0x73, 0x73])
    case Index(i) => v.Arr? && i < |v.items| && v.items[i] == child
  }

  predicate IsWalk(env: Env, v: Value, claims: bool, r: Route)
    decreases r
  {
    match r
    case Here => true
    case Via(part, child, rest) => IsWalkStep(env, v, claims, part, child) && IsWalk(env, child, part.Jwt?, rest)
  }

  predicate EndsAtClaims(claims: bool, r: Route)
    decreases r
  {
    match r
    case Here => claims
    case Via(part, _, rest) => EndsAtClaims(part.Jwt?, rest)
  }

  /** The string decoded at most five times in a row is x. */
  ghost predicate DecodesTo(s: JsString, x: JsString) {
    exists k :: 0 <= k <= 5 && Iterate(s, k) == Some(x)
  }

  /**
   * A string contributes itself and up to five decodings, an array its joined text, and an object its keys, but not
   * the issuer of a token.
   */
  ghost predicate Contributes(env: Env, v: Value, claims: bool, x: JsString) {
    match v
    case Str(s) => s != [] && DecodesTo(s, x)
    case Arr(items) => env.join(items) == Some(x)
    case Obj(fields) => (exists f :: f in fields && f.key == x) && (claims ==> x != [0x69, 0x73, 0x73])
    case _ => false
  }

  /** The route leads within the depth limit to a value that contributes the string; below a token it is no URL. */
  ghost predicate Yields(env: Env, v: Value, claims: bool, depth: nat, x: JsString, r: Route) {
    && IsWalk(env, v, claims, r) && depth + Length(r) < 1024
    && Contributes(env, Target(v, r), EndsAtClaims(claims, r), x)
    && (ThroughJwt(r) ==> !([0x68, 0x74, 0x74, 0x70] <= x && env.isUrl(x)))
  }

  // ----- A raw value and what is left of it

  /** What is left of a value when it is what a token held. */
  function Shown(v: Value, claims: bool): Value {
    if claims then WithoutIssuer(v) else v
  }

  lemma ShownFields(v: Value, claims: bool, f: Field)
    ensures Shown(v, claims).Obj? <==> v.Obj?
    ensures !v.Obj? ==> Shown(v, claims) == v
    ensures v.Obj? ==>
              (f in Shown(v, claims).fields <==> f in v.fields && (claims ==> f.key != [0x69, 0x73, 0x73]))
  {
    if v.Obj? {
      WithoutKeyHolds(v.fields, ISS, f);
    }
  }

  /** A string and its first five decodings. */
  lemma DecodingsAre(s: JsString, x: JsString)
    ensures x == s || x in Iterates(s, MAX_URL_DECODE_DEPTH) <==> DecodesTo(s, x)
  {
    assert Iterate(s, 0) == Some(s);
    if x in Iterates(s, MAX_URL_DECODE_DEPTH) {
      var k := IterateOf(s, MAX_URL_DECODE_DEPTH, x);
    }
    if DecodesTo(s, x) {
      var k :| 0 <= k <= 5 && Iterate(s, k) == Some(x);
      DecodingIs(s, k, x);
    }
  }

  lemma DecodingIs(s: JsString, k: nat, x: JsString)
    requires k <= 5 && Iterate(s, k) == Some(x)
    ensures x == s || x in Iterates(s, MAX_URL_DECODE_DEPTH)
  {
    if k > 0 {
      IterateIn(s, MAX_URL_DECODE_DEPTH, k);
    }
  }

  /** The strings of a value itself are those it contributes. */
  lemma OwnIff(env: Env, v: Value, claims: bool, x: JsString)
    ensures x in Own(env, Shown(v, claims)) <==> Contributes(env, v, claims, x)
  {
    if v.Str? {
      DecodingsAre(v.s, x);
    } else if v.Obj? {
      ShownKeys(v, claims, x);
    }
  }

  lemma ShownKeys(v: Value, claims: bool, x: JsString)
    requires v.Obj?
    ensures (exists f :: f in Shown(v, claims).fields && f.key == x) <==>
            (exists f :: f in v.fields && f.key == x) && (claims ==> x != [0x69, 0x73, 0x73])
  {
    forall f
      ensures f in Shown(v, claims).fields <==> f in v.fields && (claims ==> f.key != [0x69, 0x73, 0x73])
    {
      ShownFields(v, claims, f);
    }
  }

  lemma StepShown(env: Env, v: Value, claims: bool, part: PathPart, child: Value) returns (raw: Value)
    requires IsStep(Token(env), Shown(v, claims), part, child)
    ensures IsWalkStep(env, v, claims, part, raw) && child == Shown(raw, part.Jwt?)
  {
    match part {
      case Jwt =>
        ShownFields(v, claims, Field([], child));
        raw := env.decodeJwt(v.s).value;
      case Key(key) =>
        ShownFields(v, claims, Field(key, child));
        raw := child;
      case Index(i) =>
        ShownFields(v, claims, Field([], child));
        raw := child;
    }
  }

  lemma WalkStepShown(env: Env, v: Value, claims: bool, part: PathPart, raw: Value)
    requires IsWalkStep(env, v, claims, part, raw)
    ensures IsStep(Token(env), Shown(v, claims), part, Shown(raw, part.Jwt?))
  {
    ShownFields(v, claims, if part.Key? then Field(part.key, raw) else Field([], raw));
  }

  // ----- Both directions

  /** Every extracted string has a route. */
  lemma {:induction false} Traced(env: Env, v: Value, claims: bool, depth: nat, x: JsString) returns (r: Route)
    requires x in Extract(env, Shown(v, claims), depth)
    ensures Yields(env, v, claims, depth, x, r)
    decreases Budget(depth)
  {
    OwnIff(env, v, claims, x);
    if x in Own(env, Shown(v, claims)) {
      r := Here;
    } else {
      var part, child := Inherited(env, Shown(v, claims), depth, x);
      var raw := StepShown(env, v, claims, part, child);
      var rest := Traced(env, raw, part.Jwt?, depth + 1, x);
      r := Via(part, raw, rest);
    }
  }

  /** Whatever a route leads to is extracted. */
  lemma {:induction false} Collected(env: Env, v: Value, claims: bool, depth: nat, x: JsString, r: Route)
    requires Yields(env, v, claims, depth, x, r)
    ensures x in Extract(env, Shown(v, claims), depth)
    decreases r
  {
    if r.Here? {
      OwnIff(env, v, claims, x);
      OwnIsExtracted(env, Shown(v, claims), depth, x);
    } else {
      Collected(env, r.child, r.part.Jwt?, depth + 1, x, r.rest);
      WalkStepShown(env, v, claims, r.part, r.child);
      Handed(env, Shown(v, claims), depth, x, r.part, Shown(r.child, r.part.Jwt?));
    }
  }

  /**
   * A string is extracted if and only if a route within the depth limit leads to a value that contributes it: a key, a
   * non-empty leaf, one of its first five decodings or a joined array; below a token it must not be a URL.
   */
  lemma ExtractIff(env: Env, v: Value, depth: nat, x: JsString)
    ensures x in Extract(env, v, depth) <==> exists r :: Yields(env, v, false, depth, x, r)
  {
    if x in Extract(env, v, depth) {
      var r := Traced(env, v, false, depth, x);
    }
    if r :| Yields(env, v, false, depth, x, r) {
      Collected(env, v, false, depth, x, r);
    }
  }

  /** An array adds the text it joins to, so that a parameter given more than once is seen as the code sees it. */
  lemma JoinedIsExtracted(env: Env, v: Value, depth: nat)
    requires depth < 1024 && v.Arr? && env.join(v.items).Some?
    ensures env.join(v.items).value in Extract(env, v, depth)
  {
    Collected(env, v, false, depth, env.join(v.items).value, Here);
  }

  /** A deeper start only removes strings. */
  lemma DeeperExtractsLess(env: Env, v: Value, depth: nat, deeper: nat)
    requires depth <= deeper
    ensures Extract(env, v, deeper) <= Extract(env, v, depth)
  {
    forall x | x in Extract(env, v, deeper)
      ensures x in Extract(env, v, depth)
    {
      var r := Traced(env, v, false, deeper, x);
      assert Yields(env, v, false, depth, x, r);
      Collected(env, v, false, depth, x, r);
    }
  }
}
