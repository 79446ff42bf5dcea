/** What the exhaustive list of paths holds: the routes to matching values, and all of them. */
module AttackPathHits {
  import opened Prelude
  import opened Values
  import opened AttackPath

  /** A string that is the wanted one in lower case, or an array of 2 to 99 items whose joined text is. */
  predicate IsMatch(env: Env, wanted: JsString, v: Value) {
    || (v.Str? && env.lower(v.s) == wanted)
    || (v.Arr? && 2 <= |v.items| <= 99 && env.join(v.items).Some? && env.lower(env.join(v.items).value) == wanted)
  }

  /** No step goes beyond the array items that are looked into. */
  predicate WithinArrays(r: Route) {
    match r
    case Here => true
    case Via(part, _, rest) => (part.Index? ==> part.index <= 100) && WithinArrays(rest)
  }

  /** A value on the way, before the target, matches. */
  predicate MatchesBefore(env: Env, wanted: JsString, v: Value, r: Route)
    decreases r
  {
    match r
    case Here => false
    case Via(_, child, rest) => IsMatch(env, wanted, v) || MatchesBefore(env, wanted, child, rest)
  }

  /** The route leads within the limits to a matching value. */
  ghost predicate LeadsToMatch(env: Env, wanted: JsString, v: Value, depth: nat, r: Route) {
    && IsRoute(env.decodeJwt, v, r) && WithinArrays(r) && depth + Length(r) <= 30
    && IsMatch(env, wanted, Target(v, r))
  }

  /** And no value on the way matches. */
  ghost predicate IsHit(env: Env, wanted: JsString, v: Value, depth: nat, r: Route) {
    LeadsToMatch(env, wanted, v, depth, r) && !MatchesBefore(env, wanted, v, r)
  }

  lemma {:induction false} ItemsAre(env: Env, wanted: JsString, items: seq<Value>, n: nat, path: Path, depth: nat,
                                    p: Path)
    requires n <= |items|
    ensures p in AllItems(env, wanted, items, n, path, depth) <==>
            exists i: nat :: i < n && p in All(env, wanted, items[i], path + [Index(i)], depth)
  {
    if n > 0 {
      ItemsAre(env, wanted, items, n - 1, path, depth, p);
    }
  }

  lemma {:induction false} FieldsAre(env: Env, wanted: JsString, fields: seq<Field>, n: nat, path: Path, depth: nat,
                                     p: Path)
    requires n <= |fields|
    ensures p in AllFields(env, wanted, fields, n, path, depth) <==>
            exists i :: 0 <= i < n && p in All(env, wanted, fields[i].value, path + [Key(fields[i].key)], depth)
  {
    if n > 0 {
      FieldsAre(env, wanted, fields, n - 1, path, depth, p);
    }
  }

  /** The part leads from v to the child and the search follows it. */
  ghost predicate IsFollowed(env: Env, v: Value, part: PathPart, child: Value) {
    IsStep(env.decodeJwt, v, part, child) && (part.Index? ==> part.index <= MAX_ARRAY_LENGTH)
  }

  lemma {:induction false} FromChild(env: Env, wanted: JsString, v: Value, path: Path, depth: nat, p: Path)
    returns (part: PathPart, child: Value)
    requires p in All(env, wanted, v, path, depth) && !Equals(env, wanted, v)
    ensures depth <= MAX_DEPTH && IsFollowed(env, v, part, child)
    ensures p in All(env, wanted, child, path + [part], depth + 1)
  {
    match v
    case Str(s) =>
      part, child := Jwt, env.decodeJwt(s).value;
    case Arr(items) =>
      ItemsAre(env, wanted, items, Visited(items), path, depth + 1, p);
      var i: nat :| i < Visited(items) && p in All(env, wanted, items[i], path + [Index(i)], depth + 1);
      part, child := Index(i), items[i];
    case Obj(fields) =>
      FieldsAre(env, wanted, fields, |fields|, path, depth + 1, p);
      var i :| 0 <= i < |fields| && p in All(env, wanted, fields[i].value, path + [Key(fields[i].key)], depth + 1);
      assert fields[i] in fields;
      part, child := Key(fields[i].key), fields[i].value;
  }

  lemma {:induction false} ToParent(env: Env, wanted: JsString, v: Value, path: Path, depth: nat, p: Path,
                                    part: PathPart, child: Value)
    requires depth <= MAX_DEPTH && IsFollowed(env, v, part, child) && !Equals(env, wanted, v)
    requires p in All(env, wanted, child, path + [part], depth + 1)
    ensures p in All(env, wanted, v, path, depth)
  {
    match part {
      case Jwt =>
      case Index(i) =>
        ItemsAre(env, wanted, v.items, Visited(v.items), path, depth + 1, p);
      case Key(key) =>
        var i :| 0 <= i < |v.fields| && v.fields[i] == Field(key, child);
        FieldsAre(env, wanted, v.fields, |v.fields|, path, depth + 1, p);
    }
  }

  lemma ViaIsHit(env: Env, wanted: JsString, v: Value, depth: nat, part: PathPart, child: Value, rest: Route)
    requires IsFollowed(env, v, part, child) && !Equals(env, wanted, v)
    ensures IsHit(env, wanted, v, depth, Via(part, child, rest)) <==> IsHit(env, wanted, child, depth + 1, rest)
  {
  }

  /** Every listed path belongs to a hit. */
  lemma {:induction false} ListedIsHit(env: Env, wanted: JsString, v: Value, path: Path, depth: nat, p: Path)
    returns (r: Route)
    requires p in All(env, wanted, v, path, depth)
    ensures IsHit(env, wanted, v, depth, r) && p == path + Parts(r)
    decreases Below(depth)
  {
    if Equals(env, wanted, v) {
      r := Here;
    } else {
      var part, child := FromChild(env, wanted, v, path, depth, p);
      var rest := ListedIsHit(env, wanted, child, path + [part], depth + 1, p);
      ViaIsHit(env, wanted, v, depth, part, child, rest);
      r := Via(part, child, rest);
      assert path + [part] + Parts(rest) == path + Parts(r);
    }
  }

  /** Every hit is listed. */
  lemma {:induction false} HitIsListed(env: Env, wanted: JsString, v: Value, path: Path, depth: nat, r: Route)
    requires IsHit(env, wanted, v, depth, r)
    ensures path + Parts(r) in All(env, wanted, v, path, depth)
    decreases r
  {
    if r.Here? {
      assert path + Parts(r) == path;
    } else {
      ViaIsHit(env, wanted, v, depth, r.part, r.child, r.rest);
      HitIsListed(env, wanted, r.child, path + [r.part], depth + 1, r.rest);
      assert path + [r.part] + Parts(r.rest) == path + Parts(r);
      ToParent(env, wanted, v, path, depth, path + Parts(r), r.part, r.child);
    }
  }

  lemma ListedAtRoot(env: Env, wanted: JsString, v: Value, p: Path) returns (r: Route)
    requires p in All(env, wanted, v, [], 0)
    ensures IsHit(env, wanted, v, 0, r) && p == Parts(r)
  {
    r := ListedIsHit(env, wanted, v, [], 0, p);
    assert [] + Parts(r) == Parts(r);
  }

  lemma HitAtRoot(env: Env, wanted: JsString, v: Value, r: Route)
    requires IsHit(env, wanted, v, 0, r)
    ensures Parts(r) in All(env, wanted, v, [], 0)
  {
    HitIsListed(env, wanted, v, [], 0, r);
    assert [] + Parts(r) == Parts(r);
  }

  /**
   * A path is listed if and only if it leads, within 30 steps and the first 101 items of every array, to a value that
   * matches the payload in lower case, and through none.
   */
  lemma ListedIff(env: Env, payload: JsString, v: Value, p: Path)
    ensures p in All(env, env.lower(payload), v, [], 0) <==>
            exists r :: IsHit(env, env.lower(payload), v, 0, r) && p == Parts(r)
  {
    if p in All(env, env.lower(payload), v, [], 0) {
      var r := ListedAtRoot(env, env.lower(payload), v, p);
    }
    if r :| IsHit(env, env.lower(payload), v, 0, r) && p == Parts(r) {
      HitAtRoot(env, env.lower(payload), v, r);
    }
  }

  /** The way to a match leads to a first match. */
  lemma {:induction false} FirstOnTheWay(env: Env, wanted: JsString, v: Value, depth: nat, r: Route) returns (h: Route)
    requires LeadsToMatch(env, wanted, v, depth, r)
    ensures IsHit(env, wanted, v, depth, h)
    decreases r
  {
    if Equals(env, wanted, v) {
      h := Here;
    } else {
      assert r.Via?;
      var rest := FirstOnTheWay(env, wanted, r.child, depth + 1, r.rest);
      h := Via(r.part, r.child, rest);
      ViaIsHit(env, wanted, v, depth, r.part, r.child, rest);
    }
  }

  /** However few paths are asked for, one is found if and only if a match exists within the limits. */
  lemma FoundIff(env: Env, payload: JsString, v: Value, matchCount: nat)
    requires matchCount >= 1
    ensures Take(All(env, env.lower(payload), v, [], 0), matchCount) != [] <==>
            exists r :: LeadsToMatch(env, env.lower(payload), v, 0, r)
  {
    var wanted := env.lower(payload);
    var all := All(env, wanted, v, [], 0);
    if all != [] {
      var r := ListedAtRoot(env, wanted, v, all[0]);
    }
    if r :| LeadsToMatch(env, wanted, v, 0, r) {
      var h := FirstOnTheWay(env, wanted, v, 0, r);
      HitAtRoot(env, wanted, v, h);
    }
  }
}
