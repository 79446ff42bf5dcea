/** The exhaustive list of paths is in pre-order: as the values they lead to stand in the user value. */
module AttackPathOrder {
  import opened Prelude
  import opened Values
  import opened AttackPath
  import opened AttackPathHits

  predicate IsField(f: Field, part: PathPart, child: Value) {
    part == Key(f.key) && child == f.value
  }

  /** Where the two routes part, r turns to an earlier item or property than s. */
  ghost predicate Precedes(v: Value, r: Route, s: Route)
    decreases r
  {
    && r.Via? && s.Via?
    && match v
       case Arr(_) =>
         && r.part.Index? && s.part.Index?
         && (r.part.index < s.part.index || (r.part.index == s.part.index && Precedes(r.child, r.rest, s.rest)))
       case Obj(fields) =>
         exists i, j ::
           && 0 <= i <= j < |fields| && IsField(fields[i], r.part, r.child) && IsField(fields[j], s.part, s.child)
           && (i < j || Precedes(r.child, r.rest, s.rest))
       case _ => r.child == s.child && Precedes(r.child, r.rest, s.rest)
  }

  /** The route is a hit and its parts follow the path in the listed one. */
  ghost predicate IsRouteOf(env: Env, wanted: JsString, v: Value, path: Path, depth: nat, p: Path, r: Route) {
    IsHit(env, wanted, v, depth, r) && p == path + Parts(r)
  }

  lemma StepRouteOf(env: Env, wanted: JsString, v: Value, path: Path, depth: nat, p: Path, part: PathPart, child: Value,
                    rest: Route)
    requires IsFollowed(env, v, part, child) && !Equals(env, wanted, v)
    requires IsRouteOf(env, wanted, child, path + [part], depth + 1, p, rest)
    ensures IsRouteOf(env, wanted, v, path, depth, p, Via(part, child, rest))
  {
    ViaIsHit(env, wanted, v, depth, part, child, rest);
    assert path + [part] + Parts(rest) == path + Parts(Via(part, child, rest));
  }

  lemma ItemOf(env: Env, wanted: JsString, items: seq<Value>, n: nat, path: Path, depth: nat, p: Path)
    returns (i: nat, r: Route)
    requires n <= |items| && p in AllItems(env, wanted, items, n, path, depth)
    ensures i < n && IsRouteOf(env, wanted, items[i], path + [Index(i)], depth, p, r)
  {
    ItemsAre(env, wanted, items, n, path, depth, p);
    i :| i < n && p in All(env, wanted, items[i], path + [Index(i)], depth);
    r := ListedIsHit(env, wanted, items[i], path + [Index(i)], depth, p);
  }

  lemma FieldOf(env: Env, wanted: JsString, fields: seq<Field>, n: nat, path: Path, depth: nat, p: Path)
    returns (i: nat, r: Route)
    requires n <= |fields| && p in AllFields(env, wanted, fields, n, path, depth)
    ensures i < n && IsRouteOf(env, wanted, fields[i].value, path + [Key(fields[i].key)], depth, p, r)
  {
    FieldsAre(env, wanted, fields, n, path, depth, p);
    i :| 0 <= i < n && p in All(env, wanted, fields[i].value, path + [Key(fields[i].key)], depth);
    r := ListedIsHit(env, wanted, fields[i].value, path + [Key(fields[i].key)], depth, p);
  }

  lemma {:induction false} ItemsInOrder(env: Env, wanted: JsString, items: seq<Value>, n: nat, path: Path, depth: nat,
                                        a: nat, b: nat)
    returns (i: nat, r: Route, j: nat, s: Route)
    requires n <= |items| && a < b < |AllItems(env, wanted, items, n, path, depth)|
    ensures i <= j < n
    ensures IsRouteOf(env, wanted, items[i], path + [Index(i)], depth,
                      AllItems(env, wanted, items, n, path, depth)[a], r)
    ensures IsRouteOf(env, wanted, items[j], path + [Index(j)], depth,
                      AllItems(env, wanted, items, n, path, depth)[b], s)
    ensures i < j || Precedes(items[i], r, s)
    decreases Below(depth), n + 1
  {
    var before := AllItems(env, wanted, items, n - 1, path, depth);
    var last := All(env, wanted, items[n - 1], path + [Index(n - 1)], depth);
    if b < |before| {
      i, r, j, s := ItemsInOrder(env, wanted, items, n - 1, path, depth, a, b);
    } else if a < |before| {
      i, r := ItemOf(env, wanted, items, n - 1, path, depth, before[a]);
      j := n - 1;
      s := ListedIsHit(env, wanted, items[j], path + [Index(j)], depth, last[b - |before|]);
    } else {
      i, j := n - 1, n - 1;
      r, s := InOrder(env, wanted, items[i], path + [Index(i)], depth, a - |before|, b - |before|);
    }
  }

  lemma {:induction false} FieldsInOrder(env: Env, wanted: JsString, fields: seq<Field>, n: nat, path: Path, depth: nat,
                                         a: nat, b: nat)
    returns (i: nat, r: Route, j: nat, s: Route)
    requires n <= |fields| && a < b < |AllFields(env, wanted, fields, n, path, depth)|
    ensures i <= j < n
    ensures IsRouteOf(env, wanted, fields[i].value, path + [Key(fields[i].key)], depth,
                      AllFields(env, wanted, fields, n, path, depth)[a], r)
    ensures IsRouteOf(env, wanted, fields[j].value, path + [Key(fields[j].key)], depth,
                      AllFields(env, wanted, fields, n, path, depth)[b], s)
    ensures i < j || Precedes(fields[i].value, r, s)
    decreases Below(depth), n + 1
  {
    var before := AllFields(env, wanted, fields, n - 1, path, depth);
    var last := All(env, wanted, fields[n - 1].value, path + [Key(fields[n - 1].key)], depth);
    if b < |before| {
      i, r, j, s := FieldsInOrder(env, wanted, fields, n - 1, path, depth, a, b);
    } else if a < |before| {
      i, r := FieldOf(env, wanted, fields, n - 1, path, depth, before[a]);
      j := n - 1;
      s := ListedIsHit(env, wanted, fields[j].value, path + [Key(fields[j].key)], depth, last[b - |before|]);
    } else {
      i, j := n - 1, n - 1;
      r, s := InOrder(env, wanted, fields[i].value, path + [Key(fields[i].key)], depth, a - |before|, b - |before|);
    }
  }

  /** Of two listed paths the earlier one leads to the earlier match. */
  lemma {:induction false} InOrder(env: Env, wanted: JsString, v: Value, path: Path, depth: nat, a: nat, b: nat)
    returns (r: Route, s: Route)
    requires a < b < |All(env, wanted, v, path, depth)|
    ensures IsRouteOf(env, wanted, v, path, depth, All(env, wanted, v, path, depth)[a], r)
    ensures IsRouteOf(env, wanted, v, path, depth, All(env, wanted, v, path, depth)[b], s)
    ensures Precedes(v, r, s)
    decreases Below(depth), 0
  {
    var all := All(env, wanted, v, path, depth);
    match v
    case Str(token) =>
      var child := env.decodeJwt(token).value;
      r, s := InOrder(env, wanted, child, path + [Jwt], depth + 1, a, b);
      StepRouteOf(env, wanted, v, path, depth, all[a], Jwt, child, r);
      StepRouteOf(env, wanted, v, path, depth, all[b], Jwt, child, s);
      r, s := Via(Jwt, child, r), Via(Jwt, child, s);
    case Arr(items) =>
      var i, j;
      i, r, j, s := ItemsInOrder(env, wanted, items, Visited(items), path, depth + 1, a, b);
      StepRouteOf(env, wanted, v, path, depth, all[a], Index(i), items[i], r);
      StepRouteOf(env, wanted, v, path, depth, all[b], Index(j), items[j], s);
      r, s := Via(Index(i), items[i], r), Via(Index(j), items[j], s);
    case Obj(fields) =>
      var i, j;
      i, r, j, s := FieldsInOrder(env, wanted, fields, |fields|, path, depth + 1, a, b);
      StepRouteOf(env, wanted, v, path, depth, all[a], Key(fields[i].key), fields[i].value, r);
      StepRouteOf(env, wanted, v, path, depth, all[b], Key(fields[j].key), fields[j].value, s);
      r, s := Via(Key(fields[i].key), fields[i].value, r), Via(Key(fields[j].key), fields[j].value, s);
      assert IsField(fields[i], r.part, r.child) && IsField(fields[j], s.part, s.child);
  }
}
