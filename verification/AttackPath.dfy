/** Where in a user value a payload sits: an early-exit search that agrees with exhaustive enumeration. */
module AttackPath {
  import opened Prelude
  import opened Values

  const MAX_DEPTH: nat := 30
  const MAX_ARRAY_LENGTH: nat := 100

  type Path = seq<PathPart>

  // ----- Paths as text

  function Digits(n: nat): JsString {
    (if n < 10 then [] else Digits(n / 10)) + [0x30 + n % 10]
  }

  function Text(part: PathPart): JsString {
    match part
    case Jwt => [0x3C, 0x6A, 0x77, 0x74, 0x3E]
    case Key(key) => [0x2E] + key
    case Index(i) => [0x2E, 0x5B] + Digits(i) + [0x5D]
  }

  function Reduced(path: Path): JsString {
    if path == [] then [] else Reduced(path[..|path| - 1]) + Text(path[|path| - 1])
  }

  function BuildPathToPayload(path: Path): JsString {
    if path == [] then [0x2E] else Reduced(path)
  }

  // ----- The exhaustive list

  predicate Equals(env: Env, wanted: JsString, v: Value) {
    match v
    case Str(s) => env.lower(s) == wanted
    case Arr(items) =>
      1 < |items| < MAX_ARRAY_LENGTH && env.join(items).Some? && env.lower(env.join(items).value) == wanted
    case _ => false
  }

  function Below(depth: nat): nat {
    if depth <= MAX_DEPTH then MAX_DEPTH + 1 - depth else 0
  }

  /** How many items of an array are looked into. */
  function Visited(items: seq<Value>): (n: nat)
    ensures n <= |items|
  {
    if |items| <= MAX_ARRAY_LENGTH + 1 then |items| else MAX_ARRAY_LENGTH + 1
  }

  /** The paths of all matches in pre-order; nothing below a match is looked into. */
  function All(env: Env, wanted: JsString, v: Value, path: Path, depth: nat): seq<Path>
    decreases Below(depth), 0
  {
    if depth > MAX_DEPTH then []
    else if Equals(env, wanted, v) then [path]
    else match v
      case Str(s) => (
        match env.decodeJwt(s)
        case None => []
        case Some(child) => All(env, wanted, child, path + [Jwt], depth + 1)
      )
      case Arr(items) => AllItems(env, wanted, items, Visited(items), path, depth + 1)
      case Obj(fields) => AllFields(env, wanted, fields, |fields|, path, depth + 1)
      case _ => []
  }

  function AllItems(env: Env, wanted: JsString, items: seq<Value>, n: nat, path: Path, depth: nat): seq<Path>
    requires n <= |items|
    decreases Below(depth), n + 1
  {
    if n == 0 then []
    else
      AllItems(env, wanted, items, n - 1, path, depth) +
      All(env, wanted, items[n - 1], path + [Index(n - 1)], depth)
  }

  function AllFields(env: Env, wanted: JsString, fields: seq<Field>, n: nat, path: Path, depth: nat): seq<Path>
    requires n <= |fields|
    decreases Below(depth), n + 1
  {
    if n == 0 then []
    else
      AllFields(env, wanted, fields, n - 1, path, depth) +
      All(env, wanted, fields[n - 1].value, path + [Key(fields[n - 1].key)], depth)
  }

  // ----- As many as there is room for

  function Take(paths: seq<Path>, n: nat): seq<Path> {
    if |paths| <= n then paths else paths[..n]
  }

  /** What the list becomes when more matches come and at most max are kept. */
  function Kept(paths: seq<Path>, more: seq<Path>, max: nat): (r: seq<Path>)
    requires |paths| <= max
    ensures |r| <= max
  {
    paths + Take(more, max - |paths|)
  }

  lemma KeptMore(paths: seq<Path>, a: seq<Path>, b: seq<Path>, max: nat)
    requires |paths| <= max
    ensures Kept(Kept(paths, a, max), b, max) == Kept(paths, a + b, max)
    ensures |Kept(paths, a, max)| == max ==> Kept(paths, a + b, max) == Kept(paths, a, max)
  {
  }

  /** Once the list is full the rest of an array or object changes nothing. */
  lemma {:induction false} KeptItems(env: Env, wanted: JsString, items: seq<Value>, i: nat, n: nat, path: Path,
                                     depth: nat, paths: seq<Path>, max: nat)
    requires i <= n <= |items| && |paths| <= max
    requires |Kept(paths, AllItems(env, wanted, items, i, path, depth), max)| == max
    ensures Kept(paths, AllItems(env, wanted, items, n, path, depth), max) ==
            Kept(paths, AllItems(env, wanted, items, i, path, depth), max)
  {
    if i < n {
      KeptItems(env, wanted, items, i, n - 1, path, depth, paths, max);
      KeptMore(paths, AllItems(env, wanted, items, n - 1, path, depth),
               All(env, wanted, items[n - 1], path + [Index(n - 1)], depth), max);
    }
  }

  lemma {:induction false} KeptFields(env: Env, wanted: JsString, fields: seq<Field>, i: nat, n: nat, path: Path,
                                      depth: nat, paths: seq<Path>, max: nat)
    requires i <= n <= |fields| && |paths| <= max
    requires |Kept(paths, AllFields(env, wanted, fields, i, path, depth), max)| == max
    ensures Kept(paths, AllFields(env, wanted, fields, n, path, depth), max) ==
            Kept(paths, AllFields(env, wanted, fields, i, path, depth), max)
  {
    if i < n {
      KeptFields(env, wanted, fields, i, n - 1, path, depth, paths, max);
      KeptMore(paths, AllFields(env, wanted, fields, n - 1, path, depth),
               All(env, wanted, fields[n - 1].value, path + [Key(fields[n - 1].key)], depth), max);
    }
  }

  // ----- The search

  class Matches {
    var matches: seq<JsString>
    ghost var paths: seq<Path>
    const max: nat

    ghost predicate Valid()
      reads this
    {
      && |matches| == |paths| <= max
      && forall i :: 0 <= i < |paths| ==> matches[i] == BuildPathToPayload(paths[i])
    }

    constructor (max: nat)
      requires max >= 1
      ensures Valid() && paths == [] && this.max == max
    {
      matches, paths, this.max := [], [], max;
    }

    method Add(path: Path)
      requires Valid() && |paths| < max
      modifies this
      ensures Valid() && paths == old(paths) + [path]
    {
      matches := matches + [BuildPathToPayload(path)];
      paths := paths + [path];
    }

    predicate Found()
      reads this
    {
      |matches| >= max
    }
  }

  method Traverse(env: Env, wanted: JsString, matches: Matches, value: Value, path: Path, depth: nat)
    requires matches.Valid()
    modifies matches
    ensures matches.Valid()
    ensures matches.paths == Kept(old(matches.paths), All(env, wanted, value, path, depth), matches.max)
    decreases Below(depth), 0
  {
    if matches.Found() || depth > MAX_DEPTH {
      return;
    }
    match value {
      case Str(s) =>
        if env.lower(s) == wanted {
          matches.Add(path);
          return;
        }
        var jwt := env.decodeJwt(s);
        if jwt.Some? {
          Traverse(env, wanted, matches, jwt.value, path + [Jwt], depth + 1);
        }
      case Arr(items) =>
        if 1 < |items| < MAX_ARRAY_LENGTH {
          var joined := env.join(items);
          if joined.Some? && env.lower(joined.value) == wanted {
            matches.Add(path);
            return;
          }
        }
        TraverseItems(env, wanted, matches, items, path, depth + 1);
      case Obj(fields) =>
        TraverseFields(env, wanted, matches, fields, path, depth + 1);
      case _ =>
    }
  }

  method TraverseItems(env: Env, wanted: JsString, matches: Matches, items: seq<Value>, path: Path, depth: nat)
    requires matches.Valid()
    modifies matches
    ensures matches.Valid()
    ensures matches.paths ==
            Kept(old(matches.paths), AllItems(env, wanted, items, Visited(items), path, depth), matches.max)
    decreases Below(depth), 1
  {
    ghost var was := matches.paths;
    var i := 0;
    while i < |items|
      invariant i <= Visited(items) && matches.Valid()
      invariant matches.paths == Kept(was, AllItems(env, wanted, items, i, path, depth), matches.max)
    {
      if matches.Found() || i > MAX_ARRAY_LENGTH {
        break;
      }
      Traverse(env, wanted, matches, items[i], path + [Index(i)], depth);
      KeptMore(was, AllItems(env, wanted, items, i, path, depth),
               All(env, wanted, items[i], path + [Index(i)], depth), matches.max);
      i := i + 1;
    }
    if i < Visited(items) {
      KeptItems(env, wanted, items, i, Visited(items), path, depth, was, matches.max);
    }
  }

  method TraverseFields(env: Env, wanted: JsString, matches: Matches, fields: seq<Field>, path: Path, depth: nat)
    requires matches.Valid()
    modifies matches
    ensures matches.Valid()
    ensures matches.paths ==
            Kept(old(matches.paths), AllFields(env, wanted, fields, |fields|, path, depth), matches.max)
    decreases Below(depth), 1
  {
    ghost var was := matches.paths;
    var i := 0;
    while i < |fields|
      invariant i <= |fields| && matches.Valid()
      invariant matches.paths == Kept(was, AllFields(env, wanted, fields, i, path, depth), matches.max)
    {
      if matches.Found() {
        break;
      }
      Traverse(env, wanted, matches, fields[i].value, path + [Key(fields[i].key)], depth);
      KeptMore(was, AllFields(env, wanted, fields, i, path, depth),
               All(env, wanted, fields[i].value, path + [Key(fields[i].key)], depth), matches.max);
      i := i + 1;
    }
    if i < |fields| {
      KeptFields(env, wanted, fields, i, |fields|, path, depth, was, matches.max);
    }
  }

  /** The texts of the first matchCount matching paths. None where the constructor of Matches throws. */
  method GetPathsToPayload(env: Env, attackPayload: JsString, obj: Value, matchCount: int)
    returns (r: Option<seq<JsString>>)
    ensures r.None? <==> matchCount < 1
    ensures r.Some? ==>
              var all := All(env, env.lower(attackPayload), obj, [], 0);
              && |r.value| == (if |all| < matchCount then |all| else matchCount)
              && forall i :: 0 <= i < |r.value| ==> r.value[i] == BuildPathToPayload(all[i])
  {
    if matchCount < 1 {
      return None;
    }
    var matches := new Matches(matchCount);
    var wanted := env.lower(attackPayload);
    Traverse(env, wanted, matches, obj, [], 0);
    assert matches.paths == Take(All(env, wanted, obj, [], 0), matchCount);
    return Some(matches.matches);
  }
}
