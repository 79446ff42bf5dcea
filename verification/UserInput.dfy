/** The strings a user value contributes: keys, leaves, joined arrays, decoded variants and what tokens hold. */
module UserInput {
  import opened Prelude
  import opened Values
  import opened UriComponent
  import opened UriRoundTrip

  const MAX_DEPTH: nat := 1024
  const MAX_URL_DECODE_DEPTH: nat := 5
  const ISS: JsString := [0x69, 0x73, 0x73]
  const HTTP: JsString := [0x68, 0x74, 0x74, 0x70]

  // ----- Decoding again and again

  /** One more decoding of a string with an escape in it. */
  function Again(s: JsString): Option<JsString> {
    if PERCENT in s then Decode(s) else None
  }

  /** The k-th decoding in a row, each of a string with a percent sign in it. */
  function Iterate(s: JsString, k: nat): Option<JsString>
    decreases k
  {
    if k == 0 then Some(s)
    else if 0x25 !in s then None
    else match Decode(s)
      case None => None
      case Some(t) => Iterate(t, k - 1)
  }

  /** The first at most n decodings. */
  function Iterates(s: JsString, n: nat): set<JsString>
    decreases n
  {
    if n == 0 then {}
    else match Again(s)
      case None => {}
      case Some(t) => {t} + Iterates(t, n - 1)
  }

  lemma AgainShortens(s: JsString)
    requires Again(s).Some?
    ensures Again(s).value != [] && |Again(s).value| + 2 <= |s|
  {
    assert s[0..] == s;
    DecodeShortens(s, 0);
  }

  lemma {:induction false} IterateIn(s: JsString, n: nat, k: nat)
    requires 0 < k <= n && Iterate(s, k).Some?
    ensures Iterate(s, k).value in Iterates(s, n)
    decreases n
  {
    if k > 1 {
      IterateIn(Again(s).value, n - 1, k - 1);
    }
  }

  lemma {:induction false} IterateOf(s: JsString, n: nat, x: JsString) returns (k: nat)
    requires x in Iterates(s, n)
    ensures 0 < k <= n && Iterate(s, k) == Some(x)
    decreases n
  {
    k := 1;
    if x != Again(s).value {
      k := IterateOf(Again(s).value, n - 1, x);
      k := k + 1;
    }
  }

  lemma IteratesAre(s: JsString, n: nat, x: JsString)
    ensures x in Iterates(s, n) <==> exists k :: 0 < k <= n && Iterate(s, k) == Some(x)
  {
    if x in Iterates(s, n) {
      var k := IterateOf(s, n, x);
    }
    if k :| 0 < k <= n && Iterate(s, k) == Some(x) {
      IterateIn(s, n, k);
    }
  }

  /** Decoding stops of itself: after half the length there is nothing left to decode. */
  lemma {:induction false} IteratesSettle(s: JsString, n: nat, m: nat)
    requires |s| <= 2 * n + 1 && n <= m
    ensures Iterates(s, m) == Iterates(s, n)
    decreases n
  {
    if Again(s).Some? {
      AgainShortens(s);
      if n > 0 {
        IteratesSettle(Again(s).value, n - 1, m - 1);
      }
    }
  }

  /** The tests for an empty and for an unchanged result never fire on a success, nor does the length test. */
  method AddURLDecodedVariants(str: JsString, results: set<JsString>) returns (r: set<JsString>)
    ensures r == results + Iterates(str, MAX_URL_DECODE_DEPTH)
  {
    r := results;
    var current := str;
    var i := 0;
    while i < MAX_URL_DECODE_DEPTH
      invariant i <= MAX_URL_DECODE_DEPTH
      invariant r + Iterates(current, MAX_URL_DECODE_DEPTH - i) == results + Iterates(str, MAX_URL_DECODE_DEPTH)
    {
      if Again(current).Some? {
        AgainShortens(current);
      }
      if |current| < 3 || PERCENT !in current {
        break;
      }
      var decoded := SafeDecodeURIComponent(current);
      if decoded == None || decoded == Some([]) || decoded == Some(current) {
        break;
      }
      r := r + {decoded.value};
      current := decoded.value;
      i := i + 1;
    }
    assert i == MAX_URL_DECODE_DEPTH || Again(current) == None;
  }

  // ----- What is left of a token

  predicate StartsWithHttp(s: JsString) {
    HTTP <= s
  }

  /** Strings of a token that are left out. */
  predicate IsLeftOut(env: Env, s: JsString) {
    StartsWithHttp(s) && env.isUrl(s)
  }

  function WithoutKey(fields: seq<Field>, key: JsString): seq<Field> {
    if fields == [] then []
    else if fields[0].key == key then WithoutKey(fields[1..], key)
    else [fields[0]] + WithoutKey(fields[1..], key)
  }

  /** `delete object.iss` */
  function WithoutIssuer(v: Value): Value {
    if v.Obj? then Obj(WithoutKey(v.fields, ISS)) else v
  }

  function Claims(env: Env, s: JsString): Option<Value> {
    match env.decodeJwt(s)
    case None => None
    case Some(v) => Some(WithoutIssuer(v))
  }

  lemma {:induction false} WithoutKeyHolds(fields: seq<Field>, key: JsString, f: Field)
    ensures f in WithoutKey(fields, key) <==> f in fields && f.key != key
  {
    if fields != [] {
      WithoutKeyHolds(fields[1..], key, f);
      assert fields == [fields[0]] + fields[1..];
    }
  }

  // ----- The strings of a value

  function Budget(depth: nat): nat {
    if depth < MAX_DEPTH then MAX_DEPTH - depth else 0
  }

  function Extract(env: Env, v: Value, depth: nat): set<JsString>
    decreases Budget(depth), 1, 0
  {
    if depth >= MAX_DEPTH then {}
    else match v
      case Str(s) =>
        if s == [] then {}
        else {s} + Iterates(s, MAX_URL_DECODE_DEPTH) + TokenStrings(env, s, depth)
      case Arr(items) => ItemStrings(env, items, |items|, depth + 1) + Joined(env, items)
      case Obj(fields) => FieldStrings(env, fields, |fields|, depth + 1)
      case _ => {}
  }

  function TokenStrings(env: Env, s: JsString, depth: nat): set<JsString>
    requires depth < MAX_DEPTH
    decreases Budget(depth), 0, 0
  {
    match Claims(env, s)
    case None => {}
    case Some(v) => set x | x in Extract(env, v, depth + 1) && !IsLeftOut(env, x)
  }

  function Joined(env: Env, items: seq<Value>): set<JsString> {
    match env.join(items)
    case None => {}
    case Some(s) => {s}
  }

  function ItemStrings(env: Env, items: seq<Value>, n: nat, depth: nat): set<JsString>
    requires n <= |items|
    decreases Budget(depth), 2, n
  {
    if n == 0 then {} else ItemStrings(env, items, n - 1, depth) + Extract(env, items[n - 1], depth)
  }

  function FieldStrings(env: Env, fields: seq<Field>, n: nat, depth: nat): set<JsString>
    requires n <= |fields|
    decreases Budget(depth), 2, n
  {
    if n == 0 then {}
    else
      FieldStrings(env, fields, n - 1, depth) + {fields[n - 1].key} + Extract(env, fields[n - 1].value, depth)
  }

  // ----- The extraction

  method ExtractStringsFromUserInput(env: Env, v: Value, depth: nat) returns (results: set<JsString>)
    ensures results == Extract(env, v, depth)
    decreases Budget(depth)
  {
    results := {};
    if depth >= MAX_DEPTH {
      return;
    }
    if v.Obj? {
      for i := 0 to |v.fields|
        invariant results == FieldStrings(env, v.fields, i, depth + 1)
      {
        var inner := ExtractStringsFromUserInput(env, v.fields[i].value, depth + 1);
        results := results + {v.fields[i].key} + inner;
      }
    }
    if v.Arr? {
      for i := 0 to |v.items|
        invariant results == ItemStrings(env, v.items, i, depth + 1)
      {
        var inner := ExtractStringsFromUserInput(env, v.items[i], depth + 1);
        results := results + inner;
      }
      var joined := env.join(v.items);
      if joined.Some? {
        results := results + {joined.value};
      }
    }
    if v.Str? && |v.s| > 0 {
      results := AddURLDecodedVariants(v.s, results + {v.s});
      var jwt := env.decodeJwt(v.s);
      if jwt.Some? {
        var inner := ExtractStringsFromUserInput(env, WithoutIssuer(jwt.value), depth + 1);
        results := AddAllButUrls(env, inner, results);
      }
    }
  }

  method AddAllButUrls(env: Env, values: set<JsString>, results: set<JsString>) returns (r: set<JsString>)
    ensures r == results + set x | x in values && !IsLeftOut(env, x)
  {
    r := results;
    var rest := values;
    while rest != {}
      invariant rest <= values
      invariant r == results + set x | x in values - rest && !IsLeftOut(env, x)
    {
      var value :| value in rest;
      rest := rest - {value};
      if !(StartsWithHttp(value) && env.isUrl(value)) {
        r := r + {value};
      }
    }
  }

  // ----- What a value contributes itself and what comes from its children

  /** The strings a value contributes by itself. */
  function Own(env: Env, v: Value): set<JsString> {
    match v
    case Str(s) => if s == [] then {} else {s} + Iterates(s, MAX_URL_DECODE_DEPTH)
    case Arr(items) => Joined(env, items)
    case Obj(fields) => set f | f in fields :: f.key
    case _ => {}
  }

  /** Only non-empty strings are tried as tokens. */
  function Token(env: Env): JsString -> Option<Value> {
    s => if s == [] then None else Claims(env, s)
  }

  lemma {:induction false} ItemStringsAre(env: Env, items: seq<Value>, n: nat, depth: nat, x: JsString)
    requires n <= |items|
    ensures x in ItemStrings(env, items, n, depth) <==> exists i :: 0 <= i < n && x in Extract(env, items[i], depth)
  {
    if n > 0 {
      ItemStringsAre(env, items, n - 1, depth, x);
    }
  }

  lemma {:induction false} FieldStringsAre(env: Env, fields: seq<Field>, n: nat, depth: nat, x: JsString)
    requires n <= |fields|
    ensures x in FieldStrings(env, fields, n, depth) <==>
            exists i :: 0 <= i < n && (x == fields[i].key || x in Extract(env, fields[i].value, depth))
  {
    if n > 0 {
      FieldStringsAre(env, fields, n - 1, depth, x);
    }
  }

  /** A string that is not the value's own comes from a child. */
  lemma Inherited(env: Env, v: Value, depth: nat, x: JsString) returns (part: PathPart, child: Value)
    requires x in Extract(env, v, depth) && x !in Own(env, v)
    ensures depth < MAX_DEPTH && x in Extract(env, child, depth + 1)
    ensures IsStep(Token(env), v, part, child) && (part.Jwt? ==> !IsLeftOut(env, x))
  {
    match v
    case Str(s) =>
      part, child := Jwt, Claims(env, s).value;
    case Arr(items) =>
      ItemStringsAre(env, items, |items|, depth + 1, x);
      var i :| 0 <= i < |items| && x in Extract(env, items[i], depth + 1);
      part, child := Index(i), items[i];
    case Obj(fields) =>
      FieldStringsAre(env, fields, |fields|, depth + 1, x);
      var i :| 0 <= i < |fields| && (x == fields[i].key || x in Extract(env, fields[i].value, depth + 1));
      assert fields[i] in fields;
      part, child := Key(fields[i].key), fields[i].value;
  }

  lemma OwnIsExtracted(env: Env, v: Value, depth: nat, x: JsString)
    requires depth < MAX_DEPTH && x in Own(env, v)
    ensures x in Extract(env, v, depth)
  {
    if v.Obj? {
      FieldStringsAre(env, v.fields, |v.fields|, depth + 1, x);
      var i :| 0 <= i < |v.fields| && v.fields[i].key == x;
    }
  }

  /** What a child contributes its parent contributes too. */
  lemma Handed(env: Env, v: Value, depth: nat, x: JsString, part: PathPart, child: Value)
    requires depth < MAX_DEPTH && x in Extract(env, child, depth + 1)
    requires IsStep(Token(env), v, part, child) && (part.Jwt? ==> !IsLeftOut(env, x))
    ensures x in Extract(env, v, depth)
  {
    match part {
      case Jwt =>
      case Index(i) =>
        ItemStringsAre(env, v.items, |v.items|, depth + 1, x);
      case Key(key) =>
        var i :| 0 <= i < |v.fields| && v.fields[i] == Field(key, child);
        FieldStringsAre(env, v.fields, |v.fields|, depth + 1, x);
    }
  }}
