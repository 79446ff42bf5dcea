/** JavaScript values as the inspection of user input sees them, and the routes that lead through them. */
module Values {
  import opened Prelude

  /**
   * A plain object is the list of its enumerable properties in order. Nullish is undefined or null. Whatever else is
   * neither a string, an array nor a plain object has nothing to look into; all that matters of it is whether it is
   * truthy.
   */
  datatype Value =
    | Nullish
    | Str(s: JsString)
    | Arr(items: seq<Value>)
    | Obj(fields: seq<Field>)
    | Other(truthy: bool)

  datatype Field = Field(key: JsString, value: Value)

  /** The built-ins and parsers the inspection calls. A join that throws is None. */
  datatype Env = Env(
    decodeJwt: JsString -> Option<Value>,
    join: seq<Value> -> Option<JsString>,
    isUrl: JsString -> bool,
    lower: JsString -> JsString)

  predicate IsTruthy(v: Value) {
    match v
    case Nullish => false
    case Str(s) => s != []
    case Other(truthy) => truthy
    case _ => true
  }

  // ----- Routes

  datatype PathPart = Jwt | Key(key: JsString) | Index(index: nat)

  /** A route goes from a value step by step to a value inside it. */
  datatype Route = Here | Via(part: PathPart, child: Value, rest: Route)

  /** The part leads from v to the child; decode says what a token holds. */
  predicate IsStep(decode: JsString -> Option<Value>, v: Value, part: PathPart, child: Value) {
    match part
    case Jwt => v.Str? && decode(v.s) == Some(child)
    case Key(key) => v.Obj? && Field(key, child) in v.fields
    case Index(i) => v.Arr? && i < |v.items| && v.items[i] == child
  }

  predicate IsRoute(decode: JsString -> Option<Value>, v: Value, r: Route)
    decreases r
  {
    match r
    case Here => true
    case Via(part, child, rest) => IsStep(decode, v, part, child) && IsRoute(decode, child, rest)
  }

  function Target(v: Value, r: Route): Value
    decreases r
  {
    match r
    case Here => v
    case Via(_, child, rest) => Target(child, rest)
  }

  function Length(r: Route): nat {
    match r
    case Here => 0
    case Via(_, _, rest) => 1 + Length(rest)
  }

  predicate ThroughJwt(r: Route) {
    match r
    case Here => false
    case Via(part, _, rest) => part.Jwt? || ThroughJwt(rest)
  }

  function Parts(r: Route): seq<PathPart> {
    match r
    case Here => []
    case Via(part, _, rest) => [part] + Parts(rest)
  }
}
