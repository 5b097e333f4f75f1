/**
 * The values the extractor's JSON decodes to, and the field record
 * (`Dict[str, Any]`) the validator, the merger and the pipeline exchange.
 */
module Json {

  /** A decoded JSON value; numbers are kept as reals. */
  datatype Value =
    | Null
    | Bool(b: bool)
    | Num(n: real)
    | Str(s: string)
    | Arr(items: seq<Value>)
    | Obj(fields: map<string, Value>)

  /** A field record: field name to extracted value. */
  type Record = map<string, Value>

  /** `r.get(k)`: a missing key reads as `None`. */
  function Get(r: Record, k: string): Value {
    if k in r then r[k] else Null
  }

  /** Python truthiness: `None`, `False`, zero and empty containers are false. */
  predicate Truthy(v: Value) {
    match v
    case Null => false
    case Bool(b) => b
    case Num(n) => n != 0.0
    case Str(s) => |s| > 0
    case Arr(xs) => |xs| > 0
    case Obj(m) => |m| > 0
  }
}
