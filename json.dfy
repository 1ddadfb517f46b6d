/**
  JSON values as Python's `json` module decodes them, together with the
  dictionary lookups and the truth test that the registry script applies
  to them.
*/
module Json {

  /** A decoded JSON value: null is Python's None; integers and floats are
      both numbers (so `1 == 1.0`, as in Python). */
  datatype JsonValue =
    | JNull
    | JBool(b: bool)
    | JNumber(n: real)
    | JString(s: string)
    | JArray(items: seq<JsonValue>)
    | JObject(fields: map<string, JsonValue>)

  /** A JSON object, i.e. a Python dict with string keys. */
  type Object = map<string, JsonValue>

  /** Python's truth value `bool(v)` of a decoded value (the test behind `or`). */
  predicate Truthy(v: JsonValue)
  {
    match v
    case JNull => false
    case JBool(b) => b
    case JNumber(n) => n != 0.0
    case JString(s) => s != ""
    case JArray(items) => items != []
    case JObject(fields) => fields != map[]
  }

  /** `d.get(k)`: the value under `k`, or None when `k` is missing. */
  function Get(d: Object, k: string): JsonValue
  {
    if k in d then d[k] else JNull
  }

  /** `d.get(k, default)`. */
  function GetOr(d: Object, k: string, default: JsonValue): JsonValue
  {
    if k in d then d[k] else default
  }

  /** Whether Python can hash the value: lists and dicts cannot be hashed. */
  predicate Hashable(v: JsonValue)
  {
    !v.JArray? && !v.JObject?
  }
}
