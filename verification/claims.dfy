/** Decoded JSON values, as Python's `json` module hands them to the verifier,
    and the two Python operations the verifier applies to the claims:
    `dict.get` and truthiness (`not x`). */
module Claims {

  /** A JSON value. Integers and floats are both numbers; only whether a
      number is zero matters to the verifier. */
  datatype Json =
    | JNull
    | JBool(b: bool)
    | JNumber(n: real)
    | JString(s: string)
    | JArray(items: seq<Json>)
    | JObject(fields: map<string, Json>)

  /** A JSON object: the claims set or the header of a token. */
  type ClaimSet = map<string, Json>

  /** `claims.get(key)`: the value under `key`, or `None` when it is absent.
      A JSON `null` and an absent key are the same `None` to Python. */
  function Get(claims: ClaimSet, key: string): Json {
    if key in claims then claims[key] else JNull
  }

  /** Python truthiness: `None`, `False`, zero, and empty strings, lists and
      dicts are false; everything else is true. */
  predicate Truthy(v: Json) {
    match v
    case JNull => false
    case JBool(b) => b
    case JNumber(n) => n != 0.0
    case JString(s) => s != ""
    case JArray(items) => items != []
    case JObject(fields) => fields != map[]
  }
}
