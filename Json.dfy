/** Values produced by decoding JSON text, as Python's `json` module returns them. */
module Json {

  /**
   * A decoded JSON value. Integer and fractional numbers are both `JNum`,
   * holding the exact value the number denotes.
   */
  datatype JsonValue =
    | JNull
    | JBool(b: bool)
    | JNum(n: real)
    | JString(s: string)
    | JArray(items: seq<JsonValue>)
    | JObject(fields: map<string, JsonValue>)

  /** Python truthiness of a decoded value, as in `if value:` or `not value`. */
  predicate Truthy(v: JsonValue)
  {
    match v
    case JNull => false
    case JBool(b) => b
    case JNum(n) => n != 0.0
    case JString(s) => s != []
    case JArray(items) => items != []
    case JObject(fields) => fields != map[]
  }
}
