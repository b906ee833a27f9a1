/** Values shared by every table: optional fields, opaque JSON payloads and
    JavaScript truthiness (the `x || default` idiom the store relies on). */
module Base {

  datatype Option<+T> = None | Some(value: T) {
    function GetOr(default: T): T {
      match this
      case Some(v) => v
      case None => default
    }
  }

  /** A JSON value as stored in a `jsonb` column. Numbers are integers here. */
  datatype Json =
    | JNull
    | JBool(b: bool)
    | JNumber(n: int)
    | JString(s: string)
    | JArray(items: seq<Json>)
    | JObject(members: seq<(string, Json)>)

  /** JavaScript truthiness of a JSON value: null, false, 0 and "" are falsy. */
  predicate JsonTruthy(j: Json) {
    match j
    case JNull => false
    case JBool(b) => b
    case JNumber(n) => n != 0
    case JString(s) => s != ""
    case JArray(_) => true
    case JObject(_) => true
  }

  /** Truthiness of an optional string: `undefined`/`null` and "" are falsy. */
  predicate Truthy(v: Option<string>) {
    v.Some? && v.value != ""
  }

  /** `j || fallback` for an optional JSON payload. */
  function JsonOr(j: Option<Json>, fallback: Json): (r: Json)
    ensures j.Some? && JsonTruthy(j.value) ==> r == j.value
    ensures !(j.Some? && JsonTruthy(j.value)) ==> r == fallback
  {
    if j.Some? && JsonTruthy(j.value) then j.value else fallback
  }

  /** `s || null` for an optional string: the empty string becomes null. */
  function StringOrNull(s: Option<string>): (r: Option<string>)
    ensures r.Some? <==> Truthy(s)
    ensures r.Some? ==> r == s
  {
    if Truthy(s) then s else None
  }
}
