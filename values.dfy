/** Values shared by the simulator server model: optional values, results,
    and the JSON values that request bodies and stored graph contents carry,
    with JavaScript's notion of truthiness on them. */
module Values {

  datatype Option<+T> = None | Some(value: T)

  datatype Result<+T, +E> = Ok(value: T) | Err(error: E)

  /** The outcome of an operation that returns nothing but may fail. */
  datatype Outcome<+E> = Pass | Fail(error: E)

  /** A JSON value as `express.json` and the `jsonb` column hand it to the
      server. A number is a real. */
  datatype Json =
    | JNull
    | JBool(b: bool)
    | JNumber(n: real)
    | JString(s: string)
    | JArray(items: seq<Json>)
    | JObject(fields: map<string, Json>)

  /** JavaScript truthiness of a JSON value. */
  predicate Truthy(j: Json) {
    match j
    case JNull => false
    case JBool(b) => b
    case JNumber(n) => n != 0.0
    case JString(s) => s != ""
    case JArray(_) => true
    case JObject(_) => true
  }

  /** Truthiness of a value that may be `undefined` (None). */
  predicate Present(o: Option<Json>) {
    o.Some? && Truthy(o.value)
  }

  /** Property access `j.key`: only objects have the properties the server
      reads (`graph`, `nodes`, `edges`, `payload`, `comment`); on any other
      value the access yields `undefined`. */
  function Field(j: Json, key: string): (r: Option<Json>)
    ensures r.Some? <==> j.JObject? && key in j.fields
    ensures r.Some? ==> r.value == j.fields[key]
  {
    if j.JObject? && key in j.fields then Some(j.fields[key]) else None
  }

  /** Optional chaining `o?.key` on a value that may be `undefined`. */
  function FieldOf(o: Option<Json>, key: string): (r: Option<Json>)
    ensures o.None? ==> r.None?
    ensures o.Some? ==> r == Field(o.value, key)
  {
    if o.Some? then Field(o.value, key) else None
  }

  /** The empty object `{}`. */
  const EmptyObject: Json := JObject(map[])
}
