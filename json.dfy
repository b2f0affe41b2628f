/** The values `json.loads` can return, and Python's `key in value` on them. */
module Json {
  import opened Wrappers
  import opened Strings

  /** A decoded JSON value; numbers are kept as integers. */
  datatype Json =
    | JNull
    | JBool(b: bool)
    | JNumber(n: int)
    | JString(s: string)
    | JArray(items: seq<Json>)
    | JObject(fields: map<string, Json>)

  const TypeError := "TypeError"

  /**
   * Python's `key in value`: a key test on a dict, a substring test on a str,
   * an element test on a list, and a `TypeError` on None, bool and numbers.
   */
  function In(key: string, value: Json): (r: Result<bool, string>)
    ensures r.Failure? <==> value.JNull? || value.JBool? || value.JNumber?
    ensures r.Failure? ==> r.error == TypeError
  {
    match value
    case JObject(fields) => Success(key in fields)
    case JString(s) => Success(Contains(s, key))
    case JArray(items) => Success(JString(key) in items)
    case _ => Failure(TypeError)
  }
}
