/** The JSON values a store can hold. */
module JsonValues {

  /** A JSON value. Numbers are kept as mathematical reals; object member
      order is not part of the value. */
  datatype Json =
    | JNull
    | JBool(b: bool)
    | JNumber(n: real)
    | JString(s: string)
    | JArray(items: seq<Json>)
    | JObject(fields: map<string, Json>)
}
