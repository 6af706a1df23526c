/** A parsed JSON value: what `JSON.parse` hands to code that treats it as `any`. */
module Json {
  import opened Wrappers

  datatype Json =
    | JNull
    | JBool(b: bool)
    | JNum(n: real)
    | JStr(s: string)
    | JArr(items: seq<Json>)
    | JObj(fields: map<string, Json>)

  /** `x.k`: the property `k` of an object, or `undefined` (None) for a missing key or a value that is not an object. */
  function Get(x: Json, k: string): (r: Option<Json>)
    ensures r.Some? <==> x.JObj? && k in x.fields
  {
    if x.JObj? && k in x.fields then Some(x.fields[k]) else None
  }

  /** `x ?? fallback` applied to a property read: null and undefined both fall through. */
  function OrElse(x: Option<Json>, fallback: Json): (r: Json)
    ensures x.Some? && x.value != JNull ==> r == x.value
    ensures x.None? || x.value == JNull ==> r == fallback
  {
    if x.Some? && x.value != JNull then x.value else fallback
  }
}
