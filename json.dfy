/** JSON values as `JSON.parse` produces them. A parsed value is never NaN
    and never `undefined`; an object is the map of its own keys. */
module Json {
  import opened Wrappers

  datatype Json =
    | JNull
    | JBool(b: bool)
    | JNumber(n: real)
    | JString(s: string)
    | JArray(items: seq<Json>)
    | JObject(fields: map<string, Json>)

  /** `typeof v === 'object' && v !== null`: true of objects and of arrays. */
  predicate IsRecord(v: Json) {
    v.JObject? || v.JArray?
  }

  /** Property access `v[key]`, with `None` for `undefined`. Arrays have no
      property under the keys this model reads (none is an index or
      `length`), so they give `undefined` like every non-object. */
  function Get(v: Json, key: string): (r: Option<Json>)
    ensures r.Some? ==> v.JObject? && key in v.fields && r.value == v.fields[key]
    ensures v.JObject? && key in v.fields ==> r.Some?
  {
    if v.JObject? && key in v.fields then Some(v.fields[key]) else None
  }
}
