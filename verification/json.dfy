/** Request bodies as parsed JSON values. */
module Json {
  import opened Wrappers

  /** A JSON value. Numbers are kept as integers: no rule of the model looks
      at a number beyond its truthiness. */
  datatype Json =
    | JNull
    | JBool(b: bool)
    | JNumber(n: int)
    | JString(s: string)
    | JArray(items: seq<Json>)
    | JObject(fields: map<string, Json>)

  /** `body[name]`: the member of an object, or `undefined` when `body` is not
      an object or has no such member. */
  function Field(body: Json, name: string): (r: Option<Json>)
    ensures r.Some? <==> body.JObject? && name in body.fields
    ensures r.Some? ==> r.value == body.fields[name]
  {
    if body.JObject? && name in body.fields then Some(body.fields[name]) else None
  }

  /** JavaScript truthiness of a present JSON value. */
  predicate Truthy(v: Json) {
    match v
    case JNull => false
    case JBool(b) => b
    case JNumber(n) => n != 0
    case JString(s) => s != ""
    case JArray(_) => true
    case JObject(_) => true
  }

  /** The strings of a JSON array whose every element is a string. */
  function AsStrings(v: Json): (r: Option<seq<string>>)
    ensures r.Some? <==> v.JArray? && forall i :: 0 <= i < |v.items| ==> v.items[i].JString?
    ensures r.Some? ==> |r.value| == |v.items|
    ensures r.Some? ==> forall i :: 0 <= i < |v.items| ==> v.items[i] == JString(r.value[i])
  {
    if v.JArray? && forall i :: 0 <= i < |v.items| ==> v.items[i].JString? then
      Some(seq(|v.items|, i requires 0 <= i < |v.items| => v.items[i].s))
    else None
  }

  /** The JSON array of the given strings. */
  function StringsJson(ss: seq<string>): (r: Json)
    ensures AsStrings(r) == Some(ss)
  {
    var r := JArray(seq(|ss|, i requires 0 <= i < |ss| => JString(ss[i])));
    assert AsStrings(r).value == ss;
    r
  }
}
