/** `get_json_list` of helpers.py, applied to the value `json.loads` has
    already produced from the text. */
module Helpers {
  import opened Wrappers

  /** A parsed JSON value. An object is its members in the order the
      Python dict keeps them. */
  datatype Json =
    | JNull
    | JBool(b: bool)
    | JNumber(n: int)
    | JString(s: string)
    | JArray(items: seq<Json>)
    | JObject(members: seq<(string, Json)>)

  datatype JsonListError =
    | NotAnObject   // the ValueError raised for a value that is not a dict
    | NoFirstKey    // the StopIteration of `next(iter({}))`

  /** Whether the object has a member with this key (`key in obj`). */
  predicate HasKey(members: seq<(string, Json)>, key: string) {
    exists i :: 0 <= i < |members| && members[i].0 == key
  }

  /** `get_json_list`: only an object is accepted, and only its first
      member is looked at. A list there is the result; any other value
      there makes the whole object the single element of the result. */
  function GetJsonList(value: Json): (r: Result<seq<Json>, JsonListError>)
    ensures r == Err(NotAnObject) <==> !value.JObject?
    ensures r == Err(NoFirstKey) <==> value == JObject([])
    ensures r.Ok? ==> value.JObject? && |value.members| > 0
    ensures r.Ok? && value.members[0].1.JArray? ==> r.value == value.members[0].1.items
    ensures r.Ok? && !value.members[0].1.JArray? ==> r.value == [value]
  {
    match value
    case JObject(members) =>
      if |members| == 0 then Err(NoFirstKey)
      else if members[0].1.JArray? then Ok(members[0].1.items)
      else Ok([value])
    case _ => Err(NotAnObject)
  }

  /** A list stored under the first key comes back unchanged, whatever
      members follow it. */
  lemma UnwrapsFirstList(key: string, items: seq<Json>, rest: seq<(string, Json)>)
    ensures GetJsonList(JObject([(key, JArray(items))] + rest)) == Ok(items)
  {
    var members := [(key, JArray(items))] + rest;
    assert members[0].1 == JArray(items);
  }

  /** When the first value is not a list, the single element of the result
      is the object itself, and asking again gives the same list: wrapping
      is done at most once. */
  lemma WrapsOnce(value: Json)
    requires value.JObject? && |value.members| > 0 && !value.members[0].1.JArray?
    ensures GetJsonList(value) == Ok([value])
    ensures GetJsonList(GetJsonList(value).value[0]) == GetJsonList(value)
  {
  }
}
