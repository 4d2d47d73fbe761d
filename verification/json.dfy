/** The slice of Qt's JSON value API the image manifest is read through: a
    parsed value, and the lenient accessors that turn a value of the wrong
    kind (or a missing key) into an empty array, an empty object or an empty
    string instead of failing. Turning text into a value is not modelled. */
module Json {

  /** A parsed JSON value. A missing key reads as `JNull`, which every
      accessor treats like any other value of the wrong kind. */
  datatype Json =
    | JNull
    | JBool(b: bool)
    | JNumber(n: int)
    | JString(s: string)
    | JArray(items: seq<Json>)
    | JObject(fields: map<string, Json>)

  /** `QJsonObject::value(key)` / `operator[]`: the member, or null when
      absent. */
  function Member(obj: map<string, Json>, key: string): (v: Json)
    ensures key in obj ==> v == obj[key]
    ensures key !in obj ==> v == JNull
  {
    if key in obj then obj[key] else JNull
  }

  /** `QJsonValue::toArray()` (and `QJsonDocument::array()`): the items of
      an array, nothing for any other kind. */
  function ToArray(v: Json): (items: seq<Json>)
    ensures v.JArray? ==> items == v.items
    ensures !v.JArray? ==> items == []
  {
    if v.JArray? then v.items else []
  }

  /** `QJsonValue::toObject()` (and `QJsonDocument::object()`): the members
      of an object, none for any other kind. */
  function ToObject(v: Json): (fields: map<string, Json>)
    ensures v.JObject? ==> fields == v.fields
    ensures !v.JObject? ==> fields == map[]
  {
    if v.JObject? then v.fields else map[]
  }

  /** `QJsonValue::toString()`: the text of a string, "" for any other kind. */
  function ToText(v: Json): (s: string)
    ensures v.JString? ==> s == v.s
    ensures !v.JString? ==> s == ""
  {
    if v.JString? then v.s else ""
  }
}
