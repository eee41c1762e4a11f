/** The values `json.load` produces and `json.dump` accepts, and the two
    Python operators the encryptor applies to them: `key in value` and
    `value[key]`. Dictionaries are JSON objects, so the metadata dictionary is
    a `Json` value too. */
module Json {
  import opened Wrappers
  import opened Errors
  import Text

  datatype Json =
    | JNull
    | JBool(b: bool)
    | JNumber(n: int)
    | JString(s: string)
    | JArray(items: seq<Json>)
    | JObject(fields: map<string, Json>)

  /** `key in value`: a key test on a dictionary, an element test on a list,
      a substring test on a string; a `TypeError` on anything else. */
  function PyIn(key: string, value: Json): (r: Result<bool, Error>)
    ensures value.JObject? ==> r == Success(key in value.fields)
    ensures value.JArray? ==> r == Success(JString(key) in value.items)
    ensures value.JString? ==> r == Success(Text.Contains(value.s, key))
    ensures r.Failure? <==> !(value.JObject? || value.JArray? || value.JString?)
  {
    match value
    case JObject(fields) => Success(key in fields)
    case JArray(items) => Success(JString(key) in items)
    case JString(s) => Success(Text.Contains(s, key))
    case _ => Failure(TypeError)
  }

  /** `value[key]` with a string key: only a dictionary that has the key
      yields a value. */
  function PyGetItem(value: Json, key: string): (r: Result<Json, Error>)
    ensures r.Success? <==> value.JObject? && key in value.fields
    ensures r.Success? ==> r.value == value.fields[key]
  {
    match value
    case JObject(fields) => if key in fields then Success(fields[key]) else Failure(KeyError)
    case _ => Failure(TypeError)
  }
}
