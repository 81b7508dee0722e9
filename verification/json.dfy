/**
  The document values `toJson` builds with the org.json library: strings,
  arrays and objects. An object is unordered, so its fields are a map.
*/
module Json {

  datatype Json =
    | JString(str: string)
    | JArray(items: seq<Json>)
    | JObject(fields: map<string, Json>)

}
