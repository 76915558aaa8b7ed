/**
 * JSON values as the pipeline sees them after decoding. Numbers keep their literal text:
 * the pipeline never computes with them, it only passes them through.
 */
module Json {

  datatype Json =
    | JNull
    | JBool(b: bool)
    | JNumber(literal: string)
    | JString(s: string)
    | JArray(items: seq<Json>)
    | JObject(fields: map<string, Json>)
}
