/**
  Decoded JSON values, as `encoding/json` hands them to the program when it
  unmarshals into `map[string]interface{}`: a closed sum of the six JSON kinds.
  A number is carried as the exact value of the decoded float64.
 */
module Json {

  datatype Json =
    | Null
    | Bool(b: bool)
    | Num(n: real)
    | Str(s: string)
    | Arr(items: seq<Json>)
    | Obj(fields: map<string, Json>)

  /** One decoded line: a JSON object. */
  type Doc = map<string, Json>
}
