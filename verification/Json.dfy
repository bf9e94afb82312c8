/** JSON documents. Object keys are unordered and distinct. */
module Json {
  import opened Options

  datatype Json =
    | Null
    | Bool(b: bool)
    | Number(n: int)
    | String(s: string)
    | Array(elems: seq<Json>)
    | Object(fields: map<string, Json>)
  {
    /** `Value::get` with a key. */
    function Get(key: string): Option<Json> {
      if Object? && key in fields then Some(fields[key]) else None
    }

    function AsString(): Option<string> {
      if String? then Some(s) else None
    }
  }
}
