/**
 * JSON documents as structured values. The firmware keeps every configuration
 * store and every publish payload as a JSON document; the model keeps the
 * decoded value and leaves the text encoding out.
 */
module Json {

  datatype Value =
    | Null
    | Bool(b: bool)
    | Int(i: int)
    | Str(s: string)
    | Arr(items: seq<Value>)
    | Obj(fields: map<string, Value>)

  /** A configuration document: a JSON object's members. */
  type Config = map<string, Value>

  /** Python's `dict.get(key, default)`. */
  function Get(c: Config, key: string, default: Value): (v: Value)
    ensures key in c ==> v == c[key]
    ensures key !in c ==> v == default
  {
    if key in c then c[key] else default
  }
}
