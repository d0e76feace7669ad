/** JSON values, with the key order of objects kept. */
module Json {
  import opened Wrappers
  import opened OrderedMap

  datatype Value =
    | Null
    | Bool(flag: bool)
    | Number(n: int)
    | Str(text: string)
    | Array(items: seq<Value>)
    | Object(fields: OMap<Value>)
  {
    /** `Value::get`: only an object has fields. */
    function Field(key: string): Option<Value> {
      if Object? then Get(fields, key) else None
    }
  }
}
