/** JSON values as `serde_json` holds them: objects keep their fields in iteration order. */
module Json {
  import opened Text

  datatype Number = Int(value: int) | Float(text: string)

  datatype Value =
    | Null
    | Bool(b: bool)
    | Num(n: Number)
    | Str(s: string)
    | Arr(items: seq<Value>)
    | Obj(fields: seq<Field>)

  datatype Field = Field(key: string, value: Value)

  function GetFrom(fields: seq<Field>, key: string): Option<Value> {
    if fields == [] then None
    else if fields[0].key == key then Some(fields[0].value)
    else GetFrom(fields[1..], key)
  }

  /** `Value::get` with a string key. */
  function Get(v: Value, key: string): Option<Value> {
    if v.Obj? then GetFrom(v.fields, key) else None
  }
}
