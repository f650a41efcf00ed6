/** JSON values as the daemon holds event payloads. Numbers are kept as written. */
module JsonValue {
  import opened TraceModel

  datatype Json =
    | Null
    | Bool(b: bool)
    | Num(text: string)
    | Str(s: string)
    | Arr(items: seq<Json>)
    | Obj(fields: seq<Field>)

  datatype Field = Field(key: string, value: Json)

  /** The value of the first field with that key. */
  function FieldOf(fields: seq<Field>, key: string): Option<Json> {
    if fields == [] then None
    else if fields[0].key == key then Some(fields[0].value)
    else FieldOf(fields[1..], key)
  }
}
