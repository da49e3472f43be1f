/** JSON values, as far as the protocol looks into them. */
module Json {
  import opened Wrappers

  /** A number is an integer or the literal text of any other number. */
  datatype Json =
    | Null
    | Bool(b: bool)
    | Int(n: int)
    | Number(literal: string)
    | Str(s: string)
    | Arr(items: seq<Json>)
    | Obj(fields: map<string, Json>)

  /** `Value::get`: a member of an object; anything else has no members. */
  function Get(j: Json, key: string): Option<Json> {
    if j.Obj? && key in j.fields then Some(j.fields[key]) else None
  }

  /** `and_then(Value::as_str)`. */
  function AsStr(j: Option<Json>): Option<string> {
    if j.Some? && j.value.Str? then Some(j.value.s) else None
  }

  function GetStr(j: Json, key: string): Option<string> {
    AsStr(Get(j, key))
  }

  function OrNull(j: Option<Json>): Json {
    if j.Some? then j.value else Null
  }

  /** `Ord` on strings. */
  predicate LexLe(a: string, b: string) {
    a == [] || (b != [] && (a[0] < b[0] || (a[0] == b[0] && LexLe(a[1..], b[1..]))))
  }
}
