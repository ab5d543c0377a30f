/** A parsed JSON document, as far as the tag mapping looks into it. Only
    the lookups are modelled; parsing text into a value is not. */
module Json {
  import opened Common

  datatype Value =
    | Null
    | Boolean(b: bool)
    | Number(n: real)
    | Str(s: string)
    | Array(items: seq<Value>)
    | Object(fields: map<string, Value>)

  /** `value[key]`: the member of an object, `Null` when absent or when
      the value is not an object. */
  function Get(v: Value, key: string): (r: Value) {
    if v.Object? && key in v.fields then v.fields[key] else Null
  }

  /** `value[i]`: the element of an array, `Null` when out of range or
      when the value is not an array. */
  function At(v: Value, i: nat): (r: Value) {
    if v.Array? && i < |v.items| then v.items[i] else Null
  }

  /** `as_str`: the text of a string value. */
  function AsStr(v: Value): (r: Option<string>) {
    if v.Str? then Some(v.s) else None
  }

  /** `as_i64`: an integral number within the range of `i64`. */
  function AsI64(v: Value): (r: Option<int>) {
    if v.Number? && v.n.Floor as real == v.n
       && -0x8000_0000_0000_0000 <= v.n.Floor < 0x8000_0000_0000_0000
    then Some(v.n.Floor)
    else None
  }
}
