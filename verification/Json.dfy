/** JSON values as serde_json and Python's json module hold them, and the accessors used on them. */
module Json {
  import opened Wrappers

  // serde_json keeps an integer as an i64 or, above that, as a u64; anything else is a float.
  type JsonInt = i: int | -0x8000_0000_0000_0000 <= i < 0x1_0000_0000_0000_0000

  // Object keys are unique and their order carries no meaning, hence a map.
  datatype Value =
    | Null
    | Bool(b: bool)
    | Integer(i: JsonInt)
    | Float(r: real)
    | Str(s: string)
    | Array(items: seq<Value>)
    | Object(members: map<string, Value>)

  predicate FloatFree(v: Value)
  {
    match v
    case Float(_) => false
    case Array(items) => forall x | x in items :: FloatFree(x)
    case Object(members) => forall k | k in members :: FloatFree(members[k])
    case _ => true
  }

  // `Value::get(name)`: absent on anything but an object.
  function Get(v: Value, name: string): Option<Value>
  {
    if v.Object? && name in v.members then Some(v.members[name]) else None
  }

  function AsStr(v: Value): Option<string>
  {
    if v.Str? then Some(v.s) else None
  }

  function GetStr(v: Value, name: string): Option<string>
  {
    var field := Get(v, name);
    if field.Some? then AsStr(field.value) else None
  }

  function AsI64(v: Value): Option<int>
  {
    if v.Integer? && v.i < 0x8000_0000_0000_0000 then Some(v.i) else None
  }

  function AsU64(v: Value): Option<nat>
  {
    if v.Integer? && 0 <= v.i then Some(v.i) else None
  }

  function Texts(ss: seq<string>): seq<Value>
  {
    seq(|ss|, i requires 0 <= i < |ss| => Str(ss[i]))
  }
}
