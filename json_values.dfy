/**
  Parsed JSON values, as `JSON.parse` hands them to the viewer. Object members keep
  their source order, which stands in for `Object.keys`/`Object.entries` order.
  Numbers are integers (floating point is not modelled).
 */
module JsonValues {
  import opened Wrappers

  datatype Json =
    | Null
    | Bool(b: bool)
    | Num(n: int)
    | Str(s: string)
    | Arr(items: seq<Json>)
    | Obj(members: seq<Member>)

  datatype Member = Member(name: string, value: Json)

  /** Position of the first member called `key`, or -1 when the object has none.
      `JSON.parse` keeps the last of duplicate names instead; objects that come from the
      parser have distinct names, so the two agree on them. */
  function MemberIndex(ms: seq<Member>, key: string): (i: int)
    ensures -1 <= i < |ms|
    ensures i >= 0 ==> ms[i].name == key && forall j :: 0 <= j < i ==> ms[j].name != key
    ensures i == -1 ==> forall j :: 0 <= j < |ms| ==> ms[j].name != key
  {
    if |ms| == 0 then -1
    else if ms[0].name == key then 0
    else var k := MemberIndex(ms[1..], key); if k < 0 then -1 else k + 1
  }

  /** `v[key]`: the member's value when `v` is an object that has it, else `undefined` (None). */
  function Prop(v: Json, key: string): (r: Option<Json>)
    ensures r.Some? ==> v.Obj? && exists j :: 0 <= j < |v.members| && v.members[j] == Member(key, r.value)
    ensures r.None? && v.Obj? ==> forall j :: 0 <= j < |v.members| ==> v.members[j].name != key
  {
    if v.Obj? then
      var i := MemberIndex(v.members, key);
      if i >= 0 then Some(v.members[i].value) else None
    else None
  }

  /** `o[key]` where `o` may itself be `undefined`. */
  function Get(o: Option<Json>, key: string): Option<Json>
  {
    if o.Some? then Prop(o.value, key) else None
  }

  /** JavaScript truthiness: `null`, `false`, `0` and `""` are falsy; arrays and objects are truthy. */
  predicate Truthy(v: Json)
  {
    match v
    case Null => false
    case Bool(b) => b
    case Num(n) => n != 0
    case Str(s) => |s| > 0
    case Arr(_) => true
    case Obj(_) => true
  }

  /** Truthiness of a value that may be `undefined`. */
  predicate Present(o: Option<Json>)
  {
    o.Some? && Truthy(o.value)
  }

  /** The string a value holds when `typeof v === 'string'`. */
  predicate IsStr(o: Option<Json>)
  {
    o.Some? && o.value.Str?
  }
}
