/** The value a YAML document parses to, as the validator sees it: a JavaScript
    object, array, string, number, boolean or null. The members of an object are
    listed in the object's own property order. */
module JsonValues {
  import opened Wrappers
  import opened Strings

  datatype Json =
    | Obj(members: seq<(string, Json)>)
    | Arr(items: seq<Json>)
    | Str(str: string)
    | Int(num: int)
    | Bool(flag: bool)
    | Null

  /** `config[key]` on an object, for a key naming no `Object.prototype`
      member: the value of the first member named `key`, or `None` when
      `key in config` is false. Inherited members are not looked up. */
  function Get(members: seq<(string, Json)>, key: string): (r: Option<Json>)
    ensures r.None? <==> forall i :: 0 <= i < |members| ==> members[i].0 != key
    ensures r.Some? ==> exists i :: 0 <= i < |members| && members[i] == (key, r.value)
  {
    if members == [] then None
    else if members[0].0 == key then Some(members[0].1)
    else Get(members[1..], key)
  }

  /** The member named `key` of a parsed document; no other kind of value has
      one (`"text"[key]`, `[1, 2][key]` and `7[key]` are `undefined`). */
  function Property(config: Json, key: string): Option<Json>
  {
    if config.Obj? then Get(config.members, key) else None
  }

  /** JavaScript truthiness: only `null`, `0`, `""` and `false` are falsy. */
  predicate Truthy(j: Json)
  {
    match j
    case Obj(_) => true
    case Arr(_) => true
    case Str(s) => s != ""
    case Int(n) => n != 0
    case Bool(b) => b
    case Null => false
  }

  /** `String(j)` for the values that have a `toString` method: an array
      joins its elements with commas (an element that is `null` contributes the
      empty string) and every plain object renders as `[object Object]`. */
  function ToJsString(j: Json): string
  {
    match j
    case Obj(_) => "[object Object]"
    case Arr(xs) => Join(seq(|xs|, i requires 0 <= i < |xs| => if xs[i].Null? then "" else ToJsString(xs[i])), ",")
    case Str(s) => s
    case Int(n) => IntToString(n)
    case Bool(b) => if b then "true" else "false"
    case Null => ""
  }

  /** `config[key]?.toString()`: `None` when the property is absent or `null`. */
  function PropertyString(config: Json, key: string): (r: Option<string>)
    ensures r.Some? <==> Property(config, key).Some? && !Property(config, key).value.Null?
    ensures (Property(config, key) == Some(Str("")) || Property(config, key) == Some(Arr([]))) ==> r == Some("")
  {
    match Property(config, key)
    case None => None
    case Some(v) => if v.Null? then None else Some(ToJsString(v))
  }
}
