/** JSON values as the agents send them, and the text functions the catalog
    needs. A string is its Unicode characters; its size is that of its UTF-8. */
module Json {
  import opened Wrappers
  import opened Text

  datatype Json =
    | Null
    | Bool(b: bool)
    | Number(n: int)
    | Str(s: Text)
    | Array(items: seq<Json>)
    | Object(fields: map<string, Json>)

  function Get(value: Json, key: string): Option<Json> {
    if value.Object? && key in value.fields then Some(value.fields[key]) else None
  }

  function GetIn(value: Option<Json>, key: string): Option<Json> {
    if value.Some? then Get(value.value, key) else None
  }

  function AsStr(value: Option<Json>): Option<Text> {
    if value.Some? && value.value.Str? then Some(value.value.s) else None
  }

  function AsArray(value: Option<Json>): seq<Json> {
    if value.Some? && value.value.Array? then value.value.items else []
  }

  // ----- Sequences

  function Take<T>(items: seq<T>, n: nat): seq<T> {
    if |items| <= n then items else items[..n]
  }

  function FilterMap<A, B>(items: seq<A>, f: A -> Option<B>): seq<B> {
    if items == [] then []
    else (if f(items[0]).Some? then [f(items[0]).value] else []) + FilterMap(items[1..], f)
  }

  // ----- Text

  /** The general category Cc of Unicode. */
  predicate IsControl(c: char) {
    c as int < 0x20 || 0x7F <= c as int < 0xA0
  }

  /** The property White_Space of Unicode. */
  predicate IsWhitespace(c: char) {
    var n := c as int;
    9 <= n <= 13 || n == 0x20 || n == 0x85 || n == 0xA0 || n == 0x1680 || 0x2000 <= n <= 0x200A
    || n == 0x2028 || n == 0x2029 || n == 0x202F || n == 0x205F || n == 0x3000
  }

  function TrimStart(s: string): string {
    if s != "" && IsWhitespace(s[0]) then TrimStart(s[1..]) else s
  }

  function TrimEnd(s: string): string {
    if s != "" && IsWhitespace(s[|s| - 1]) then TrimEnd(s[..|s| - 1]) else s
  }

  function Trim(s: string): string {
    TrimEnd(TrimStart(s))
  }

  predicate NoControl(s: string) {
    forall i | 0 <= i < |s| :: !IsControl(s[i])
  }
}
