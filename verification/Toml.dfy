/** Parsed TOML values and the text operations of the config readers. */
module Toml {
  import opened Common

  /** `Other` covers floats and dates, of which the readers only ever ask the truth value. */
  datatype Value =
    | Str(text: string)
    | Int(number: int)
    | Bool(flag: bool)
    | Other(truth: bool)
    | Arr(items: seq<Value>)
    | Table(fields: map<string, Value>)

  type Fields = map<string, Value>

  function Get(t: Fields, key: string): Option<Value> {
    if key in t then Some(t[key]) else None
  }

  predicate Truthy(v: Option<Value>) {
    match v
    case None => false
    case Some(Str(s)) => s != ""
    case Some(Int(n)) => n != 0
    case Some(Bool(b)) => b
    case Some(Other(t)) => t
    case Some(Arr(items)) => items != []
    case Some(Table(fields)) => fields != map[]
  }

  /** `t.get(key, [])` where the readers take a non-list for no entries. */
  function Items(t: Fields, key: string): seq<Value> {
    if key in t && t[key].Arr? then t[key].items else []
  }

  // --- Text ---

  /** str.isspace. */
  predicate IsSpace(c: char) {
    var n := c as int;
    || 9 <= n <= 13 || 28 <= n <= 32 || n == 0x85 || n == 0xA0 || n == 0x1680
    || 0x2000 <= n <= 0x200A || n == 0x2028 || n == 0x2029 || n == 0x202F || n == 0x205F || n == 0x3000
  }

  function StripLeft(s: string): string {
    if s != "" && IsSpace(s[0]) then StripLeft(s[1..]) else s
  }

  function StripRight(s: string): string {
    if s != "" && IsSpace(s[|s| - 1]) then StripRight(s[..|s| - 1]) else s
  }

  function Strip(s: string): string {
    StripRight(StripLeft(s))
  }

  /** The stripped text of a non-blank string value. */
  function Word(v: Option<Value>): Option<string> {
    match v
    case Some(Str(s)) => if Strip(s) != "" then Some(Strip(s)) else None
    case _ => None
  }

  predicate AnySpace(s: string) {
    exists i :: 0 <= i < |s| && IsSpace(s[i])
  }
}
