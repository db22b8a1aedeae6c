/** The Lua values the SRH binding reads from its argument tables, and the
    few Lua API calls it applies to them. */
module LuaValues {

  datatype Option<+T> = None | Some(value: T)

  /** A Lua value as the binding sees it on the stack. A table is given by its
      array part (`items[k]` is the value at integer key k + 1, `Nil` marks a
      hole; every key past `|items|` is nil) and by its string-keyed part. */
  datatype Value =
    | Nil
    | Boolean(b: bool)
    | Number(n: int)
    | Str(s: string)
    | Table(items: seq<Value>, fields: map<string, Value>)
    | Other  // functions, userdata, threads

  /** Lua's own conversions between numbers and strings, kept abstract:
      `toNumber` is what `lua_isnumber`/`lua_tointeger` make of a string,
      `numberText` is the text `lua_tolstring` gives a number. */
  datatype Coercions = Coercions(toNumber: string -> Option<int>, numberText: int -> string)

  /** `lua_rawgeti(l, t, i)` on a table whose array part is `items`. */
  function RawGet(items: seq<Value>, i: int): Value
  {
    if 1 <= i <= |items| then items[i - 1] else Nil
  }

  /** `lua_getfield(l, t, key)` on a table whose string-keyed part is `fields`. */
  function GetField(fields: map<string, Value>, key: string): Value
  {
    if key in fields then fields[key] else Nil
  }

  /** `lua_isnumber` followed by `lua_tointeger`: None when the value is not a number. */
  function ToInteger(c: Coercions, v: Value): Option<int>
  {
    match v
    case Number(n) => Some(n)
    case Str(s) => c.toNumber(s)
    case _ => None
  }

  /** `lua_isstring` followed by `lua_tolstring`: None when the value is neither
      a string nor a number. */
  function ToText(c: Coercions, v: Value): Option<string>
  {
    match v
    case Str(s) => Some(s)
    case Number(n) => Some(c.numberText(n))
    case _ => None
  }

  /** The text a C string made from the Lua string `s` carries: `s` up to its
      first NUL, where the C string ends. */
  function CText(s: string): (t: string)
    ensures t <= s && '\0' !in t
    ensures |t| < |s| ==> s[|t|] == '\0'
  {
    if s == [] || s[0] == '\0' then [] else [s[0]] + CText(s[1..])
  }

  /** A Lua string without NUL reaches C whole. */
  lemma {:induction false} CTextWithoutNul(s: string)
    requires '\0' !in s
    ensures CText(s) == s
  {
    if s != [] {
      assert s[0] != '\0';
      CTextWithoutNul(s[1..]);
      assert [s[0]] + s[1..] == s;
    }
  }

  /** Making a C string of a C string's text changes nothing. */
  lemma {:induction false} CTextOfCText(s: string)
    ensures CText(CText(s)) == CText(s)
  {
    if s != [] && s[0] != '\0' {
      CTextOfCText(s[1..]);
      assert CText(s)[1..] == CText(s[1..]);
    }
  }

  /** How many entries a walk over keys 1, 2, ... reads when it stops at the
      first nil or after `limit` entries. */
  function EntriesRead(items: seq<Value>, limit: nat): (n: nat)
    ensures n <= limit && n <= |items|
    ensures forall k :: 0 <= k < n ==> items[k] != Nil
    ensures n < limit && n < |items| ==> items[n] == Nil
  {
    if limit == 0 || items == [] || items[0] == Nil then 0
    else 1 + EntriesRead(items[1..], limit - 1)
  }
}
