/** The entities of the IPv6 Segment Routing Header that the binding fills in,
    and the ways a binding call can fail. */
module SrhTypes {
  import opened LuaValues

  /** Capacity of the header's policy list (`policy_list_t::GetSize()`). */
  const PolicyCount: nat := 4
  /** Size of the HMAC field (`hmac_t::GetSize()`). */
  const HmacSize: nat := 32

  /** An IPv6 address: 128 bits. */
  datatype Addr = Addr(hi: bv64, lo: bv64)

  /** The value a default-constructed address holds. */
  const Unspecified := Addr(0, 0)

  /** A policy slot's type: `POLICY_UNSET`, or the number the caller supplied. */
  datatype PolicyType = Unset | Kind(code: int)

  datatype Policy = Policy(kind: PolicyType, value: Addr)

  const UnsetPolicy := Policy(Unset, Unspecified)

  /** What the binding relies on from outside: Lua's coercions and Crafter's
      `ReadIPv6`, which either parses the text or fails. */
  datatype Env = Env(lua: Coercions, readIPv6: string -> Option<Addr>)

  /** The argument errors the binding raises. Where the binding's message
      names the entry (policies and HMAC bytes), `index` is its 1-based
      position in the list argument; the segment errors name none. */
  datatype Error =
    | ExpectedTable                         // luaL_checktype(l, -1, LUA_TTABLE)
    | SegmentNotString                      // luaL_checklstring
    | InvalidSegment(text: string)          // "Invalid IPv6 address: " + text
    | PolicyNotTable(index: nat)
    | MissingPolicyType(index: nat)
    | PolicyTypeNotNumber(index: nat)
    | MissingPolicyValue(index: nat)
    | PolicyValueNotString(index: nat)
    | PolicyValueNotAddress(index: nat)
    | ByteNotNumber(index: nat)

  datatype Result<+T> = Ok(value: T) | Err(error: Error)

  /** Outcome of a call that only changes the header. */
  datatype Status = Success | Failure(error: Error)

  /** `prefix` followed by what `r` read, or the error `r` carries. */
  function Prepend<T>(prefix: seq<T>, r: Result<seq<T>>): Result<seq<T>>
  {
    match r
    case Ok(s) => Ok(prefix + s)
    case Err(e) => Err(e)
  }
}
