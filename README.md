# IPv6 Segment Routing Header: Lua binding model

This project models the part of tracebox's Lua binding that builds an IPv6
Segment Routing Header (SRH) from Lua arguments
(`src/tracebox/lua/lua_ipv6segmentroutingheader.cpp`). It covers:

- `setsegments`: walks a 1-based list up to the first nil. It parses every
  entry as an IPv6 address (the entry's text up to its first NUL, since
  `ReadIPv6` is handed a C string) and replaces the header's segment list only
  when all of them parse.
- `setpolicies`: reads at most `policy_count` entries into local scratch
  buffers. Each entry must be a table with a numeric `type` and a `value`
  that is text naming an IPv6 address, again read up to its first NUL. The policies are applied to the
  header with `SetPolicy` only after every entry read has been checked.
  Entries past the capacity are ignored.
- `sethmac`: reads at most 32 numbers into a local field, taken to be
  zero-filled (the documentation calls the result "0-padded"), then
  copies the whole field over the header's.
- The constructor `IPv6SegmentRoutingHeader.new{...}`: it applies the
  options in a fixed order: segmentleft, hmackey, cflag, pflag, then
  segments, hmac, policies. A failing list step ends construction and
  leaves what the earlier steps set.
- The scalar setters, including `segmentleft` (`set_segleft`).

Layout:

- `lua_values.dfy`: Lua values as the binding sees them. A table is an
  array part with `Nil` holes plus a string-keyed part. Lua's
  number/string coercions are kept abstract.
- `srh_types.dfy`: addresses, policies, the argument errors, and the
  capacities (4 policies, 32 HMAC bytes).
- `list_walk.dfy`: the walk that all three builders share. It reads keys
  1, 2, ..., stops at the first nil or at a limit, and aborts on the first
  rejected entry. Its lemmas are proved once here.
- `segments.dfy`, `hmac.dfy`, `policies.dfy`: each builder's read loop,
  as a method with loop invariants, proved equal to a specification
  function. Each also has lemmas relating that function to an independent
  description of well-formed input.
- `header.dfy`: the header object. It is a class with the fixed-size HMAC
  field and policy list as arrays, the setters and the constructor. The
  pure `Build` function states what construction yields.

A Lua argument error (`luaL_argerror`, `luaL_checktype`) unwinds the C
stack. It is modelled as an `Err`/`Failure` result. The header keeps
whatever state it had reached when the error was raised.

## Model

| member | source | states |
|---|---|---|
| LuaValues.CText | src/tracebox/lua/lua_ipv6segmentroutingheader.cpp:35 | the C string made from a Lua string is its longest NUL-free prefix: a prefix of it without NUL, ended where the Lua string has a NUL |
| LuaValues.EntriesRead | src/tracebox/lua/lua_ipv6segmentroutingheader.cpp:27-33 | the number of entries a walk reads is at most the limit and the list length; every entry counted is non-nil, and the walk stopped early only at a nil |
| ListWalk.Walk | src/tracebox/lua/lua_ipv6segmentroutingheader.cpp:85-93 | a walk with a limit never yields more entries than the limit |
| ListWalk.WalkSucceeds | src/tracebox/lua/lua_ipv6segmentroutingheader.cpp:27-43 | a walk succeeds iff every entry it reaches is accepted, and then yields exactly those entries' readings, in order |
| ListWalk.WalkStopsAtFirstRejected | src/tracebox/lua/lua_ipv6segmentroutingheader.cpp:38-41 | a walk whose first rejected entry is the j-th reports that entry's error and nothing later |
| ListWalk.WalkIgnoresBeyondLimit | src/tracebox/lua/lua_ipv6segmentroutingheader.cpp:167 | entries past the limit never affect the walk's outcome |
| Segments.CollectSegments | src/tracebox/lua/lua_ipv6segmentroutingheader.cpp:20-49 | the segment loop returns exactly the specified segment list, or the error of the first entry that is not a string or not an IPv6 address |
| Segments.SegmentEndsAtNul | src/tracebox/lua/lua_ipv6segmentroutingheader.cpp:35-41 | a segment string is read only up to its first NUL: whatever follows never changes the entry's outcome or the text reported |
| Segments.ReadSegmentAgrees | src/tracebox/lua/lua_ipv6segmentroutingheader.cpp:35-41 | one entry's checks accept exactly the values whose text, up to its first NUL, parses as an address, yield that address, and otherwise name the failing check |
| Segments.ParseSegmentsOk | src/tracebox/lua/lua_ipv6segmentroutingheader.cpp:26-47 | the list is accepted iff every entry before the first nil names an address; it then yields those addresses in order, and their number equals the count before the nil |
| Segments.ParseSegmentsFailsAtFirstBad | src/tracebox/lua/lua_ipv6segmentroutingheader.cpp:35-41 | a rejected list is reported by its first bad entry: as not a string, or with the text (up to its first NUL) that is not an IPv6 address; as in the source, no index is reported |
| Hmac.CollectHmac | src/tracebox/lua/lua_ipv6segmentroutingheader.cpp:160-187 | the HMAC loop over a zero-filled local field returns exactly the specified field, or the error of the first non-number |
| Hmac.ParseHmacField | src/tracebox/lua/lua_ipv6segmentroutingheader.cpp:166-183 | an accepted list gives a field of exactly 32 values: the numbers read, in order, followed by zeros; the list is accepted iff every entry read is a number |
| Hmac.ParseHmacFailsAtFirstBad | src/tracebox/lua/lua_ipv6segmentroutingheader.cpp:175-179 | a rejected list reports its first non-number with its 1-based index |
| Hmac.ParseHmacIgnoresBeyondSize | src/tracebox/lua/lua_ipv6segmentroutingheader.cpp:167 | entries past the 32nd are never read, whatever they hold |
| Policies.CheckPolicy | src/tracebox/lua/lua_ipv6segmentroutingheader.cpp:94-127 | one entry's checks accept exactly the well-formed entries (a table whose `type` is a number and whose `value` is text naming an address up to its first NUL) and read each as that policy; a rejection is a policy error naming the entry's 1-based index |
| Policies.ReadPolicyAgrees | src/tracebox/lua/lua_ipv6segmentroutingheader.cpp:95-127 | the entry checks accept exactly the well-formed entries and read each one as the policy it stands for |
| Policies.ReadPolicyList | src/tracebox/lua/lua_ipv6segmentroutingheader.cpp:76-133 | the read loop over the local scratch buffer returns exactly the specified policies, at most `policy_count` of them, or the first malformed entry's error; it counts the entries read correctly in both exits |
| Policies.ParsePoliciesOk | src/tracebox/lua/lua_ipv6segmentroutingheader.cpp:85-133 | the list is accepted iff the entries read (up to capacity, before the first nil) are well-formed; it then yields their policies in order, at most `policy_count` |
| Policies.ParsePoliciesFailsAtFirstMalformed | src/tracebox/lua/lua_ipv6segmentroutingheader.cpp:95-127 | a rejected list reports its first malformed entry, with its index and the first check that entry fails |
| Policies.ParsePoliciesIgnoresBeyondCapacity | src/tracebox/lua/lua_ipv6segmentroutingheader.cpp:84-85 | entries beyond `policy_count` are silently ignored: the outcome is that of the first `policy_count` entries |
| Policies.ExitIndexFrom | src/tracebox/lua/lua_ipv6segmentroutingheader.cpp:85-93 | as written, the read loop started at idx ends at one less than the first nil's index, or at `policy_count + 1` when it meets no nil |
| Policies.ExitIndexAsWrittenValue | src/tracebox/lua/lua_ipv6segmentroutingheader.cpp:85-93 | as written, the loop's final `idx` is the number of entries read only when a nil comes before the capacity; otherwise it is `policy_count + 1` |
| Policies.ExitIndexAgreesBelowCapacity | src/tracebox/lua/lua_ipv6segmentroutingheader.cpp:135-137 | the claim `idx <= policy_count` holds iff a nil ends the list before the capacity, and then `idx` equals the number of policies read |
| Policies.ApplyLoopOverrunsScratch | src/tracebox/lua/lua_ipv6segmentroutingheader.cpp:135-137 | a full list of well-formed policies passes every check, and the apply loop then runs up to index `policy_count`, one past the scratch buffers |
| Policies.FourPoliciesOverrun | src/tracebox/lua/lua_ipv6segmentroutingheader.cpp:135-137 | four `{type=1, value='2001:db8::1'}` entries are accepted, and the apply loop then overruns the scratch buffers |
| Header.WithSegments | src/tracebox/lua/lua_ipv6segmentroutingheader.cpp:44-47 | `setsegments` changes only the segment list, and a failure changes nothing |
| Header.WithHmac | src/tracebox/lua/lua_ipv6segmentroutingheader.cpp:183 | `sethmac` changes only the HMAC field, and a failure changes nothing |
| Header.WithPolicies | src/tracebox/lua/lua_ipv6segmentroutingheader.cpp:135-137 | `setpolicies` changes only the policy list, and a failure changes nothing |
| Header.ApplyLists | src/tracebox/lua/lua_ipv6segmentroutingheader.cpp:251-261 | the constructor's list steps never change the scalar fields |
| Header.SegmentRoutingHeader.constructor | src/tracebox/lua/lua_ipv6segmentroutingheader.cpp:238 | a new header has no segment left, key 0, both flags clear, no segments, an all-zero HMAC and every policy slot unset |
| Header.SegmentRoutingHeader.SetSegmentLeft | src/tracebox/lua/lua_ipv6segmentroutingheader.cpp:265-270 | `segmentleft` sets the segments-left field and nothing else |
| Header.SegmentRoutingHeader.SetHMACKeyID | src/tracebox/lua/lua_ipv6segmentroutingheader.cpp:244-245 | setting the HMAC key id changes that field only |
| Header.SegmentRoutingHeader.SetCFlag | src/tracebox/lua/lua_ipv6segmentroutingheader.cpp:246-247 | setting the cleanup flag changes that field only |
| Header.SegmentRoutingHeader.SetPFlag | src/tracebox/lua/lua_ipv6segmentroutingheader.cpp:248-249 | setting the protected flag changes that field only |
| Header.SegmentRoutingHeader.SetPolicy | src/tracebox/lua/lua_ipv6segmentroutingheader.cpp:137 | `SetPolicy(i, ...)` writes slot i of the policy list and nothing else |
| Header.SegmentRoutingHeader.SetSegments | src/tracebox/lua/lua_ipv6segmentroutingheader.cpp:61-67 | the method leaves the header and status exactly as `setsegments` specifies |
| Header.SegmentRoutingHeader.SetHmac | src/tracebox/lua/lua_ipv6segmentroutingheader.cpp:195-201 | the method copies the read field over the header's, as `sethmac` specifies |
| Header.SegmentRoutingHeader.SetPolicyList | src/tracebox/lua/lua_ipv6segmentroutingheader.cpp:135-141 | the apply loop stores the policies read into slots 0 .. n-1 one `SetPolicy` at a time, as `setpolicies` specifies |
| Header.SegmentRoutingHeader.ApplyOptions | src/tracebox/lua/lua_ipv6segmentroutingheader.cpp:251-262 | the list steps run in the order segments, hmac, policies, each only when present, and the first failure returns at once |
| Header.New | src/tracebox/lua/lua_ipv6segmentroutingheader.cpp:227-263 | the constructor yields a fresh header whose state and status are those `Build` specifies |
| Header.SetSegmentsAtomic | src/tracebox/lua/lua_ipv6segmentroutingheader.cpp:38-47 | `setsegments` succeeds iff every entry before the first nil names an address; then the segments are those addresses in order and nothing else changes; otherwise the header is untouched |
| Header.SetSegmentsIdempotent | src/tracebox/lua/lua_ipv6segmentroutingheader.cpp:47 | setting the same segment list twice leaves the header as setting it once |
| Header.SetHmacAtomic | src/tracebox/lua/lua_ipv6segmentroutingheader.cpp:166-186 | `sethmac` succeeds iff every entry read is a number; then the field is those numbers followed by zeros up to 32 and nothing else changes; otherwise the header is untouched |
| Header.SetPoliciesAtomic | src/tracebox/lua/lua_ipv6segmentroutingheader.cpp:95-137 | `setpolicies` succeeds iff the entries read are well-formed; then slot k holds the k-th entry's policy, later slots keep theirs and nothing else changes; otherwise the header is untouched |
| Header.BuildDefaults | src/tracebox/lua/lua_ipv6segmentroutingheader.cpp:233-262 | with no option given, construction succeeds with the default header |
| Header.BuildSetsScalars | src/tracebox/lua/lua_ipv6segmentroutingheader.cpp:242-249 | the scalar options are applied whatever happens later: present ones take the given value, absent ones keep the default |
| Header.BuildSetsLists | src/tracebox/lua/lua_ipv6segmentroutingheader.cpp:251-261 | a successful construction sets each list option that is present from its parsed value and leaves each absent one at its default |
| Header.BuildStopsAtFirstFailure | src/tracebox/lua/lua_ipv6segmentroutingheader.cpp:251-262 | construction fails iff a present list option is rejected; it reports the first in the order segments, hmac, policies, keeps the earlier steps and skips the later ones |
| Header.BuildExample | src/tracebox/lua/lua_ipv6segmentroutingheader.cpp:208-214 | the documented `new{...}` usage (its `cflag=1` read as true) gives segmentleft 3, key 4, cflag set, pflag clear, the two segments, the zero-padded HMAC and no policy |

## Left out

- Header.SegmentRoutingHeader.SetSegmentLeft: the value is an unbounded integer. The narrowing to a byte (`l_data_type<byte>` in `set_segleft`) and the `int` of the constructor are not modelled.
- Header.SegmentRoutingHeader.SetHMACKeyID: the value is an unbounded integer. The byte narrowing of the `hmackey` setter is not modelled.
- Header.SegmentRoutingHeader.SetCFlag: the flag is a boolean. The `word` conversion of the `cflag`/`pflag` setters (`L_SETTER(word, ...)`) is not modelled.
- Hmac.CollectHmac: HMAC values are unbounded integers. The element width of `hmac_t` is not shown, and the source does no range check, so no wrap-around is modelled.
- Policies.CheckPolicy: the policy type is an unbounded integer. The narrowing to `int` and then `policy_type_t` is not modelled. A supplied code equal to `POLICY_UNSET` stays distinct from an unset slot here.
- Policies.ReadPolicyList: the parallel scratch buffers `policies` and `policy_types` are one array of (type, address) slots here. The apply loop uses the corrected count; see Findings.
- Lua numbers are integers here. Float-to-integer conversion by `lua_tointeger` is not modelled, and neither are the number/string coercions, which are abstract functions.
- `lua_getfield` can call an `__index` metamethod. That is not modelled: fields are read from the table's own string-keyed part.
- Stack bookkeeping (`lua_pop`, stack indices) is not modelled. The non-local exit of `luaL_argerror` becomes an error result. The message text is reduced to an error constructor: it carries the 1-based index where the message names one (policies and HMAC bytes), and, for an invalid segment, the offending text as far as its first NUL (the `std::string` built from `luaL_checklstring`'s C string ends there). The stack slot that `luaL_checklstring` and `luaL_argerror` report is not modelled.
- `ReadIPv6` lives in the Crafter library and is not shown. It is an abstract partial function from text to address.
- Hmac.CollectHmac: the local `hmac_t` is taken to start zero-filled. Its constructor is not shown; the zero fill rests on the "0-padded" documentation of `sethmac` and of the constructor.
- Crafter's `SetSegmentLeft`, `SetPolicy` and the header's defaults are not shown. The setters are modelled as writing their field or slot. The defaults are zero scalars, clear flags, no segments, an all-zero HMAC and unset policies.
- The `v_arg_*` option helpers (`lua_arg.h`) are not shown. The constructor's argument table is a record of optional fields (`Header.Config`). What those helpers accept as a boolean or an integer is not modelled.
- `new_ref` allocation and its failure path (`if (!srh) return 0`) are not modelled. Nor are the `get(l, 1)` lookups of the method wrappers, `register_members` and the `L_SETTER` macros.
- The wire encoding of the header is not part of this file and is not modelled.

## Findings

| source | as written | input that shows it | evidently intended | confidence | as-written member | corrected member |
|---|---|---|---|---|---|---|
| src/tracebox/lua/lua_ipv6segmentroutingheader.cpp:85-137 | the read loop ends with `idx == policy_count + 1` when it meets no nil, and the apply loop then runs `for i < idx`, reading `policies[policy_count]` and `policy_types[policy_count]`, one past both scratch buffers | `setpolicies` with four entries `{type=1, value='2001:db8::1'}` (`policy_count` is 4) | apply exactly the entries read, never more than `policy_count`, as the comment "idx is <= policy_count" says | not executed | Policies.FourPoliciesOverrun | Policies.ReadPolicyList |
