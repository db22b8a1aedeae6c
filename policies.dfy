/** Building the policy list (`l_IPv6SegmentRoutingHeader_SetPolicyList_`):
    at most PolicyCount entries, each a table with a numeric `type` and a
    `value` that parses as IPv6; entries past the capacity are ignored. */
module Policies {
  import opened LuaValues
  import opened SrhTypes
  import opened ListWalk

  /** The `type` field of a policy entry: present, then a number. */
  function ReadPolicyType(env: Env, fields: map<string, Value>, idx: nat): Result<int>
  {
    var kind := GetField(fields, "type");
    if kind == Nil then Err(MissingPolicyType(idx))
    else
      match ToInteger(env.lua, kind)
      case None => Err(PolicyTypeNotNumber(idx))
      case Some(code) => Ok(code)
  }

  /** The `value` field of a policy entry: present, a string, then an IPv6
      address; `ReadIPv6` is given the C string `lua_tolstring` returns, so
      only the text up to the first NUL. */
  function ReadPolicyValue(env: Env, fields: map<string, Value>, idx: nat): Result<Addr>
  {
    var value := GetField(fields, "value");
    if value == Nil then Err(MissingPolicyValue(idx))
    else
      match ToText(env.lua, value)
      case None => Err(PolicyValueNotString(idx))
      case Some(text) =>
        match env.readIPv6(CText(text))
        case None => Err(PolicyValueNotAddress(idx))
        case Some(a) => Ok(a)
  }

  /** One policy entry at 1-based index `idx`, checked in the order the
      binding checks it: a table, then its `type`, then its `value`. */
  function ReadPolicy(env: Env, v: Value, idx: nat): Result<Policy>
  {
    if !v.Table? then Err(PolicyNotTable(idx))
    else
      match ReadPolicyType(env, v.fields, idx)
      case Err(e) => Err(e)
      case Ok(code) =>
        match ReadPolicyValue(env, v.fields, idx)
        case Err(e) => Err(e)
        case Ok(a) => Ok(Policy(Kind(code), a))
  }

  function PolicyReader(env: Env): (Value, nat) -> Result<Policy>
  {
    (v: Value, idx: nat) => ReadPolicy(env, v, idx)
  }

  /** The policies the argument `list` describes, in the order supplied. */
  function ParsePolicies(env: Env, list: Value): Result<seq<Policy>>
  {
    match list
    case Table(items, _) => Walk(PolicyReader(env), items, 0, PolicyCount)
    case _ => Err(ExpectedTable)
  }

  /** The policy a well-formed entry stands for: a table whose `type` is a
      number and whose `value` is text that, up to its first NUL, names an
      IPv6 address. */
  function PolicyOf(env: Env, v: Value): Option<Policy>
  {
    if !v.Table? then None
    else
      var kind := ToInteger(env.lua, GetField(v.fields, "type"));
      var text := ToText(env.lua, GetField(v.fields, "value"));
      var addr := if text.Some? then env.readIPv6(CText(text.value)) else None;
      if kind.Some? && addr.Some? then Some(Policy(Kind(kind.value), addr.value)) else None
  }

  /** The binding's checks accept exactly the well-formed entries, and read
      them as the policy they stand for. */
  lemma ReadPolicyAgrees(env: Env, v: Value, idx: nat)
    ensures ReadPolicy(env, v, idx).Ok? <==> PolicyOf(env, v).Some?
    ensures ReadPolicy(env, v, idx).Ok? ==> Some(ReadPolicy(env, v, idx).value) == PolicyOf(env, v)
  {
    if v.Table? {
      assert ToInteger(env.lua, Nil).None? && ToText(env.lua, Nil).None?;
    }
  }

  /** An error the policy checks raise about the entry at 1-based index `idx`. */
  predicate PolicyErrorAt(e: Error, idx: nat)
  {
    && (e.PolicyNotTable? || e.MissingPolicyType? || e.PolicyTypeNotNumber?
        || e.MissingPolicyValue? || e.PolicyValueNotString? || e.PolicyValueNotAddress?)
    && e.index == idx
  }

  /** The checks the builder's loop makes on one entry, in its order: it
      accepts exactly the well-formed entries, reading each as the policy it
      stands for, and the first check that fails names the entry's 1-based
      index `idx`. */
  method CheckPolicy(env: Env, entry: Value, idx: nat) returns (r: Result<Policy>)
    ensures r.Ok? <==> PolicyOf(env, entry).Some?
    ensures r.Ok? ==> Some(r.value) == PolicyOf(env, entry)
    ensures r.Err? ==> PolicyErrorAt(r.error, idx)
    // the exact error, which the read loop's invariant over the walk needs
    ensures r == ReadPolicy(env, entry, idx)
  {
    ReadPolicyAgrees(env, entry, idx);
    if !entry.Table? {
      return Err(PolicyNotTable(idx));
    }
    var kind := GetField(entry.fields, "type");
    if kind == Nil {
      return Err(MissingPolicyType(idx));
    }
    var code := ToInteger(env.lua, kind);
    if code.None? {
      return Err(PolicyTypeNotNumber(idx));
    }
    var value := GetField(entry.fields, "value");
    if value == Nil {
      return Err(MissingPolicyValue(idx));
    }
    var text := ToText(env.lua, value);
    if text.None? {
      return Err(PolicyValueNotString(idx));
    }
    var addr := env.readIPv6(CText(text.value));
    if addr.None? {
      return Err(PolicyValueNotAddress(idx));
    }
    r := Ok(Policy(Kind(code.value), addr.value));
  }

  /** The read loop of the builder. Each accepted entry goes into the local
      scratch buffer at its position (the source's parallel `policies` and
      `policy_types` buffers, held here as one array of type and address
      pairs); the first malformed one aborts. The count of entries read is
      `idx` when a nil ends the list, and PolicyCount when the capacity is
      reached (see ExitIndexAsWritten for what the source computes in that
      case). */
  method ReadPolicyList(env: Env, list: Value) returns (r: Result<seq<Policy>>)
    ensures r == ParsePolicies(env, list)
  {
    if !list.Table? {
      return Err(ExpectedTable);
    }
    var items := list.items;
    ghost var read := PolicyReader(env);
    var slots := new Policy[PolicyCount](_ => UnsetPolicy);
    // where the walk stands, and how much it may still read
    ghost var pos: nat := 0;
    ghost var left: nat := PolicyCount;
    assert items[0..] == items;
    PrependNothing(ParsePolicies(env, list));
    var idx := 1;
    while idx <= PolicyCount
      invariant 1 <= idx <= PolicyCount + 1 && pos == idx - 1 && left == PolicyCount - pos && pos <= |items|
      invariant ParsePolicies(env, list) == Prepend(slots[..pos], Walk(read, items[pos..], pos, left))
    {
      var entry := RawGet(items, idx);
      if entry == Nil {
        // keep track of how many entries were read
        idx := idx - 1;
        break;
      }
      assert entry == items[pos];
      var policy := CheckPolicy(env, entry, idx);
      assert read(entry, idx) == policy;
      if policy.Err? {
        WalkRejects(read, items, pos, left, slots[..pos]);
        return Err(policy.error);
      }
      WalkAccepts(read, items, pos, left, slots[..pos], policy.value);
      ghost var filled := slots[..pos];
      slots[idx - 1] := policy.value;
      assert slots[..pos + 1] == filled + [policy.value];
      pos, left := pos + 1, left - 1;
      idx := idx + 1;
    }
    WalkDone(read, items, pos, left, slots[..pos]);
    var count := if idx <= PolicyCount then idx else PolicyCount;
    assert count == pos;
    r := Ok(slots[..count]);
  }

  /** The list is accepted exactly when every entry before the first nil,
      up to PolicyCount of them, is well-formed; the policies are then those
      entries' in the order supplied, never more than PolicyCount. */
  lemma ParsePoliciesOk(env: Env, items: seq<Value>, fields: map<string, Value>)
    ensures var n := EntriesRead(items, PolicyCount);
      var r := ParsePolicies(env, Table(items, fields));
      && (r.Ok? <==> forall k :: 0 <= k < n ==> PolicyOf(env, items[k]).Some?)
      && (r.Ok? ==> |r.value| == n <= PolicyCount
                    && forall k :: 0 <= k < n ==> Some(r.value[k]) == PolicyOf(env, items[k]))
  {
    var read := PolicyReader(env);
    WalkSucceeds(read, items, 0, PolicyCount);
    forall k | 0 <= k < EntriesRead(items, PolicyCount)
      ensures ReadAt(read, items, 0, k).Ok? <==> PolicyOf(env, items[k]).Some?
      ensures ReadAt(read, items, 0, k).Ok? ==> Some(ReadAt(read, items, 0, k).value) == PolicyOf(env, items[k])
    {
      ReadPolicyAgrees(env, items[k], k + 1);
    }
  }

  /** A rejected list reports its first malformed entry, with that entry's
      1-based index and the first check it fails. */
  lemma ParsePoliciesFailsAtFirstMalformed(env: Env, items: seq<Value>, fields: map<string, Value>, j: nat)
    requires j < EntriesRead(items, PolicyCount)
    requires PolicyOf(env, items[j]).None?
    requires forall k :: 0 <= k < j ==> PolicyOf(env, items[k]).Some?
    ensures ReadPolicy(env, items[j], j + 1).Err?
    ensures ParsePolicies(env, Table(items, fields)) == Err(ReadPolicy(env, items[j], j + 1).error)
  {
    var read := PolicyReader(env);
    forall k | 0 <= k < j
      ensures ReadAt(read, items, 0, k).Ok?
    {
      ReadPolicyAgrees(env, items[k], k + 1);
    }
    ReadPolicyAgrees(env, items[j], j + 1);
    WalkStopsAtFirstRejected(read, items, 0, PolicyCount, j, ReadPolicy(env, items[j], j + 1).error);
  }

  /** Entries past the PolicyCount-th are silently ignored: whatever they
      hold, the outcome is that of the first PolicyCount entries. */
  lemma ParsePoliciesIgnoresBeyondCapacity(env: Env, items: seq<Value>, extra: seq<Value>, fields: map<string, Value>)
    requires |items| == PolicyCount
    ensures ParsePolicies(env, Table(items + extra, fields)) == ParsePolicies(env, Table(items, fields))
  {
    assert (items + extra)[..PolicyCount] == items;
    assert items[..PolicyCount] == items;
    WalkIgnoresBeyondLimit(PolicyReader(env), items + extra, 0, PolicyCount);
  }

  /** The value of `idx` when the source's read loop, started at `idx`, ends
      without an error: one less than the index of the first nil, or
      PolicyCount + 1 when the loop runs to its bound. The source applies
      that many slots. */
  function ExitIndexAsWritten(items: seq<Value>, idx: nat): nat
    requires 1 <= idx <= PolicyCount + 1
    decreases PolicyCount + 1 - idx
  {
    if idx > PolicyCount then idx
    else if RawGet(items, idx) == Nil then idx - 1
    else ExitIndexAsWritten(items, idx + 1)
  }

  /** The general form of ExitIndexAsWrittenValue, for the read loop
      started at any `idx`: it stops one before the first nil at or after
      `idx`, or runs to PolicyCount + 1. */
  lemma {:induction false} ExitIndexFrom(items: seq<Value>, idx: nat)
    requires 1 <= idx <= PolicyCount + 1 && idx - 1 <= |items|
    ensures var rest := PolicyCount - (idx - 1);
      var p := EntriesRead(items[idx - 1..], rest);
      ExitIndexAsWritten(items, idx) == if p < rest then idx - 1 + p else PolicyCount + 1
    decreases PolicyCount + 1 - idx
  {
    if idx <= PolicyCount && RawGet(items, idx) != Nil {
      assert items[idx - 1..][1..] == items[idx..];
      ExitIndexFrom(items, idx + 1);
    }
  }

  /** As written, the loop ends with `idx` equal to the number of entries
      read only when a nil comes before the capacity; after PolicyCount
      entries it ends at PolicyCount + 1. */
  lemma ExitIndexAsWrittenValue(items: seq<Value>)
    ensures var p := EntriesRead(items, PolicyCount);
      ExitIndexAsWritten(items, 1) == if p < PolicyCount then p else PolicyCount + 1
  {
    assert items[0..] == items;
    ExitIndexFrom(items, 1);
  }

  /** The comment "idx is <= policy_count" holds exactly when a nil ends the
      list before the capacity, and then the source applies as many slots as
      the corrected count. */
  lemma ExitIndexAgreesBelowCapacity(env: Env, items: seq<Value>, fields: map<string, Value>)
    requires ParsePolicies(env, Table(items, fields)).Ok?
    ensures ExitIndexAsWritten(items, 1) <= PolicyCount <==> EntriesRead(items, PolicyCount) < PolicyCount
    ensures EntriesRead(items, PolicyCount) < PolicyCount ==>
              ExitIndexAsWritten(items, 1) == |ParsePolicies(env, Table(items, fields)).value|
  {
    ExitIndexAsWrittenValue(items);
    ParsePoliciesOk(env, items, fields);
  }

  /** A full list of well-formed policies passes every check, and the
      source's apply loop then runs for i = 0 .. PolicyCount: its last turn
      reads `policies[PolicyCount]`, one past the scratch arrays. */
  lemma ApplyLoopOverrunsScratch(env: Env, items: seq<Value>, fields: map<string, Value>)
    requires EntriesRead(items, PolicyCount) == PolicyCount
    requires forall k :: 0 <= k < PolicyCount ==> PolicyOf(env, items[k]).Some?
    ensures ParsePolicies(env, Table(items, fields)).Ok?
    ensures ExitIndexAsWritten(items, 1) == PolicyCount + 1
  {
    ParsePoliciesOk(env, items, fields);
    ExitIndexAsWrittenValue(items);
  }

  /** An entry `{type=t, value=s}` with a NUL-free `s` naming an address is
      well formed. */
  lemma PolicyWithoutNul(env: Env, t: int, s: string)
    requires '\0' !in s && env.readIPv6(s).Some?
    ensures PolicyOf(env, Table([], map["type" := Number(t), "value" := Str(s)])).Some?
  {
    var entry := Table([], map["type" := Number(t), "value" := Str(s)]);
    CTextWithoutNul(s);
    assert GetField(entry.fields, "type") == Number(t);
    assert GetField(entry.fields, "value") == Str(s);
  }

  /** Four copies of one well-formed entry fill every slot and overrun. */
  lemma FourCopiesOverrun(env: Env, entry: Value)
    requires PolicyOf(env, entry).Some?
    ensures var items := [entry, entry, entry, entry];
      && ParsePolicies(env, Table(items, map[])).Ok?
      && ExitIndexAsWritten(items, 1) == PolicyCount + 1
  {
    var items := [entry, entry, entry, entry];
    assert EntriesRead(items, PolicyCount) == PolicyCount;
    ApplyLoopOverrunsScratch(env, items, map[]);
  }

  /** A concrete instance: four `{type=1, value='2001:db8::1'}` entries. */
  lemma FourPoliciesOverrun(env: Env)
    requires env.readIPv6("2001:db8::1").Some?
    ensures var entry := Table([], map["type" := Number(1), "value" := Str("2001:db8::1")]);
      var items := [entry, entry, entry, entry];
      && ParsePolicies(env, Table(items, map[])).Ok?
      && ExitIndexAsWritten(items, 1) == PolicyCount + 1
  {
    PolicyWithoutNul(env, 1, "2001:db8::1");
    FourCopiesOverrun(env, Table([], map["type" := Number(1), "value" := Str("2001:db8::1")]));
  }
}
