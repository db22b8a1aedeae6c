/** Building the HMAC field (`l_IPv6SegmentRoutingHeader_SetHMAC_`): up to
    HmacSize numbers, read until the first nil, zero-padded to HmacSize. */
module Hmac {
  import opened LuaValues
  import opened SrhTypes
  import opened ListWalk

  /** One HMAC entry at 1-based index `idx`: `lua_isnumber`, then `lua_tointeger`.
      No range check is made on the value. */
  function ReadByte(env: Env, v: Value, idx: nat): Result<int>
  {
    match ToInteger(env.lua, v)
    case None => Err(ByteNotNumber(idx))
    case Some(b) => Ok(b)
  }

  function ByteReader(env: Env): (Value, nat) -> Result<int>
  {
    (v: Value, idx: nat) => ReadByte(env, v, idx)
  }

  function Zeros(n: nat): seq<int>
  {
    seq(n, _ => 0)
  }

  /** The HMAC field the argument `list` describes: the numbers read, followed
      by zeros up to HmacSize. */
  function ParseHmac(env: Env, list: Value): Result<seq<int>>
  {
    match list
    case Table(items, _) =>
      (match Walk(ByteReader(env), items, 0, HmacSize)
       case Ok(bytes) => Ok(bytes + Zeros(HmacSize - |bytes|))
       case Err(e) => Err(e))
    case _ => Err(ExpectedTable)
  }

  /** The builder's loop over a local zero-filled `hmac_t`: it stops at the
      first nil or after HmacSize entries and aborts on a non-number. */
  method CollectHmac(env: Env, list: Value) returns (r: Result<seq<int>>)
    ensures r == ParseHmac(env, list)
  {
    if !list.Table? {
      return Err(ExpectedTable);
    }
    var items := list.items;
    ghost var read := ByteReader(env);
    ghost var all := Walk(read, items, 0, HmacSize);
    var hmac := new int[HmacSize](_ => 0);
    // what has been read so far, where the walk stands, and how much it may still read
    ghost var bytes: seq<int> := [];
    ghost var pos: nat := 0;
    ghost var left: nat := HmacSize;
    var i := 1;
    assert items[0..] == items;
    assert hmac[..] == Zeros(HmacSize);
    PrependNothing(all);
    while i <= HmacSize
      invariant 1 <= i <= HmacSize + 1 && i - 1 <= |items| && |bytes| == i - 1 && left == HmacSize - (i - 1) && pos == i - 1
      invariant hmac[..] == bytes + Zeros(left)
      invariant all == Prepend(bytes, Walk(read, items[pos..], pos, left))
    {
      var entry := RawGet(items, i);
      if entry == Nil {
        break;
      }
      assert entry == items[pos];
      assert read(entry, i) == ReadByte(env, entry, i);
      var b := ToInteger(env.lua, entry);
      if b.None? {
        WalkRejects(read, items, pos, left, bytes);
        return Err(ByteNotNumber(i));
      }
      WalkAccepts(read, items, pos, left, bytes, b.value);
      PadStep(hmac[..], bytes, b.value);
      hmac[i - 1] := b.value;
      bytes := bytes + [b.value];
      pos, left := pos + 1, left - 1;
      i := i + 1;
    }
    WalkDone(read, items, pos, left, bytes);
    assert ParseHmac(env, list) == Ok(bytes + Zeros(left));
    r := Ok(hmac[..]);
  }

  /** Writing the next value over the first padding zero. */
  lemma PadStep(field: seq<int>, bytes: seq<int>, b: int)
    requires |bytes| < HmacSize
    requires field == bytes + Zeros(HmacSize - |bytes|)
    ensures field[|bytes| := b] == (bytes + [b]) + Zeros(HmacSize - |bytes| - 1)
  {
  }

  /** An accepted list is padded to exactly HmacSize values: the supplied
      numbers in order, then zeros. It is accepted exactly when every entry
      read is a number. */
  lemma ParseHmacField(env: Env, items: seq<Value>, fields: map<string, Value>)
    ensures var n := EntriesRead(items, HmacSize);
      var r := ParseHmac(env, Table(items, fields));
      && (r.Ok? <==> forall k :: 0 <= k < n ==> ToInteger(env.lua, items[k]).Some?)
      && (r.Ok? ==> |r.value| == HmacSize
                    && (forall k :: 0 <= k < n ==> Some(r.value[k]) == ToInteger(env.lua, items[k]))
                    && (forall k :: n <= k < HmacSize ==> r.value[k] == 0))
  {
    var read := ByteReader(env);
    WalkSucceeds(read, items, 0, HmacSize);
    forall k | 0 <= k < EntriesRead(items, HmacSize)
      ensures ReadAt(read, items, 0, k).Ok? <==> ToInteger(env.lua, items[k]).Some?
      ensures ReadAt(read, items, 0, k).Ok? ==> Some(ReadAt(read, items, 0, k).value) == ToInteger(env.lua, items[k])
    {
    }
  }

  /** A rejected list names its first entry that is not a number. */
  lemma ParseHmacFailsAtFirstBad(env: Env, items: seq<Value>, fields: map<string, Value>, j: nat)
    requires j < EntriesRead(items, HmacSize)
    requires ToInteger(env.lua, items[j]).None?
    requires forall k :: 0 <= k < j ==> ToInteger(env.lua, items[k]).Some?
    ensures ParseHmac(env, Table(items, fields)) == Err(ByteNotNumber(j + 1))
  {
    var read := ByteReader(env);
    forall k | 0 <= k < j
      ensures ReadAt(read, items, 0, k).Ok?
    {
      assert ToInteger(env.lua, items[k]).Some?;
    }
    assert ReadAt(read, items, 0, j) == Err(ByteNotNumber(j + 1));
    WalkStopsAtFirstRejected(read, items, 0, HmacSize, j, ByteNotNumber(j + 1));
  }

  /** Entries past the HmacSize-th are never read, whatever they hold. */
  lemma ParseHmacIgnoresBeyondSize(env: Env, items: seq<Value>, extra: seq<Value>, fields: map<string, Value>)
    requires |items| == HmacSize
    ensures ParseHmac(env, Table(items + extra, fields)) == ParseHmac(env, Table(items, fields))
  {
    assert (items + extra)[..HmacSize] == items;
    assert items[..HmacSize] == items;
    WalkIgnoresBeyondLimit(ByteReader(env), items + extra, 0, HmacSize);
  }
}
