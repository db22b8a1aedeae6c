/** Building the segment list (`l_IPv6SegmentRoutingHeader_SetSegments_`):
    every entry up to the first nil must be text that parses as IPv6. */
module Segments {
  import opened LuaValues
  import opened SrhTypes
  import opened ListWalk

  /** One segment entry: `luaL_checklstring`, kept as a `std::string` built
      from the C string (so only up to its first NUL), then `ReadIPv6`. The
      entry's index `idx` is not part of either error. */
  function ReadSegment(env: Env, v: Value, idx: nat): Result<Addr>
  {
    match ToText(env.lua, v)
    case None => Err(SegmentNotString)
    case Some(s) =>
      var ip := CText(s);
      match env.readIPv6(ip)
      case None => Err(InvalidSegment(ip))
      case Some(a) => Ok(a)
  }

  function SegmentReader(env: Env): (Value, nat) -> Result<Addr>
  {
    (v: Value, idx: nat) => ReadSegment(env, v, idx)
  }

  /** The segment list the argument `list` describes: no length bound, the
      walk ends only at the first nil. */
  function ParseSegments(env: Env, list: Value): Result<seq<Addr>>
  {
    match list
    case Table(items, _) => Walk(SegmentReader(env), items, 0, |items|)
    case _ => Err(ExpectedTable)
  }

  /** The address an entry denotes, if any: its text up to the first NUL, parsed. */
  function AddressOf(env: Env, v: Value): Option<Addr>
  {
    match ToText(env.lua, v)
    case None => None
    case Some(text) => env.readIPv6(CText(text))
  }

  /** The read loop of the builder. It pushes each parsed address into a local
      vector and reports the first entry that is not a string or not an address. */
  method CollectSegments(env: Env, list: Value) returns (r: Result<seq<Addr>>)
    ensures r == ParseSegments(env, list)
  {
    if !list.Table? {
      return Err(ExpectedTable);
    }
    var items := list.items;
    ghost var read := SegmentReader(env);
    ghost var all := Walk(read, items, 0, |items|);
    var segments: seq<Addr> := [];
    // where the walk stands, and how much it may still read
    ghost var pos: nat := 0;
    ghost var left: nat := |items|;
    var i := 1;
    assert items[0..] == items;
    assert ParseSegments(env, list) == all;
    PrependNothing(all);
    while true
      invariant 1 <= i <= |items| + 1 && pos == i - 1 && left == |items| - pos
      invariant all == Prepend(segments, Walk(read, items[pos..], pos, left))
      decreases |items| + 1 - i
    {
      var entry := RawGet(items, i);
      if entry == Nil {
        break;
      }
      assert entry == items[pos];
      assert read(entry, i) == ReadSegment(env, entry, i);
      var text := ToText(env.lua, entry);
      if text.None? {
        WalkRejects(read, items, pos, left, segments);
        return Err(SegmentNotString);
      }
      var ip := CText(text.value);
      var s := env.readIPv6(ip);
      if s.None? {
        WalkRejects(read, items, pos, left, segments);
        return Err(InvalidSegment(ip));
      }
      WalkAccepts(read, items, pos, left, segments, s.value);
      segments := segments + [s.value];
      pos, left := pos + 1, left - 1;
      i := i + 1;
    }
    WalkDone(read, items, pos, left, segments);
    r := Ok(segments);
  }

  /** What is wrong with a rejected segment: it is not text, or its text, up
      to the first NUL, is not an address. */
  function SegmentError(env: Env, v: Value): Error
  {
    match ToText(env.lua, v)
    case None => SegmentNotString
    case Some(text) => InvalidSegment(CText(text))
  }

  /** The segment checks accept exactly the text naming an address. */
  lemma ReadSegmentAgrees(env: Env, v: Value, idx: nat)
    ensures ReadSegment(env, v, idx).Ok? <==> AddressOf(env, v).Some?
    ensures ReadSegment(env, v, idx).Ok? ==> Some(ReadSegment(env, v, idx).value) == AddressOf(env, v)
    ensures ReadSegment(env, v, idx).Err? ==> ReadSegment(env, v, idx).error == SegmentError(env, v)
  {
  }

  /** The list is accepted exactly when every entry before the first nil is an
      address, and then holds those addresses in the order supplied. */
  lemma ParseSegmentsOk(env: Env, items: seq<Value>, fields: map<string, Value>)
    ensures var n := EntriesRead(items, |items|);
      var r := ParseSegments(env, Table(items, fields));
      && (r.Ok? <==> forall k :: 0 <= k < n ==> AddressOf(env, items[k]).Some?)
      && (r.Ok? ==> |r.value| == n && forall k :: 0 <= k < n ==> Some(r.value[k]) == AddressOf(env, items[k]))
  {
    var read := SegmentReader(env);
    WalkSucceeds(read, items, 0, |items|);
    forall k | 0 <= k < EntriesRead(items, |items|)
      ensures ReadAt(read, items, 0, k).Ok? <==> AddressOf(env, items[k]).Some?
      ensures ReadAt(read, items, 0, k).Ok? ==> Some(ReadAt(read, items, 0, k).value) == AddressOf(env, items[k])
    {
      ReadSegmentAgrees(env, items[k], k + 1);
    }
  }

  /** A segment string is read only up to its first NUL: whatever follows
      it never changes the entry's outcome. */
  lemma SegmentEndsAtNul(env: Env, s: string, idx: nat)
    ensures ReadSegment(env, Str(s), idx) == ReadSegment(env, Str(CText(s)), idx)
  {
    CTextOfCText(s);
  }

  /** A NUL-free segment string reads as the address it names. */
  lemma SegmentWithoutNul(env: Env, s: string, idx: nat, a: Addr)
    requires '\0' !in s && env.readIPv6(s) == Some(a)
    ensures ReadSegment(env, Str(s), idx) == Ok(a)
  {
    CTextWithoutNul(s);
  }

  /** A rejected list is reported by its first bad entry: as not a string,
      or by the text that is not an address. */
  lemma ParseSegmentsFailsAtFirstBad(env: Env, items: seq<Value>, fields: map<string, Value>, j: nat)
    requires j < EntriesRead(items, |items|)
    requires AddressOf(env, items[j]).None?
    requires forall k :: 0 <= k < j ==> AddressOf(env, items[k]).Some?
    ensures ParseSegments(env, Table(items, fields)) == Err(SegmentError(env, items[j]))
  {
    var read := SegmentReader(env);
    forall k | 0 <= k < j
      ensures ReadAt(read, items, 0, k).Ok?
    {
      ReadSegmentAgrees(env, items[k], k + 1);
    }
    ReadSegmentAgrees(env, items[j], j + 1);
    WalkStopsAtFirstRejected(read, items, 0, |items|, j, SegmentError(env, items[j]));
  }
}
