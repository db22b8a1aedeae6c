/** The walk all three list builders perform: read keys 1, 2, ... of a table,
    stop at the first nil or once `limit` entries are read, and abort on the
    first entry the reader rejects. */
module ListWalk {
  import opened LuaValues
  import opened SrhTypes

  /** Reads `items` (whose first element sits at 1-based index `base + 1`)
      with `read`, which is given each entry and its 1-based index. */
  function Walk<T>(read: (Value, nat) -> Result<T>, items: seq<Value>, base: nat, limit: nat): (r: Result<seq<T>>)
    ensures r.Ok? ==> |r.value| <= limit
  {
    if limit == 0 || items == [] || items[0] == Nil then Ok([])
    else
      match read(items[0], base + 1)
      case Err(e) => Err(e)
      case Ok(x) => Prepend([x], Walk(read, items[1..], base + 1, limit - 1))
  }

  /** The reader's verdict on the entry at 0-based position `k`. */
  function ReadAt<T>(read: (Value, nat) -> Result<T>, items: seq<Value>, base: nat, k: nat): Result<T>
    requires k < |items|
  {
    read(items[k], base + k + 1)
  }

  /** Nothing read yet. */
  lemma PrependNothing<T>(r: Result<seq<T>>)
    ensures Prepend([], r) == r
  {
    if r.Ok? {
      assert [] + r.value == r.value;
    }
  }

  /** One accepted entry, as the imperative loops take it. */
  lemma WalkAccepts<T>(read: (Value, nat) -> Result<T>, items: seq<Value>, i: nat, limit: nat, acc: seq<T>, x: T)
    requires i < |items| && items[i] != Nil && limit > 0
    requires read(items[i], i + 1) == Ok(x)
    ensures Prepend(acc, Walk(read, items[i..], i, limit)) ==
            Prepend(acc + [x], Walk(read, items[i + 1..], i + 1, limit - 1))
  {
    assert items[i..][0] == items[i];
    assert items[i..][1..] == items[i + 1..];
    match Walk(read, items[i + 1..], i + 1, limit - 1)
    case Err(e) =>
    case Ok(rest) => assert acc + ([x] + rest) == (acc + [x]) + rest;
  }

  /** One rejected entry, as the imperative loops take it. */
  lemma WalkRejects<T>(read: (Value, nat) -> Result<T>, items: seq<Value>, i: nat, limit: nat, acc: seq<T>)
    requires i < |items| && items[i] != Nil && limit > 0
    requires read(items[i], i + 1).Err?
    ensures Prepend(acc, Walk(read, items[i..], i, limit)) == Err(read(items[i], i + 1).error)
  {
    assert items[i..][0] == items[i];
  }

  /** The walk has reached a nil, the end of the list, or its limit. */
  lemma WalkDone<T>(read: (Value, nat) -> Result<T>, items: seq<Value>, i: nat, limit: nat, acc: seq<T>)
    requires i <= |items|
    requires i == |items| || items[i] == Nil || limit == 0
    ensures Prepend(acc, Walk(read, items[i..], i, limit)) == Ok(acc)
  {
    assert acc + [] == acc;
  }

  /** The walk succeeds exactly when every entry it reaches is accepted, and
      then yields those entries' readings in order. */
  lemma {:induction false} WalkSucceeds<T>(read: (Value, nat) -> Result<T>, items: seq<Value>, base: nat, limit: nat)
    ensures var n := EntriesRead(items, limit);
      var r := Walk(read, items, base, limit);
      && (r.Ok? <==> forall k :: 0 <= k < n ==> ReadAt(read, items, base, k).Ok?)
      && (r.Ok? ==> |r.value| == n && forall k :: 0 <= k < n ==> r.value[k] == ReadAt(read, items, base, k).value)
  {
    if limit == 0 || items == [] || items[0] == Nil {
    } else {
      var tail, next := items[1..], base + 1;
      WalkSucceeds(read, tail, next, limit - 1);
      var n := EntriesRead(items, limit);
      assert n == 1 + EntriesRead(tail, limit - 1);
      var rest := Walk(read, tail, next, limit - 1);
      if ReadAt(read, items, base, 0).Err? {
        assert Walk(read, items, base, limit).Err?;
      } else {
        assert Walk(read, items, base, limit) == Prepend([ReadAt(read, items, base, 0).value], rest);
        forall k | 0 <= k < n - 1
          ensures ReadAt(read, tail, next, k) == ReadAt(read, items, base, k + 1)
        {
        }
        if forall k :: 0 <= k < n ==> ReadAt(read, items, base, k).Ok? {
          assert rest.Ok?;
        }
        if rest.Ok? {
          forall k | 1 <= k < n
            ensures ReadAt(read, items, base, k) == ReadAt(read, tail, next, k - 1)
          {
          }
        }
      }
    }
  }

  /** A walk that fails reports the first entry the reader rejects. */
  lemma {:induction false} WalkStopsAtFirstRejected<T>(read: (Value, nat) -> Result<T>, items: seq<Value>, base: nat, limit: nat, j: nat, e: Error)
    requires j < EntriesRead(items, limit)
    requires ReadAt(read, items, base, j) == Err(e)
    requires forall k :: 0 <= k < j ==> ReadAt(read, items, base, k).Ok?
    ensures Walk(read, items, base, limit) == Err(e)
  {
    if j > 0 {
      var tail, next := items[1..], base + 1;
      assert ReadAt(read, items, base, 0).Ok?;
      forall k | 0 <= k < j - 1
        ensures ReadAt(read, tail, next, k).Ok?
      {
        assert ReadAt(read, items, base, k + 1).Ok?;
      }
      WalkStopsAtFirstRejected(read, tail, next, limit - 1, j - 1, e);
    }
  }

  /** Entries past the limit are never looked at. */
  lemma {:induction false} WalkIgnoresBeyondLimit<T>(read: (Value, nat) -> Result<T>, items: seq<Value>, base: nat, limit: nat)
    requires limit <= |items|
    ensures Walk(read, items, base, limit) == Walk(read, items[..limit], base, limit)
  {
    if limit == 0 || items[0] == Nil {
    } else {
      assert items[..limit][0] == items[0];
      assert items[..limit][1..] == items[1..][..limit - 1];
      WalkIgnoresBeyondLimit(read, items[1..], base + 1, limit - 1);
    }
  }
}
