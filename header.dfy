/** The Segment Routing Header object the binding builds and updates: its
    scalar fields, its segment list, its fixed-size HMAC field and its
    fixed-capacity policy list, the setters the binding exposes, and the
    Lua constructor `IPv6SegmentRoutingHeader.new`. */
module Header {
  import opened LuaValues
  import opened SrhTypes
  import opened Segments
  import opened Hmac
  import opened Policies
  import opened ListWalk

  /** A snapshot of everything the binding can set on a header. */
  datatype HeaderState = HeaderState(
    segmentLeft: int,
    hmacKeyId: int,
    cFlag: bool,
    pFlag: bool,
    segments: seq<Addr>,
    hmac: seq<int>,
    policies: seq<Policy>)

  /** A freshly made header: no segment left, key 0, both flags clear, no
      segments, an all-zero HMAC and every policy slot unset. */
  function Default(): HeaderState
  {
    HeaderState(0, 0, false, false, [], Zeros(HmacSize), seq(PolicyCount, _ => UnsetPolicy))
  }

  /** `slots` with its first `|ps|` entries replaced by `ps`, in order. */
  function Overwrite(slots: seq<Policy>, ps: seq<Policy>): seq<Policy>
  {
    seq(|slots|, k requires 0 <= k < |slots| => if k < |ps| then ps[k] else slots[k])
  }

  /** `setsegments`: the segment list is replaced only when the whole
      argument is accepted. */
  function WithSegments(env: Env, s: HeaderState, list: Value): (r: (HeaderState, Status))
    ensures r.0 == s.(segments := r.0.segments)
    ensures r.1.Failure? ==> r.0 == s
  {
    match ParseSegments(env, list)
    case Ok(segs) => (s.(segments := segs), Success)
    case Err(e) => (s, Failure(e))
  }

  /** `sethmac`: the HMAC field is replaced as a whole, only when every entry
      read is accepted. */
  function WithHmac(env: Env, s: HeaderState, list: Value): (r: (HeaderState, Status))
    ensures r.0 == s.(hmac := r.0.hmac)
    ensures r.1.Failure? ==> r.0 == s
  {
    match ParseHmac(env, list)
    case Ok(field) => (s.(hmac := field), Success)
    case Err(e) => (s, Failure(e))
  }

  /** `setpolicies`: the policies read are stored into the first slots, one
      `SetPolicy` per policy, only when the whole argument is accepted. */
  function WithPolicies(env: Env, s: HeaderState, list: Value): (r: (HeaderState, Status))
    ensures r.0 == s.(policies := r.0.policies)
    ensures r.1.Failure? ==> r.0 == s
  {
    match ParsePolicies(env, list)
    case Ok(ps) => (s.(policies := Overwrite(s.policies, ps)), Success)
    case Err(e) => (s, Failure(e))
  }

  /** The constructor's argument table, as the option helpers read it: each
      field is either absent or the value found under its key. */
  datatype Config = Config(
    segmentLeft: Option<int>,   // "segmentleft"
    hmacKey: Option<int>,       // "hmackey"
    cFlag: Option<bool>,        // "cflag"
    pFlag: Option<bool>,        // "pflag"
    segments: Option<Value>,    // "segments"
    hmac: Option<Value>,        // "hmac"
    policies: Option<Value>)    // "policies"

  /** The default header with the scalar fields present in `cfg` set, in the
      constructor's order. */
  function Scalars(cfg: Config): HeaderState
  {
    var s0 := Default();
    var s1 := if cfg.segmentLeft.Some? then s0.(segmentLeft := cfg.segmentLeft.value) else s0;
    var s2 := if cfg.hmacKey.Some? then s1.(hmacKeyId := cfg.hmacKey.value) else s1;
    var s3 := if cfg.cFlag.Some? then s2.(cFlag := cfg.cFlag.value) else s2;
    if cfg.pFlag.Some? then s3.(pFlag := cfg.pFlag.value) else s3
  }

  /** The list options of the constructor applied to `s` in its order:
      segments, HMAC, policies, each skipped when absent; the first that
      fails ends the sequence, and what the earlier ones set stays set. */
  function ApplyLists(env: Env, s: HeaderState, cfg: Config): (r: (HeaderState, Status))
    ensures r.0 == s.(segments := r.0.segments, hmac := r.0.hmac, policies := r.0.policies)
  {
    var (s5, st5) := if cfg.segments.Some? then WithSegments(env, s, cfg.segments.value) else (s, Success);
    if st5.Failure? then (s5, st5)
    else
      var (s6, st6) := if cfg.hmac.Some? then WithHmac(env, s5, cfg.hmac.value) else (s5, Success);
      if st6.Failure? then (s6, st6)
      else if cfg.policies.Some? then WithPolicies(env, s6, cfg.policies.value) else (s6, Success)
  }

  /** `IPv6SegmentRoutingHeader.new{...}`: the scalars, then the lists. */
  function Build(env: Env, cfg: Config): (HeaderState, Status)
  {
    ApplyLists(env, Scalars(cfg), cfg)
  }

  /** The header object. The HMAC field and the policy list are fixed-size
      buffers updated in place; the segment list is a vector replaced whole. */
  class SegmentRoutingHeader {
    var segmentLeft: int
    var hmacKeyId: int
    var cFlag: bool
    var pFlag: bool
    var segments: seq<Addr>
    const hmac: array<int>
    const policies: array<Policy>

    ghost predicate Valid()
    {
      hmac.Length == HmacSize && policies.Length == PolicyCount
    }

    function State(): HeaderState
      reads this, hmac, policies
    {
      HeaderState(segmentLeft, hmacKeyId, cFlag, pFlag, segments, hmac[..], policies[..])
    }

    constructor ()
      ensures Valid() && State() == Default() && fresh(hmac) && fresh(policies)
    {
      segmentLeft, hmacKeyId, cFlag, pFlag, segments := 0, 0, false, false, [];
      hmac := new int[HmacSize](_ => 0);
      policies := new Policy[PolicyCount](_ => UnsetPolicy);
      new;
      assert hmac[..] == Zeros(HmacSize);
      assert policies[..] == seq(PolicyCount, _ => UnsetPolicy);
    }

    /** `SetSegmentLeft`, as `segmentleft` and the constructor call it. */
    method SetSegmentLeft(n: int)
      modifies this
      ensures State() == old(State()).(segmentLeft := n)
    {
      segmentLeft := n;
    }

    /** `SetHMACKeyID`, as `hmackey` and the constructor call it. */
    method SetHMACKeyID(key: int)
      modifies this
      ensures State() == old(State()).(hmacKeyId := key)
    {
      hmacKeyId := key;
    }

    /** `SetCFlag`, as `cflag` and the constructor call it. */
    method SetCFlag(flag: bool)
      modifies this
      ensures State() == old(State()).(cFlag := flag)
    {
      cFlag := flag;
    }

    /** `SetPFlag`, as `pflag` and the constructor call it. */
    method SetPFlag(flag: bool)
      modifies this
      ensures State() == old(State()).(pFlag := flag)
    {
      pFlag := flag;
    }

    /** `SetPolicy(i, value, type)`: one slot of the policy list. */
    method SetPolicy(i: nat, p: Policy)
      requires Valid() && i < PolicyCount
      modifies policies
      ensures State() == old(State()).(policies := old(State()).policies[i := p])
    {
      policies[i] := p;
    }

    /** `setsegments`: read the whole list, then replace the segments. */
    method SetSegments(env: Env, list: Value) returns (st: Status)
      modifies this
      ensures (State(), st) == WithSegments(env, old(State()), list)
    {
      var r := CollectSegments(env, list);
      if r.Err? {
        return Failure(r.error);
      }
      segments := r.value;
      st := Success;
    }

    /** `sethmac`: read the whole list into a zero-padded field, then copy
      that field over the header's. */
    method SetHmac(env: Env, list: Value) returns (st: Status)
      requires Valid()
      modifies hmac
      ensures (State(), st) == WithHmac(env, old(State()), list)
    {
      var r := CollectHmac(env, list);
      if r.Err? {
        return Failure(r.error);
      }
      ParseHmacField(env, list.items, list.fields);
      var field := r.value;
      forall k | 0 <= k < HmacSize {
        hmac[k] := field[k];
      }
      assert hmac[..] == field;
      assert ParseHmac(env, list) == Ok(field);
      assert policies[..] == old(policies[..]);
      assert State() == old(State()).(hmac := field);
      st := Success;
    }

    /** `setpolicies`: read the whole list into the scratch slots, then apply
      them to the header one `SetPolicy` at a time. */
    method SetPolicyList(env: Env, list: Value) returns (st: Status)
      requires Valid()
      modifies policies
      ensures (State(), st) == WithPolicies(env, old(State()), list)
    {
      var r := ReadPolicyList(env, list);
      if r.Err? {
        return Failure(r.error);
      }
      var ps := r.value;
      ghost var before := State();
      var i := 0;
      while i < |ps|
        invariant 0 <= i <= |ps| <= PolicyCount
        invariant State() == before.(policies := Overwrite(before.policies, ps[..i]))
      {
        OverwriteStep(before.policies, ps, i);
        SetPolicy(i, ps[i]);
        i := i + 1;
      }
      assert ps[..i] == ps;
      st := Success;
    }

    /** The list steps of the constructor: segments, HMAC, then policies,
      each only when its option is present; the first failure returns at
      once, leaving what the earlier steps set. */
    method ApplyOptions(env: Env, cfg: Config) returns (st: Status)
      requires Valid()
      modifies this, hmac, policies
      ensures (State(), st) == ApplyLists(env, old(State()), cfg)
    {
      st := Success;
      if cfg.segments.Some? {
        st := SetSegments(env, cfg.segments.value);
        if st.Failure? {
          return;
        }
      }
      if cfg.hmac.Some? {
        st := SetHmac(env, cfg.hmac.value);
        if st.Failure? {
          return;
        }
      }
      if cfg.policies.Some? {
        st := SetPolicyList(env, cfg.policies.value);
      }
    }
  }

  /** Applying one more policy extends the overwritten prefix by it. */
  lemma OverwriteStep(slots: seq<Policy>, ps: seq<Policy>, i: nat)
    requires i < |ps| <= |slots|
    ensures Overwrite(slots, ps[..i])[i := ps[i]] == Overwrite(slots, ps[..i + 1])
  {
  }

  /** The Lua constructor: a new header, its scalar options set in order, then
      the segments, the HMAC and the policies. A failing list step ends the
      call with the header as the earlier steps left it. */
  method New(env: Env, cfg: Config) returns (srh: SegmentRoutingHeader, st: Status)
    ensures fresh(srh) && fresh(srh.hmac) && fresh(srh.policies) && srh.Valid()
    ensures (srh.State(), st) == Build(env, cfg)
  {
    srh := new SegmentRoutingHeader();
    if cfg.segmentLeft.Some? {
      srh.SetSegmentLeft(cfg.segmentLeft.value);
    }
    if cfg.hmacKey.Some? {
      srh.SetHMACKeyID(cfg.hmacKey.value);
    }
    if cfg.cFlag.Some? {
      srh.SetCFlag(cfg.cFlag.value);
    }
    if cfg.pFlag.Some? {
      srh.SetPFlag(cfg.pFlag.value);
    }
    assert srh.State() == Scalars(cfg);
    st := srh.ApplyOptions(env, cfg);
  }

  /** `setsegments` is all or nothing: it succeeds exactly when every entry
      before the first nil names an address, and then the segment list is
      those addresses in order and nothing else changes; otherwise the
      header is untouched. */
  lemma SetSegmentsAtomic(env: Env, s: HeaderState, items: seq<Value>, fields: map<string, Value>)
    ensures var n := EntriesRead(items, |items|);
      var (t, st) := WithSegments(env, s, Table(items, fields));
      && (st.Success? <==> forall k :: 0 <= k < n ==> AddressOf(env, items[k]).Some?)
      && (st.Success? ==> t == s.(segments := t.segments) && |t.segments| == n
                          && forall k :: 0 <= k < n ==> Some(t.segments[k]) == AddressOf(env, items[k]))
      && (st.Failure? ==> t == s)
  {
    ParseSegmentsOk(env, items, fields);
  }

  /** Setting the same segment list twice leaves the header as setting it once. */
  lemma SetSegmentsIdempotent(env: Env, s: HeaderState, list: Value)
    ensures var (t, st) := WithSegments(env, s, list);
      WithSegments(env, t, list) == (t, st)
  {
  }

  /** `sethmac` is all or nothing: it succeeds exactly when every entry read
      is a number, and then the field holds those numbers followed by zeros
      up to HmacSize, and nothing else changes; otherwise the header is
      untouched. */
  lemma SetHmacAtomic(env: Env, s: HeaderState, items: seq<Value>, fields: map<string, Value>)
    ensures var n := EntriesRead(items, HmacSize);
      var (t, st) := WithHmac(env, s, Table(items, fields));
      && (st.Success? <==> forall k :: 0 <= k < n ==> ToInteger(env.lua, items[k]).Some?)
      && (st.Success? ==> t == s.(hmac := t.hmac) && |t.hmac| == HmacSize
                          && (forall k :: 0 <= k < n ==> Some(t.hmac[k]) == ToInteger(env.lua, items[k]))
                          && (forall k :: n <= k < HmacSize ==> t.hmac[k] == 0))
      && (st.Failure? ==> t == s)
  {
    ParseHmacField(env, items, fields);
  }

  /** `setpolicies` is all or nothing: it succeeds exactly when the entries
      it reads (up to PolicyCount, before the first nil) are well-formed;
      then slot k holds the k-th policy for each entry read, every later slot
      keeps its policy, and nothing else changes; otherwise the header is
      untouched. */
  lemma SetPoliciesAtomic(env: Env, s: HeaderState, items: seq<Value>, fields: map<string, Value>)
    requires |s.policies| == PolicyCount
    ensures var n := EntriesRead(items, PolicyCount);
      var (t, st) := WithPolicies(env, s, Table(items, fields));
      && (st.Success? <==> forall k :: 0 <= k < n ==> PolicyOf(env, items[k]).Some?)
      && (st.Success? ==> t == s.(policies := t.policies) && |t.policies| == PolicyCount
                          && (forall k :: 0 <= k < n ==> Some(t.policies[k]) == PolicyOf(env, items[k]))
                          && (forall k :: n <= k < PolicyCount ==> t.policies[k] == s.policies[k]))
      && (st.Failure? ==> t == s)
  {
    ParsePoliciesOk(env, items, fields);
  }

  /** With no option given, the constructor yields the default header. */
  lemma BuildDefaults(env: Env)
    ensures Build(env, Config(None, None, None, None, None, None, None)) == (Default(), Success)
  {
  }

  /** The scalar options are applied whatever happens afterwards: present
      ones take the given value, absent ones keep their default. */
  lemma BuildSetsScalars(env: Env, cfg: Config)
    ensures var t := Build(env, cfg).0;
      && t.segmentLeft == (if cfg.segmentLeft.Some? then cfg.segmentLeft.value else 0)
      && t.hmacKeyId == (if cfg.hmacKey.Some? then cfg.hmacKey.value else 0)
      && t.cFlag == (cfg.cFlag.Some? && cfg.cFlag.value)
      && t.pFlag == (cfg.pFlag.Some? && cfg.pFlag.value)
  {
  }

  /** A construction that succeeds sets every list option that is present
      from its parsed value and leaves every absent one at its default. */
  lemma BuildSetsLists(env: Env, cfg: Config)
    requires Build(env, cfg).1.Success?
    ensures var t := Build(env, cfg).0;
      && (cfg.segments.Some? ==> ParseSegments(env, cfg.segments.value) == Ok(t.segments))
      && (cfg.segments.None? ==> t.segments == [])
      && (cfg.hmac.Some? ==> ParseHmac(env, cfg.hmac.value) == Ok(t.hmac))
      && (cfg.hmac.None? ==> t.hmac == Zeros(HmacSize))
      && (cfg.policies.Some? ==> ParsePolicies(env, cfg.policies.value).Ok?
                                 && t.policies == Overwrite(Default().policies, ParsePolicies(env, cfg.policies.value).value))
      && (cfg.policies.None? ==> t.policies == Default().policies)
  {
    var s := Scalars(cfg);
    assert s.segments == [] && s.hmac == Zeros(HmacSize) && s.policies == Default().policies;
  }

  /** A construction fails exactly when one of the present list options is
      rejected, and reports the first one in the order segments, HMAC,
      policies; the steps before it stay applied and the later ones are
      not made. */
  lemma BuildStopsAtFirstFailure(env: Env, cfg: Config)
    ensures var (t, st) := Build(env, cfg);
      var segs := if cfg.segments.Some? then ParseSegments(env, cfg.segments.value) else Ok(Default().segments);
      var field := if cfg.hmac.Some? then ParseHmac(env, cfg.hmac.value) else Ok(Default().hmac);
      var ps := if cfg.policies.Some? then ParsePolicies(env, cfg.policies.value) else Ok([]);
      var base := Scalars(cfg);
      && (segs.Err? ==> t == base && st == Failure(segs.error))
      && (segs.Ok? && field.Err? ==> t == base.(segments := segs.value) && st == Failure(field.error))
      && (segs.Ok? && field.Ok? && ps.Err? ==>
            t == base.(segments := segs.value, hmac := field.value) && st == Failure(ps.error))
      && (st.Success? <==> segs.Ok? && field.Ok? && ps.Ok?)
  {
  }

  /** A two-entry segment list of NUL-free strings naming `a` and `b`. */
  lemma TwoSegments(env: Env, s1: string, s2: string, a: Addr, b: Addr)
    requires '\0' !in s1 && '\0' !in s2
    requires env.readIPv6(s1) == Some(a) && env.readIPv6(s2) == Some(b)
    ensures ParseSegments(env, Table([Str(s1), Str(s2)], map[])) == Ok([a, b])
  {
    var segs := [Str(s1), Str(s2)];
    var read := SegmentReader(env);
    SegmentWithoutNul(env, s1, 1, a);
    SegmentWithoutNul(env, s2, 2, b);
    assert segs[0..] == segs;
    PrependNothing(Walk(read, segs, 0, 2));
    WalkAccepts(read, segs, 0, 2, [], a);
    assert [] + [a] == [a];
    WalkAccepts(read, segs, 1, 1, [a], b);
    assert [a] + [b] == [a, b];
    WalkDone(read, segs, 2, 0, [a, b]);
  }

  /** The segment list of the constructor's documented usage. */
  lemma ExampleSegments(env: Env, a: Addr, b: Addr)
    requires env.readIPv6("2001:db8::1") == Some(a) && env.readIPv6("2001:db8::2") == Some(b)
    ensures ParseSegments(env, Table([Str("2001:db8::1"), Str("2001:db8::2")], map[])) == Ok([a, b])
  {
    TwoSegments(env, "2001:db8::1", "2001:db8::2", a, b);
  }

  /** The HMAC of the constructor's documented usage, zero-padded. */
  lemma ExampleHmac(env: Env)
    ensures ParseHmac(env, Table([Number(0xe), Number(0xa), Number(0x12)], map[]))
            == Ok([0xe, 0xa, 0x12] + Zeros(HmacSize - 3))
  {
    var bytes := [Number(0xe), Number(0xa), Number(0x12)];
    var read := ByteReader(env);
    assert bytes[1..][1..][1..] == [];
    assert Walk(read, bytes[1..][1..], 2, HmacSize - 2) == Ok([0x12]) by {
      assert [0x12] + [] == [0x12];
    }
    assert Walk(read, bytes[1..], 1, HmacSize - 1) == Ok([0xa, 0x12]) by {
      assert read(bytes[1..][0], 2) == Ok(0xa);
      assert [0xa] + [0x12] == [0xa, 0x12];
    }
    assert read(bytes[0], 1) == Ok(0xe);
    assert [0xe] + [0xa, 0x12] == [0xe, 0xa, 0x12];
  }

  /** The constructor's documented usage, `new{segmentleft=3, cflag=1,
      segments={'2001:db8::1', '2001:db8::2'}, hmackey=4, hmac={0xe, 0xa, 0x12}}`,
      with `cflag=1` read as true by the boolean option helper: every option
      given is set, the protected flag keeps its default, the HMAC is
      zero-padded and no policy slot is set. */
  lemma BuildExample(env: Env, a: Addr, b: Addr)
    requires env.readIPv6("2001:db8::1") == Some(a) && env.readIPv6("2001:db8::2") == Some(b)
    ensures var segs := Table([Str("2001:db8::1"), Str("2001:db8::2")], map[]);
      var hmac := Table([Number(0xe), Number(0xa), Number(0x12)], map[]);
      Build(env, Config(Some(3), Some(4), Some(true), None, Some(segs), Some(hmac), None))
      == (HeaderState(3, 4, true, false, [a, b], [0xe, 0xa, 0x12] + Zeros(HmacSize - 3), Default().policies), Success)
  {
    ExampleSegments(env, a, b);
    ExampleHmac(env);
    var s := Scalars(Config(Some(3), Some(4), Some(true), None, None, None, None));
    assert s == HeaderState(3, 4, true, false, [], Zeros(HmacSize), Default().policies);
  }
}
