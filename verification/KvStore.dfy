/** The log-structured store as atomic actions on segments, extents, records and the key map
    (src/uDepot/udepot-lsa.cc, with the extent allocator of
    salsa/src/frontends/usalsa++/allocator.c).

    A put reserves an extent at the end of an open segment, writes its record there, and
    only then enters the map, in one locked section whose outcome depends on what the key
    maps to at that moment. Actions of different puts and of GC interleave freely. The
    locked section itself, with its lookups that drop the lock, is module KvThreads. */
module KvStore {
  import opened Arith
  import opened Extents
  import opened Octets

  const HEADER: nat := 14
  const SUFFIX: nat := 2

  /** Segment size and tail reserve in grains, grain size in bytes. */
  datatype Geometry = Geometry(segSize: nat, reserved: nat, grainSize: nat)

  predicate Ok(g: Geometry) { g.reserved <= g.segSize && 0 < g.segSize && 0 < g.grainSize }

  function Cap(g: Geometry): nat requires Ok(g) { g.segSize - g.reserved }

  /** Grains taken by a record: header, key, value and suffix, rounded up. */
  function Grains(g: Geometry, key: nat, val: nat): (r: nat)
    requires Ok(g)
    ensures 0 < r
    ensures (r - 1) * g.grainSize < HEADER + key + val + SUFFIX <= r * g.grainSize
  {
    var n := HEADER + key + val + SUFFIX;
    var r := (n + g.grainSize - 1) / g.grainSize;
    DivUp(n, g.grainSize);
    r
  }

  lemma OneGrain(g: Geometry, key: Bytes, val: Bytes)
    requires Ok(g) && HEADER + |key| + |val| + SUFFIX <= g.grainSize
    ensures Grains(g, |key|, |val|) == 1
  {
    var r := Grains(g, |key|, |val|);
    if r > 1 {
      MulMonotone(1, r - 1, g.grainSize);
    }
  }

  lemma DivUp(n: nat, d: nat)
    requires 0 < d && 0 < n
    ensures var r := (n + d - 1) / d; 0 < r && (r - 1) * d < n <= r * d
  {
    var r := (n + d - 1) / d;
    assert r * d <= n + d - 1 < (r + 1) * d;
    assert (r + 1) * d == r * d + d && (r - 1) * d == r * d - d;
  }

  /** The header has 16 bits for the size of the key and 32 for that of the value, and a header in
      which both are zero counts as none. */
  const KEY_LIMIT: nat := 0x1_0000
  const VAL_LIMIT: nat := 0x1_0000_0000

  predicate Recordable(key: Bytes, val: Bytes) {
    |key| < KEY_LIMIT && |val| < VAL_LIMIT && (key != [] || val != [])
  }

  datatype Op = Normal | Create | Replace

  datatype Rec = Rec(key: Bytes, val: Bytes, ts: nat)

  /** The life of an extent. `Failed` extents were reserved but never written; `Refused`
      records were written and then rejected by the map update; `Stale` ones lost a race. */
  datatype Phase = Reserved | InFlight | Live | Superseded | Stale | Refused | Failed

  predicate Written(h: Phase) { !h.Reserved? && !h.Failed? }
  predicate Dead(h: Phase) { h.Superseded? || h.Stale? || h.Refused? || h.Failed? }

  datatype Counters = Counters(keyNr: int, used: int, total: int)

  /** What is on the device and in the counters. */
  datatype Core = Core(
    allocNr: nat, segTs: map<nat, nat>, next: map<nat, nat>,
    size: map<Addr, nat>, disk: map<Addr, Rec>, cnt: Counters, inval: multiset<(Addr, nat)>)

  datatype State = State(core: Core, live: map<Bytes, Addr>, phase: map<Addr, Phase>)

  function Init(): State {
    State(Core(0, map[], map[], map[], map[], Counters(0, 0, 0), multiset{}), map[], map[])
  }

  // ---------------------------------------------------------------- actions

  datatype Action =
    | Open(seg: nat)
    | Reserve(seg: nat, n: nat)
    | Drain(seg: nat)
    | Write(p: Addr, key: Bytes, val: Bytes)
    | IoFail(p: Addr)
    | Map(p: Addr, op: Op)
    | Refuse(p: Addr)
    | Relocate(key: Bytes, seg: nat)

  function Frontier(c: Core, seg: nat): Addr
    requires seg in c.next
  {
    Addr(seg, c.next[seg])
  }

  predicate CanReserve(g: Geometry, c: Core, seg: nat, n: nat) requires Ok(g) {
    seg in c.next && 0 < n && c.next[seg] + n <= Cap(g)
  }

  function ReserveCore(g: Geometry, c: Core, seg: nat, n: nat): Core
    requires Ok(g) && CanReserve(g, c, seg, n)
  {
    c.(size := c.size[Frontier(c, seg) := n], next := c.next[seg := c.next[seg] + n])
  }

  /** Grains of an extent are invalidated, with the size the caller derives. */
  function Invalidate(c: Core, p: Addr, n: nat): Core { c.(inval := c.inval + multiset{(p, n)}) }

  function Added(g: Geometry, c: Core, r: Rec): Core requires Ok(g) {
    c.(cnt := Counters(c.cnt.keyNr + 1, c.cnt.used + |r.key| + |r.val|,
                       c.cnt.total + g.grainSize * Grains(g, |r.key|, |r.val|)))
  }

  function Removed(g: Geometry, c: Core, r: Rec): Core requires Ok(g) {
    c.(cnt := Counters(c.cnt.keyNr - 1, c.cnt.used - |r.key| - |r.val|,
                       c.cnt.total - g.grainSize * Grains(g, |r.key|, |r.val|)))
  }

  /** set_mapping over an existing entry: the old extent is invalidated with the size its
      header gives, and the counters exchange the old record for the new one. */
  function ReplaceCore(g: Geometry, c: Core, was: Addr, p: Addr): Core
    requires Ok(g) && was in c.disk && p in c.disk
  {
    var o := c.disk[was];
    Added(g, Removed(g, Invalidate(c, was, Grains(g, |o.key|, |o.val|)), o), c.disk[p])
  }

  /** The code's test that installing `to` over `was` respects the order recovery will see. */
  predicate InOrder(g: Geometry, c: Core, was: Addr, to: Addr)
    requires Ok(g) && was in c.disk && to.seg in c.segTs
  {
    if was.seg != to.seg then c.disk[was].ts < c.segTs[to.seg] else was.off < to.off
  }

  predicate InFlightAt(s: State, p: Addr) {
    p in s.phase && s.phase[p].InFlight? && p in s.core.disk && p in s.core.size
  }

  predicate Enabled(g: Geometry, s: State, a: Action) requires Ok(g) {
    match a
    case Open(seg) => seg !in s.core.segTs
    case Reserve(seg, n) => CanReserve(g, s.core, seg, n)
    case Drain(seg) => seg in s.core.next
    case Write(p, key, val) =>
      && p in s.phase && s.phase[p].Reserved? && p in s.core.size
      && p.seg in s.core.segTs
      && s.core.size[p] == Grains(g, |key|, |val|) && Recordable(key, val)
    case IoFail(p) => p in s.phase && s.phase[p].Reserved? && p in s.core.size
    case Map(p, op) =>
      && InFlightAt(s, p) && p.seg in s.core.segTs
      && (s.core.disk[p].key in s.live ==> s.live[s.core.disk[p].key] in s.core.disk)
    case Refuse(p) => InFlightAt(s, p)
    case Relocate(key, seg) =>
      && key in s.live && s.live[key] in s.core.disk
      && var r := s.core.disk[s.live[key]];
      && CanReserve(g, s.core, seg, Grains(g, |r.key|, |r.val|))
  }

  /** The outcome of the locked section of a put. */
  datatype Outcome = Installed | Retry | Rejected

  function MapOutcome(g: Geometry, s: State, p: Addr, op: Op): Outcome
    requires Ok(g) && Enabled(g, s, Map(p, op))
  {
    var k := s.core.disk[p].key;
    if k in s.live then
      if op.Create? then Rejected
      else if InOrder(g, s.core, s.live[k], p) then Installed
      else Retry
    else if op.Replace? then Rejected
    else Installed
  }

  /** A record whose put did not install it: its own grains are invalidated with the size the
      put computed from its key and value. */
  function Drop(g: Geometry, s: State, p: Addr, h: Phase): State
    requires Ok(g) && p in s.core.disk
  {
    var r := s.core.disk[p];
    State(Invalidate(s.core, p, Grains(g, |r.key|, |r.val|)), s.live, s.phase[p := h])
  }

  function Install(g: Geometry, s: State, p: Addr): State
    requires Ok(g) && p in s.core.disk
    requires s.core.disk[p].key in s.live ==> s.live[s.core.disk[p].key] in s.core.disk
  {
    var k := s.core.disk[p].key;
    if k in s.live then
      var was := s.live[k];
      State(ReplaceCore(g, s.core, was, p), s.live[k := p], s.phase[was := Superseded][p := Live])
    else
      State(Added(g, s.core, s.core.disk[p]), s.live[k := p], s.phase[p := Live])
  }

  /** local_gc_callback on a mapped record: a copy with the old header goes to a fresh extent,
      the map moves to the copy, and the old extent is invalidated. */
  function RelocateCore(g: Geometry, c: Core, was: Addr, seg: nat): Core
    requires Ok(g) && was in c.disk
    requires CanReserve(g, c, seg, Grains(g, |c.disk[was].key|, |c.disk[was].val|))
  {
    var r := c.disk[was];
    var n := Grains(g, |r.key|, |r.val|);
    var to := Frontier(c, seg);
    Invalidate(ReserveCore(g, c, seg, n).(disk := c.disk[to := r]), was, n)
  }

  function Apply(g: Geometry, s: State, a: Action): State
    requires Ok(g) && Enabled(g, s, a)
  {
    var c := s.core;
    match a
    case Open(seg) =>
      s.(core := c.(allocNr := c.allocNr + 1, segTs := c.segTs[seg := c.allocNr + 1], next := c.next[seg := 0]))
    case Reserve(seg, n) =>
      s.(core := ReserveCore(g, c, seg, n), phase := s.phase[Frontier(c, seg) := Reserved])
    case Drain(seg) =>
      s.(core := c.(next := c.next[seg := Cap(g)]))
    case Write(p, key, val) =>
      s.(core := c.(disk := c.disk[p := Rec(key, val, c.segTs[p.seg])]), phase := s.phase[p := InFlight])
    case IoFail(p) =>
      s.(core := Invalidate(c, p, c.size[p]), phase := s.phase[p := Failed])
    case Map(p, op) =>
      (match MapOutcome(g, s, p, op)
       case Installed => Install(g, s, p)
       case Retry => Drop(g, s, p, Stale)
       case Rejected => Drop(g, s, p, Refused))
    case Refuse(p) => Drop(g, s, p, Refused)
    case Relocate(key, seg) =>
      var was := s.live[key];
      var to := Frontier(c, seg);
      State(RelocateCore(g, c, was, seg), s.live[key := to], s.phase[was := Superseded][to := Live])
  }
}
