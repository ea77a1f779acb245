/** Crash recovery: the segment scan of crash_recovery (src/uDepot/lsa/udepot-directory-map.cc)
    and the replay of try_restore_entry (src/uDepot/udepot-lsa.cc), against the map the store
    held when it crashed. */
module KvRecovery {
  import opened Extents
  import opened Octets
  import opened KvStore
  import opened KvRuns

  // ---------------------------------------------------------------- the order of the log

  /** Segments by timestamp, extents of a segment by position. */
  predicate Before(c: Core, p: Addr, q: Addr)
    requires p.seg in c.segTs && q.seg in c.segTs
  {
    c.segTs[p.seg] < c.segTs[q.seg] || (p.seg == q.seg && p.off < q.off)
  }

  /** The order is a strict total order, and the code's test decides it as long as headers
      carry their segment's timestamp. */
  lemma OrderIsTotal(g: Geometry, c: Core, p: Addr, q: Addr, r: Addr)
    requires Ok(g) && SegsOk(g, c) && p.seg in c.segTs && q.seg in c.segTs && r.seg in c.segTs
    ensures !Before(c, p, p)
    ensures Before(c, p, q) && Before(c, q, r) ==> Before(c, p, r)
    ensures p == q || Before(c, p, q) || Before(c, q, p)
    ensures !(Before(c, p, q) && Before(c, q, p))
    ensures p in c.disk && c.disk[p].ts == c.segTs[p.seg] ==> (InOrder(g, c, p, q) <==> Before(c, p, q))
  {
  }

  /** A record's header carries its segment's timestamp, and a record that was overtaken
      precedes the one its key maps to. */
  ghost predicate Ordered(s: State, p: Addr) {
    && p in s.core.disk && p in s.phase && p.seg in s.core.segTs
    && s.core.disk[p].ts == s.core.segTs[p.seg]
    && (s.phase[p].Superseded? || s.phase[p].Stale? ==>
          && s.core.disk[p].key in s.live
          && s.live[s.core.disk[p].key].seg in s.core.segTs
          && Before(s.core, p, s.live[s.core.disk[p].key]))
  }

  ghost predicate OrderOk(s: State) {
    forall p {:trigger Ordered(s, p)} :: p in s.core.disk ==> Ordered(s, p)
  }

  lemma InstallKeepsOrder(g: Geometry, s: State, p: Addr, op: Op)
    requires Ok(g) && Inv(g, s) && OrderOk(s) && Enabled(g, s, Map(p, op)) && MapOutcome(g, s, p, op).Installed?
    ensures OrderOk(Apply(g, s, Map(p, op)))
  {
    var t := Install(g, s, p);
    var k := s.core.disk[p].key;
    assert Ordered(s, p);
    if k in s.live {
      assert Mapped(s, k);
      assert Ordered(s, s.live[k]);
    }
    forall q | q in t.core.disk ensures Ordered(t, q) {
      assert Ordered(s, q);
      if k in s.live {
        OrderIsTotal(g, s.core, q, s.live[k], p);
        OrderIsTotal(g, s.core, s.live[k], p, p);
      }
    }
  }

  lemma DropKeepsOrder(g: Geometry, s: State, p: Addr, op: Op)
    requires Ok(g) && Inv(g, s) && OrderOk(s) && Enabled(g, s, Map(p, op)) && !MapOutcome(g, s, p, op).Installed?
    ensures OrderOk(Apply(g, s, Map(p, op)))
  {
    var t := Apply(g, s, Map(p, op));
    var k := s.core.disk[p].key;
    assert Ordered(s, p);
    if k in s.live {
      assert Mapped(s, k);
      assert Ordered(s, s.live[k]);
      OrderIsTotal(g, s.core, s.live[k], p, p);
    }
    forall q | q in t.core.disk ensures Ordered(t, q) {
      assert Ordered(s, q);
    }
  }

  lemma OthersKeepOrder(g: Geometry, s: State, a: Action)
    requires Ok(g) && Inv(g, s) && OrderOk(s) && Enabled(g, s, a) && !a.Map? && !a.Relocate?
    ensures OrderOk(Apply(g, s, a))
  {
    var t := Apply(g, s, a);
    if a.Reserve? {
      FrontierIsFresh(g, s.core, a.seg);
    }
    forall q | q in t.core.disk ensures Ordered(t, q) {
      if q in s.core.disk {
        assert Ordered(s, q);
        assert Logged(g, s, q);
        if s.core.disk[q].key in s.live { assert Mapped(s, s.core.disk[q].key); }
      } else {
        assert Logged(g, s, q);
      }
    }
  }

  lemma StepKeepsOrder(g: Geometry, s: State, a: Action)
    requires Ok(g) && Inv(g, s) && OrderOk(s) && Enabled(g, s, a) && !a.Relocate?
    ensures OrderOk(Apply(g, s, a))
  {
    if a.Map? {
      if MapOutcome(g, s, a.p, a.op).Installed? {
        InstallKeepsOrder(g, s, a.p, a.op);
      } else {
        DropKeepsOrder(g, s, a.p, a.op);
      }
    } else {
      OthersKeepOrder(g, s, a);
    }
  }

  // ---------------------------------------------------------------- runs

  /** A run of the store: enabled actions from the empty store. */
  ghost predicate IsRun(g: Geometry, acts: seq<Action>, states: seq<State>) requires Ok(g) {
    && |states| == |acts| + 1 && states[0] == Init()
    && forall i {:trigger acts[i]} :: 0 <= i < |acts| ==>
         Enabled(g, states[i], acts[i]) && states[i + 1] == Apply(g, states[i], acts[i])
  }

  lemma RunExtends(g: Geometry, acts: seq<Action>, states: seq<State>, a: Action, s: State)
    requires Ok(g) && IsRun(g, acts, states) && Enabled(g, states[|acts|], a) && s == Apply(g, states[|acts|], a)
    ensures IsRun(g, acts + [a], states + [s])
  {
    forall i | 0 <= i < |acts + [a]|
      ensures Enabled(g, (states + [s])[i], (acts + [a])[i])
           && (states + [s])[i + 1] == Apply(g, (states + [s])[i], (acts + [a])[i])
    {
      if i < |acts| { assert acts[i] == (acts + [a])[i]; }
    }
  }

  ghost predicate WithoutGc(acts: seq<Action>) { forall i :: 0 <= i < |acts| ==> !acts[i].Relocate? }

  lemma {:induction false} RunKeepsInv(g: Geometry, acts: seq<Action>, states: seq<State>, n: nat)
    requires Ok(g) && IsRun(g, acts, states) && n < |states|
    ensures Inv(g, states[n])
    ensures WithoutGc(acts) ==> OrderOk(states[n])
  {
    if n > 0 {
      RunKeepsInv(g, acts, states, n - 1);
      var a := acts[n - 1];
      StepKeepsInv(g, states[n - 1], a);
      if WithoutGc(acts) {
        StepKeepsOrder(g, states[n - 1], a);
      }
    }
  }

  // ---------------------------------------------------------------- replay

  /** try_restore_entry: a record enters the map unless the mapped one is later. */
  function Restore(g: Geometry, c: Core, m: map<Bytes, Addr>, p: Addr): map<Bytes, Addr>
    requires Ok(g) && p in c.disk && p.seg in c.segTs
    requires c.disk[p].key in m ==> m[c.disk[p].key] in c.disk
  {
    var k := c.disk[p].key;
    if k in m && !InOrder(g, c, m[k], p) then m else m[k := p]
  }

  ghost predicate Stamped(c: Core, order: seq<Addr>) {
    forall i :: 0 <= i < |order| ==>
      order[i] in c.disk && order[i].seg in c.segTs && c.disk[order[i]].ts == c.segTs[order[i].seg]
  }

  function Replay(g: Geometry, c: Core, order: seq<Addr>): (m: map<Bytes, Addr>)
    requires Ok(g) && forall p :: p in order ==> p in c.disk && p.seg in c.segTs
    ensures forall k :: k in m ==> m[k] in order && c.disk[m[k]].key == k
  {
    if order == [] then map[]
    else Restore(g, c, Replay(g, c, order[..|order| - 1]), order[|order| - 1])
  }

  /** `p` is the latest record of key `k` among those in `order`. */
  ghost predicate Latest(c: Core, order: seq<Addr>, k: Bytes, p: Addr)
    requires Stamped(c, order)
  {
    && p in order && c.disk[p].key == k
    && forall q :: q in order && c.disk[q].key == k ==> q == p || Before(c, q, p)
  }

  ghost predicate Has(c: Core, order: seq<Addr>, k: Bytes) {
    exists p :: p in order && p in c.disk && c.disk[p].key == k
  }

  lemma HasExtends(c: Core, rest: seq<Addr>, p: Addr, k: Bytes)
    requires p in c.disk
    ensures Has(c, rest + [p], k) <==> Has(c, rest, k) || c.disk[p].key == k
  {
    assert (rest + [p])[|rest|] == p;
  }

  lemma RestoreKeepsLatest(g: Geometry, c: Core, rest: seq<Addr>, p: Addr, k: Bytes, m: Addr)
    requires Ok(g) && SegsOk(g, c) && Stamped(c, rest) && Stamped(c, rest + [p])
    requires p in c.disk && p.seg in c.segTs && c.disk[p].key == k && Latest(c, rest, k, m)
    ensures Latest(c, rest + [p], k, if InOrder(g, c, m, p) then p else m)
  {
    assert (rest + [p])[|rest|] == p;
    OrderIsTotal(g, c, m, p, p);
    forall q | q in rest + [p] && c.disk[q].key == k && q != p
      ensures q == m || Before(c, q, m)
      ensures InOrder(g, c, m, p) ==> Before(c, q, p)
    {
      assert q in rest;
      OrderIsTotal(g, c, q, m, p);
    }
  }

  lemma OtherKeepsLatest(c: Core, rest: seq<Addr>, p: Addr, k: Bytes, m: Addr)
    requires Stamped(c, rest) && Stamped(c, rest + [p]) && p in c.disk
    requires c.disk[p].key != k && Latest(c, rest, k, m)
    ensures Latest(c, rest + [p], k, m)
  {
  }

  lemma FirstIsLatest(c: Core, rest: seq<Addr>, p: Addr, k: Bytes)
    requires Stamped(c, rest) && Stamped(c, rest + [p]) && p in c.disk
    requires c.disk[p].key == k && !Has(c, rest, k)
    ensures Latest(c, rest + [p], k, p)
  {
    assert (rest + [p])[|rest|] == p;
    forall q | q in rest ensures c.disk[q].key != k {
    }
  }

  lemma RestoreStep(g: Geometry, c: Core, rest: seq<Addr>, p: Addr, m: map<Bytes, Addr>, k: Bytes)
    requires Ok(g) && SegsOk(g, c) && Stamped(c, rest) && Stamped(c, rest + [p]) && p in c.disk && p.seg in c.segTs
    requires c.disk[p].key in m ==> m[c.disk[p].key] in c.disk
    requires (k in m <==> Has(c, rest, k)) && (k in m ==> Latest(c, rest, k, m[k]))
    ensures var r := Restore(g, c, m, p);
            (k in r <==> Has(c, rest + [p], k)) && (k in r ==> Latest(c, rest + [p], k, r[k]))
  {
    HasExtends(c, rest, p, k);
    if c.disk[p].key != k {
      if k in m { OtherKeepsLatest(c, rest, p, k, m[k]); }
    } else if k in m {
      RestoreKeepsLatest(g, c, rest, p, k, m[k]);
    } else {
      FirstIsLatest(c, rest, p, k);
    }
  }

  /** Replay keeps, for each key, its latest record, whatever the order of the log. */
  lemma {:induction false} ReplayKeepsLatest(g: Geometry, c: Core, order: seq<Addr>, k: Bytes)
    requires Ok(g) && SegsOk(g, c) && Stamped(c, order)
    ensures var m := Replay(g, c, order);
            (k in m <==> Has(c, order, k)) && (k in m ==> Latest(c, order, k, m[k]))
  {
    if order != [] {
      var rest, p := order[..|order| - 1], order[|order| - 1];
      assert order == rest + [p];
      ReplayKeepsLatest(g, c, rest, k);
      RestoreStep(g, c, rest, p, Replay(g, c, rest), k);
    }
  }

  // ---------------------------------------------------------------- the segment scan

  /** The scan's bounds check: key and value end within the net segment. */
  predicate Within(g: Geometry, r: Rec, off: nat) requires Ok(g) {
    off * g.grainSize + |r.key| + |r.val| <= Cap(g) * g.grainSize
  }

  /** A record can be read at `p`: it passes the bounds and checksum tests. */
  predicate Readable(g: Geometry, c: Core, p: Addr) requires Ok(g) {
    p.off < Cap(g) && p in c.disk && Within(g, c.disk[p], p.off)
  }

  /** The records recovery reads from a segment, from `off` on: it stops at the first position
      that holds no valid record. */
  function Scan(g: Geometry, c: Core, seg: nat, off: nat): (r: seq<Addr>)
    requires Ok(g)
    ensures forall i :: 0 <= i < |r| ==> r[i].seg == seg && off <= r[i].off && r[i] in c.disk
    decreases g.segSize - off
  {
    var p := Addr(seg, off);
    if !Readable(g, c, p) then []
    else [p] + Scan(g, c, seg, off + Grains(g, |c.disk[p].key|, |c.disk[p].val|))
  }

  /** The scan never reads a record that does not end within the part of the segment for records. */
  lemma {:induction false} ScanStaysInside(g: Geometry, c: Core, seg: nat, off: nat, p: Addr)
    requires Ok(g) && p in Scan(g, c, seg, off)
    ensures p in c.disk && p.off < g.segSize - g.reserved
    ensures p.off * g.grainSize + |c.disk[p].key| + |c.disk[p].val| <= (g.segSize - g.reserved) * g.grainSize
    decreases g.segSize - off
  {
    var x := Addr(seg, off);
    if p != x {
      ScanStaysInside(g, c, seg, off + Grains(g, |c.disk[x].key|, |c.disk[x].val|), p);
    }
  }

  lemma ExtentFits(n: nat, off: nat, end: nat, grain: nat, bytes: nat)
    requires off + n <= end && HEADER + bytes + SUFFIX <= n * grain
    ensures off * grain + HEADER + bytes <= end * grain
  {
    assert (off + n) * grain == off * grain + n * grain;
    assert (end - off - n) * grain == end * grain - (off + n) * grain;
  }

  /** A record that was written can be read. */
  lemma WrittenIsReadable(g: Geometry, s: State, p: Addr)
    requires Ok(g) && Inv(g, s) && p in s.core.disk
    ensures Readable(g, s.core, p)
  {
    assert Logged(g, s, p) && Placed(g, s.core, p);
    ExtentFits(s.core.size[p], p.off, Cap(g), g.grainSize, |s.core.disk[p].key| + |s.core.disk[p].val|);
  }

  /** Every extent of the segment up to `p` has been written. */
  ghost predicate Reached(c: Core, p: Addr) {
    forall q :: q in c.size && q.seg == p.seg && q.off <= p.off ==> q in c.disk
  }

  lemma {:induction false} ScanFrom(g: Geometry, s: State, off: nat, p: Addr)
    requires Ok(g) && Inv(g, s) && p in s.core.size && Addr(p.seg, off) in s.core.size && off <= p.off
    ensures p in Scan(g, s.core, p.seg, off) <==>
            forall q :: q in s.core.size && q.seg == p.seg && off <= q.off <= p.off ==> q in s.core.disk
    decreases p.off - off
  {
    var x := Addr(p.seg, off);
    assert Logged(g, s, x) && Placed(g, s.core, x);
    if x in s.core.disk { WrittenIsReadable(g, s, x); }
    if x in s.core.disk && x != p {
      assert Apart(s.core, x, p);
      var y := After(s.core, x);
      ScanFrom(g, s, y.off, p);
      forall q | q in s.core.size && q.seg == p.seg && off <= q.off < y.off ensures q == x {
        assert Apart(s.core, x, q);
      }
    }
  }

  /** The scan reads exactly the records that no unwritten extent precedes. */
  lemma ScanReads(g: Geometry, s: State, p: Addr)
    requires Ok(g) && Inv(g, s) && p in s.core.disk
    ensures p in Scan(g, s.core, p.seg, 0) <==> Reached(s.core, p)
  {
    assert Placed(g, s.core, p);
    ScanFrom(g, s, 0, p);
  }

  // ---------------------------------------------------------------- recovery

  /** `order` lists the records the scan reads, in any order of segments or records. */
  ghost predicate Enumerates(c: Core, order: seq<Addr>) {
    forall p :: p in order <==> p in c.disk && Reached(c, p)
  }

  predicate Undecided(h: Phase) { h.InFlight? || h.Refused? }

  /** Every mapped record is read, and no record of a put that is still in flight, or that was
      refused, is read and later than the record its key maps to. */
  ghost predicate Recoverable(s: State) {
    && (forall k :: k in s.live ==> Reached(s.core, s.live[k]))
    && (forall p :: p in s.core.disk && p in s.phase && Undecided(s.phase[p]) && Reached(s.core, p) ==>
          Overtaken(s, p))
  }

  ghost predicate Overtaken(s: State, p: Addr) {
    && p in s.core.disk && s.core.disk[p].key in s.live
    && p.seg in s.core.segTs && s.live[s.core.disk[p].key].seg in s.core.segTs
    && Before(s.core, p, s.live[s.core.disk[p].key])
  }

  lemma WellPlaced(g: Geometry, s: State)
    requires Ok(g) && Inv(g, s)
    ensures forall p :: p in s.core.disk ==> p in s.phase && p.seg in s.core.segTs
    ensures forall k :: k in s.live ==>
              s.live[k] in s.core.disk && s.core.disk[s.live[k]].key == k && s.phase[s.live[k]].Live?
    ensures forall p :: p in s.core.disk && s.phase[p].Live? ==>
              s.core.disk[p].key in s.live && s.live[s.core.disk[p].key] == p
    ensures forall p :: p in s.core.disk ==> Written(s.phase[p])
  {
    forall p | p in s.core.disk
      ensures p in s.phase && p.seg in s.core.segTs && Written(s.phase[p])
      ensures s.phase[p].Live? ==> s.core.disk[p].key in s.live && s.live[s.core.disk[p].key] == p
    {
      assert Logged(g, s, p);
    }
    forall k | k in s.live
      ensures s.live[k] in s.core.disk && s.core.disk[s.live[k]].key == k && s.phase[s.live[k]].Live?
    {
      assert Mapped(s, k);
    }
  }

  lemma OrderStamps(g: Geometry, s: State, order: seq<Addr>)
    requires Ok(g) && Inv(g, s) && OrderOk(s) && Enumerates(s.core, order)
    ensures Stamped(s.core, order)
  {
    forall i | 0 <= i < |order|
      ensures order[i] in s.core.disk && order[i].seg in s.core.segTs
      ensures s.core.disk[order[i]].ts == s.core.segTs[order[i].seg]
    {
      assert order[i] in order;
      assert Ordered(s, order[i]);
    }
  }

  /** Per key: if the record the key maps to is read, recovery finds it, or a later record of a
      put still in flight or refused; a key recovered but not mapped comes from such a put,
      or from a record overtaken by a mapped one that the scan did not read. */
  lemma RecoveredKey(g: Geometry, s: State, order: seq<Addr>, k: Bytes)
    requires Ok(g) && Inv(g, s) && OrderOk(s) && Enumerates(s.core, order) && Stamped(s.core, order)
    requires k in Replay(g, s.core, order)
    ensures var m := Replay(g, s.core, order);
            && m[k] in s.core.disk && s.core.disk[m[k]].key == k && m[k] in s.phase && m[k].seg in s.core.segTs
            && (k in s.live && s.live[k] in s.core.disk && s.live[k].seg in s.core.segTs
                && Reached(s.core, s.live[k]) ==>
                  m[k] == s.live[k] || (Undecided(s.phase[m[k]]) && Before(s.core, s.live[k], m[k])))
            && (k !in s.live ==> Undecided(s.phase[m[k]]))
  {
    WellPlaced(g, s);
    ReplayKeepsLatest(g, s.core, order, k);
    var p := Replay(g, s.core, order)[k];
    assert Ordered(s, p);
    if k in s.live {
      OrderIsTotal(g, s.core, p, s.live[k], p);
    }
  }

  lemma RecoverableKey(g: Geometry, s: State, order: seq<Addr>, k: Bytes)
    requires Ok(g) && Inv(g, s) && OrderOk(s) && Enumerates(s.core, order) && Stamped(s.core, order)
    requires Recoverable(s)
    ensures var m := Replay(g, s.core, order);
            (k in m <==> k in s.live) && (k in m ==> m[k] == s.live[k])
  {
    WellPlaced(g, s);
    ReplayKeepsLatest(g, s.core, order, k);
    if k in Replay(g, s.core, order) {
      RecoveredKey(g, s, order, k);
      if k in s.live {
        OrderIsTotal(g, s.core, Replay(g, s.core, order)[k], s.live[k], s.live[k]);
      }
    }
  }

  lemma UndecidedPrecedes(g: Geometry, s: State, order: seq<Addr>, p: Addr)
    requires Ok(g) && Inv(g, s) && OrderOk(s) && Enumerates(s.core, order) && Stamped(s.core, order)
    requires Replay(g, s.core, order) == s.live
    requires p in s.core.disk && p in s.phase && Undecided(s.phase[p]) && Reached(s.core, p)
    ensures Overtaken(s, p)
  {
    WellPlaced(g, s);
    ReplayKeepsLatest(g, s.core, order, s.core.disk[p].key);
  }

  lemma RecoverableRestores(g: Geometry, s: State, order: seq<Addr>)
    requires Ok(g) && Inv(g, s) && OrderOk(s) && Enumerates(s.core, order) && Stamped(s.core, order)
    requires Recoverable(s)
    ensures Replay(g, s.core, order) == s.live
  {
    var m := Replay(g, s.core, order);
    forall k ensures (k in m <==> k in s.live) && (k in m ==> m[k] == s.live[k]) {
      RecoverableKey(g, s, order, k);
    }
  }

  lemma RestoredIsRecoverable(g: Geometry, s: State, order: seq<Addr>)
    requires Ok(g) && Inv(g, s) && OrderOk(s) && Enumerates(s.core, order) && Stamped(s.core, order)
    requires Replay(g, s.core, order) == s.live
    ensures Recoverable(s)
  {
    forall p | p in s.core.disk && p in s.phase && Undecided(s.phase[p]) && Reached(s.core, p)
      ensures Overtaken(s, p)
    {
      UndecidedPrecedes(g, s, order, p);
    }
    forall k | k in s.live ensures Reached(s.core, s.live[k]) {
      assert s.live[k] in order;
    }
  }

  /** Recovery restores exactly the map of the crashed store if and only if the state is
      recoverable. */
  lemma RecoveryIsExact(g: Geometry, s: State, order: seq<Addr>)
    requires Ok(g) && Inv(g, s) && OrderOk(s) && Enumerates(s.core, order) && Stamped(s.core, order)
    ensures Replay(g, s.core, order) == s.live <==> Recoverable(s)
  {
    if Recoverable(s) {
      RecoverableRestores(g, s, order);
    }
    if Replay(g, s.core, order) == s.live {
      RestoredIsRecoverable(g, s, order);
    }
  }

  /** No put is in flight or half done, none failed after reserving its extent, and none was refused. */
  ghost predicate Settled(s: State) {
    forall p :: p in s.phase ==> s.phase[p].Live? || s.phase[p].Superseded? || s.phase[p].Stale?
  }

  lemma SettledIsRecoverable(g: Geometry, s: State)
    requires Ok(g) && Inv(g, s) && Settled(s)
    ensures Recoverable(s)
  {
    forall q | q in s.core.size ensures q in s.core.disk {
      assert Logged(g, s, q);
    }
  }
}
