/** Runs on which recovery does not restore the map: one on which it fails, one per clause of
    KvRecovery.Recoverable, and one with GC, which the recovery theorem leaves out. And a run
    after which a collection leaves a mapped record behind. */
module KvLimits {
  import opened Extents
  import opened Octets
  import opened KvStore
  import opened KvRuns
  import opened KvRecovery
  import opened KvRestart
  import opened KvGc

  function Small(): Geometry { Geometry(4, 0, 32) }

  function K(): Bytes { [1] }
  function L(): Bytes { [4] }
  function V1(): Bytes { [2] }
  function V2(): Bytes { [3] }

  ghost predicate Leads(g: Geometry, acts: seq<Action>, s: State) requires Ok(g) {
    exists states :: IsRun(g, acts, states) && states[|acts|] == s
  }

  lemma Extend(g: Geometry, acts: seq<Action>, s: State, a: Action)
    requires Ok(g) && Leads(g, acts, s) && Enabled(g, s, a)
    ensures Leads(g, acts + [a], Apply(g, s, a))
  {
    var states :| IsRun(g, acts, states) && states[|acts|] == s;
    RunExtends(g, acts, states, a, Apply(g, s, a));
  }

  lemma Start(g: Geometry)
    requires Ok(g)
    ensures Leads(g, [], Init())
  {
    assert IsRun(g, [], [Init()]);
  }

  lemma Step(acts: seq<Action>, s: State, a: Action) returns (acts': seq<Action>, s': State)
    requires Leads(Small(), acts, s) && Enabled(Small(), s, a)
    ensures Leads(Small(), acts', s') && acts' == acts + [a] && s' == Apply(Small(), s, a)
    ensures WithoutGc(acts) && !a.Relocate? ==> WithoutGc(acts')
  {
    Extend(Small(), acts, s, a);
    acts', s' := acts + [a], Apply(Small(), s, a);
  }

  /** A record of a new key is written to an extent that was reserved, and mapped. */
  lemma WriteNew(acts: seq<Action>, s: State, p: Addr, key: Bytes, val: Bytes) returns (acts': seq<Action>, s': State)
    requires Leads(Small(), acts, s) && Enabled(Small(), s, Write(p, key, val)) && key !in s.live
    ensures Leads(Small(), acts', s') && (WithoutGc(acts) ==> WithoutGc(acts'))
    ensures s'.core.allocNr == s.core.allocNr && s'.core.segTs == s.core.segTs
    ensures s'.core.next == s.core.next && s'.core.size == s.core.size
    ensures s'.core.disk == s.core.disk[p := Rec(key, val, s.core.segTs[p.seg])]
    ensures s'.live == s.live[key := p] && s'.phase == s.phase[p := KvStore.Live]
  {
    acts', s' := Step(acts, s, Write(p, key, val));
    acts', s' := Step(acts', s', Map(p, Normal));
  }

  lemma DrainSegment(acts: seq<Action>, s: State) returns (acts': seq<Action>, s': State)
    requires Leads(Small(), acts, s) && 0 in s.core.next
    ensures Leads(Small(), acts', s') && s' == s.(core := s.core.(next := s.core.next[0 := 4]))
  {
    acts', s' := Step(acts, s, Drain(0));
  }

  /** The store after one put, in extent (0, 0). */
  ghost predicate OnePut(s: State) {
    && s.core.allocNr == 1 && s.core.segTs == map[0 := 1] && s.core.next == map[0 := 1]
    && s.core.size == map[Addr(0, 0) := 1] && s.core.disk == map[Addr(0, 0) := Rec(K(), V1(), 1)]
    && s.live == map[K() := Addr(0, 0)] && s.phase == map[Addr(0, 0) := KvStore.Live]
  }

  lemma PutOnce() returns (acts: seq<Action>, s: State)
    ensures Leads(Small(), acts, s) && WithoutGc(acts) && OnePut(s)
  {
    OneGrain(Small(), K(), V1());
    acts := [];
    s := Init();
    Start(Small());
    acts, s := Step(acts, s, Open(0));
    acts, s := Step(acts, s, Reserve(0, 1));
    acts, s := WriteNew(acts, s, Addr(0, 0), K(), V1());
  }

  /** A CREATE of an existing key is refused after its record was written; the record is later
      than the mapped one, so recovery installs the refused value. */
  lemma RefusedPutIsRecovered() returns (acts: seq<Action>, s: State)
    ensures Leads(Small(), acts, s) && WithoutGc(acts)
    ensures s.core.disk == map[Addr(0, 0) := Rec(K(), V1(), 1), Addr(0, 1) := Rec(K(), V2(), 1)]
    ensures s.core.segTs == map[0 := 1] && s.live == map[K() := Addr(0, 0)]
    ensures Recover(Small(), s.core, 1) == Restored(map[K() := Addr(0, 1)], 1)
  {
    OneGrain(Small(), K(), V2());
    acts, s := PutOnce();
    acts, s := Step(acts, s, Reserve(0, 1));
    acts, s := Step(acts, s, Write(Addr(0, 1), K(), V2()));
    acts, s := Step(acts, s, Map(Addr(0, 1), Create));
    ScanTwo(s.core, 0);
    RecoverOne(s.core, [Addr(0, 0), Addr(0, 1)]);
    ReplayTwo(Small(), s.core, Addr(0, 0), Addr(0, 1));
  }

  lemma ReplayTwo(g: Geometry, c: Core, p: Addr, q: Addr)
    requires Ok(g) && p in c.disk && q in c.disk && p.seg in c.segTs && q.seg in c.segTs
    requires c.disk[p].key == c.disk[q].key && InOrder(g, c, p, q)
    ensures Replay(g, c, [p, q]) == map[c.disk[q].key := q]
  {
    assert [p, q][..1] == [p] && [p][..0] == [];
  }

  /** A short record at `p`: one grain, and within the segment. */
  predicate Short(c: Core, p: Addr) { p in c.disk && |c.disk[p].key| == 1 && |c.disk[p].val| == 1 && p.off < 4 }

  lemma ScanShort(c: Core, seg: nat, off: nat)
    ensures Short(c, Addr(seg, off)) ==>
              Readable(Small(), c, Addr(seg, off)) &&
              Scan(Small(), c, seg, off) == [Addr(seg, off)] + Scan(Small(), c, seg, off + 1)
    ensures Addr(seg, off) !in c.disk ==> Scan(Small(), c, seg, off) == []
  {
    if Short(c, Addr(seg, off)) { OneGrain(Small(), c.disk[Addr(seg, off)].key, c.disk[Addr(seg, off)].val); }
  }

  lemma ScanOne(c: Core, seg: nat)
    requires Short(c, Addr(seg, 0)) && Addr(seg, 1) !in c.disk
    ensures Scan(Small(), c, seg, 0) == [Addr(seg, 0)] && Readable(Small(), c, Addr(seg, 0))
  {
    ScanShort(c, seg, 0);
    ScanShort(c, seg, 1);
  }

  lemma ScanTwo(c: Core, seg: nat)
    requires Short(c, Addr(seg, 0)) && Short(c, Addr(seg, 1)) && Addr(seg, 2) !in c.disk
    ensures Scan(Small(), c, seg, 0) == [Addr(seg, 0), Addr(seg, 1)] && Readable(Small(), c, Addr(seg, 0))
  {
    ScanShort(c, seg, 0);
    ScanShort(c, seg, 1);
    ScanShort(c, seg, 2);
  }

  lemma RecoverOne(c: Core, order: seq<Addr>)
    requires c.segTs == map[0 := 1] && Readable(Small(), c, Addr(0, 0)) && Scan(Small(), c, 0, 0) == order
    ensures forall p :: p in order ==> p in c.disk && p.seg in c.segTs
    ensures Recover(Small(), c, 1) == Restored(Replay(Small(), c, order), 1)
  {
    assert ScanAll(Small(), c, 0) == [];
    assert ScanAll(Small(), c, 1) == order;
    assert AnyValid(c, 1) && LastTs(c, 1) == 1 by { assert 0 in c.segTs && c.segTs[0] == 1; }
  }

  /** A device without a valid segment, or with one that was opened and not written to yet, is
      not recovered, even if all puts have returned. */
  lemma OpenSegmentStopsRecovery() returns (acts: seq<Action>, s: State)
    ensures Recover(Small(), Init().core, 2) == NoData
    ensures Leads(Small(), acts, s) && WithoutGc(acts) && Settled(s)
    ensures s.live == map[K() := Addr(0, 0)] && s.core.segTs == map[0 := 1, 1 := 2]
    ensures Recover(Small(), s.core, 2) == NoEntry
  {
    acts, s := PutOnce();
    acts, s := Step(acts, s, Open(1));
    assert 1 in s.core.segTs && !Readable(Small(), s.core, Addr(1, 0));
  }

  /** A put that returned success is lost when an extent reserved before it in its segment is
      still unwritten at the crash: the scan stops at the unwritten extent. */
  lemma PutBehindUnwrittenExtentIsLost() returns (acts: seq<Action>, s: State)
    ensures Leads(Small(), acts, s) && WithoutGc(acts)
    ensures s.live == map[K() := Addr(0, 0), L() := Addr(0, 2)]
    ensures Recover(Small(), s.core, 1) == Restored(map[K() := Addr(0, 0)], 1)
  {
    OneGrain(Small(), L(), V2());
    acts, s := PutOnce();
    acts, s := Step(acts, s, Reserve(0, 1));
    acts, s := Step(acts, s, Reserve(0, 1));
    acts, s := Step(acts, s, Write(Addr(0, 2), L(), V2()));
    acts, s := Step(acts, s, Map(Addr(0, 2), Normal));
    ScanOne(s.core, 0);
    RecoverOne(s.core, [Addr(0, 0)]);
    ReplayOne(s.core, Addr(0, 0));
  }

  lemma ReplayOne(c: Core, p: Addr)
    requires p in c.disk && p.seg in c.segTs
    ensures Replay(Small(), c, [p]) == map[c.disk[p].key := p]
  {
    assert [p][..0] == [];
  }

  /** The store after one put that GC then moved to a segment opened last. */
  ghost predicate Moved(s: State) {
    && s.core.allocNr == 3 && s.core.segTs == map[0 := 1, 1 := 2, 2 := 3] && s.core.next == map[0 := 1, 1 := 0, 2 := 1]
    && s.core.disk == map[Addr(0, 0) := Rec(K(), V1(), 1), Addr(2, 0) := Rec(K(), V1(), 1)]
    && s.live == map[K() := Addr(2, 0)]
  }

  lemma MoveOnce() returns (acts: seq<Action>, s: State)
    ensures Leads(Small(), acts, s) && Moved(s)
  {
    OneGrain(Small(), K(), V1());
    acts, s := PutOnce();
    acts, s := Step(acts, s, Open(1));
    acts, s := Step(acts, s, Open(2));
    acts, s := Step(acts, s, Relocate(K(), 2));
  }

  /** The store after a second put replaced the moved record. */
  ghost predicate Replaced(s: State) {
    && s.live == map[K() := Addr(1, 0)] && s.core.segTs == map[0 := 1, 1 := 2, 2 := 3]
    && s.core.disk == map[Addr(0, 0) := Rec(K(), V1(), 1), Addr(2, 0) := Rec(K(), V1(), 1),
                          Addr(1, 0) := Rec(K(), V2(), 2)]
  }

  lemma ReplaceOnce() returns (acts: seq<Action>, s: State)
    ensures Leads(Small(), acts, s) && Replaced(s)
  {
    OneGrain(Small(), K(), V2());
    acts, s := MoveOnce();
    acts, s := Step(acts, s, Reserve(1, 1));
    acts, s := Step(acts, s, Write(Addr(1, 0), K(), V2()));
    acts, s := Step(acts, s, Map(Addr(1, 0), Normal));
  }

  lemma ReplacedRecovers(c: Core)
    requires c.segTs == map[0 := 1, 1 := 2, 2 := 3]
    requires c.disk == map[Addr(0, 0) := Rec(K(), V1(), 1), Addr(2, 0) := Rec(K(), V1(), 1),
                           Addr(1, 0) := Rec(K(), V2(), 2)]
    ensures Recover(Small(), c, 3) == Restored(map[K() := Addr(2, 0)], 3)
  {
    ScanOne(c, 0);
    ScanOne(c, 1);
    ScanOne(c, 2);
    ScanThree(c);
    RecoverThree(c);
    ReplayThree(c, Addr(0, 0), Addr(1, 0), Addr(2, 0));
  }

  /** With GC, recovery can resurrect an overwritten value. GC copies a record, with its old
      header, into a segment opened last; a later put lands in a segment opened in between
      and replaces it; the replay then prefers the copy by its segment's timestamp. */
  lemma GcCopyIsResurrected() returns (acts: seq<Action>, s: State)
    ensures Leads(Small(), acts, s) && Replaced(s)
    ensures Recover(Small(), s.core, 3) == Restored(map[K() := Addr(2, 0)], 3)
  {
    acts, s := ReplaceOnce();
    ReplacedRecovers(s.core);
  }

  lemma ReplayThree(c: Core, p: Addr, q: Addr, r: Addr)
    requires p in c.disk && q in c.disk && r in c.disk && p.seg in c.segTs && q.seg in c.segTs && r.seg in c.segTs
    requires c.disk[p].key == c.disk[q].key == c.disk[r].key && InOrder(Small(), c, p, q) && InOrder(Small(), c, q, r)
    ensures Replay(Small(), c, [p, q, r]) == map[c.disk[r].key := r]
  {
    ReplayTwo(Small(), c, p, q);
    assert [p, q, r][..2] == [p, q];
  }

  lemma ScanThree(c: Core)
    requires c.segTs == map[0 := 1, 1 := 2, 2 := 3]
    requires Scan(Small(), c, 0, 0) == [Addr(0, 0)] && Scan(Small(), c, 1, 0) == [Addr(1, 0)]
    requires Scan(Small(), c, 2, 0) == [Addr(2, 0)]
    ensures ScanAll(Small(), c, 3) == [Addr(0, 0), Addr(1, 0), Addr(2, 0)] && LastTs(c, 3) == 3
  {
    assert ScanAll(Small(), c, 0) == [];
    assert ScanAll(Small(), c, 1) == [Addr(0, 0)];
    assert ScanAll(Small(), c, 2) == [Addr(0, 0), Addr(1, 0)];
    assert c.segTs[2] == 3;
  }

  lemma RecoverThree(c: Core)
    requires c.segTs == map[0 := 1, 1 := 2, 2 := 3]
    requires forall x :: 0 <= x < 3 ==> Readable(Small(), c, Addr(x, 0))
    requires ScanAll(Small(), c, 3) == [Addr(0, 0), Addr(1, 0), Addr(2, 0)] && LastTs(c, 3) == 3
    ensures Recover(Small(), c, 3) == Restored(Replay(Small(), c, [Addr(0, 0), Addr(1, 0), Addr(2, 0)]), 3)
  {
    assert 0 in c.segTs;
  }

  /** A drained segment whose first extent was never written and whose second holds a record. */
  ghost predicate Hiding(s: State) {
    && s.core.next == map[0 := 4] && s.live == map[K() := Addr(0, 1)]
    && s.core.size == map[Addr(0, 0) := 1, Addr(0, 1) := 1] && s.core.disk == map[Addr(0, 1) := Rec(K(), V1(), 1)]
    && s.phase == map[Addr(0, 0) := Failed, Addr(0, 1) := KvStore.Live]
  }

  /** Two extents are reserved, and the write of the first one fails. */
  lemma FirstFails() returns (acts: seq<Action>, s: State)
    ensures Leads(Small(), acts, s)
    ensures s.core.segTs == map[0 := 1] && s.core.next == map[0 := 2] && s.live == map[] && s.core.disk == map[]
    ensures s.core.size == map[Addr(0, 0) := 1, Addr(0, 1) := 1]
    ensures s.phase == map[Addr(0, 0) := Failed, Addr(0, 1) := Reserved]
  {
    acts := [];
    s := Init();
    Start(Small());
    acts, s := Step(acts, s, Open(0));
    acts, s := Step(acts, s, Reserve(0, 1));
    acts, s := Step(acts, s, Reserve(0, 1));
    acts, s := Step(acts, s, IoFail(Addr(0, 0)));
  }

  lemma PutBehindFailed() returns (acts: seq<Action>, s: State)
    ensures Leads(Small(), acts, s) && Hiding(s)
  {
    OneGrain(Small(), K(), V1());
    acts, s := FirstFails();
    acts, s := WriteNew(acts, s, Addr(0, 1), K(), V1());
    acts, s := DrainSegment(acts, s);
  }

  /** A collection that reports success and leaves a mapped record behind: the walk ends at the
      extent that was never written. */
  lemma GcLeavesRecordBehind() returns (acts: seq<Action>, s: State)
    ensures Leads(Small(), acts, s) && Closed(Small(), s, 0) && !Exposed(s, 0)
    ensures GcRun(Small(), 0, [Visit(0)], [s, s], [Walking(0), Finished])
    ensures s.live == map[K() := Addr(0, 1)] && !Vacated(s, 0)
  {
    acts, s := PutBehindFailed();
    assert !ExposedAt(s, 0, K()) by { assert Addr(0, 0) in s.core.size && Addr(0, 0) !in s.core.disk; }
    assert StepAt(Small(), 0, [Visit(0)], [s, s], [Walking(0), Finished], 0);
  }
}
