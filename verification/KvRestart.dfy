/** Restart after a crash: crash_recovery (src/uDepot/lsa/udepot-directory-map.cc) over the whole
    device, with the ways in which it refuses. Segment metadata reaches the device when a segment
    is opened, so recovery visits every open segment, written to or not. */
module KvRestart {
  import opened Arith
  import opened Extents
  import opened Octets
  import opened KvStore
  import opened KvRuns
  import opened KvRecovery

  /** The map and the segment allocation number restart with, or the error: ENOENT for a segment
      without a valid first record, ENODATA for a device without a valid segment. */
  datatype Recovery = Restored(live: map<Bytes, Addr>, allocNr: nat) | NoEntry | NoData

  /** The records that the scan reads from the segments below `n` that have valid metadata. */
  function ScanAll(g: Geometry, c: Core, n: nat): (r: seq<Addr>)
    requires Ok(g)
    ensures forall p :: p in r ==> p in c.disk && p.seg in c.segTs && p.seg < n
  {
    if n == 0 then []
    else ScanAll(g, c, n - 1) + if n - 1 in c.segTs then Scan(g, c, n - 1, 0) else []
  }

  /** The latest timestamp of a segment below `n`. */
  function LastTs(c: Core, n: nat): (r: nat)
    ensures forall x :: x in c.segTs && x < n ==> c.segTs[x] <= r
    ensures r == 0 || exists x :: x in c.segTs && x < n && c.segTs[x] == r
  {
    if n == 0 then 0
    else if n - 1 in c.segTs then Max(LastTs(c, n - 1), c.segTs[n - 1])
    else LastTs(c, n - 1)
  }

  /** One of the segments below `n` has valid metadata. */
  predicate AnyValid(c: Core, n: nat) { exists x :: 0 <= x < n && x in c.segTs }

  /** The first header of a segment below `n` with valid metadata is not valid. */
  predicate AnyHeadless(g: Geometry, c: Core, n: nat) requires Ok(g) {
    exists x :: 0 <= x < n && x in c.segTs && !Readable(g, c, Addr(x, 0))
  }

  function Recover(g: Geometry, c: Core, n: nat): Recovery requires Ok(g) {
    if AnyHeadless(g, c, n) then NoEntry
    else if AnyValid(c, n) then Restored(Replay(g, c, ScanAll(g, c, n)), LastTs(c, n))
    else NoData
  }

  // ---------------------------------------------------------------- the loops

  ghost predicate Points(c: Core, m: map<Bytes, Addr>) { forall k {:trigger m[k]} :: k in m ==> m[k] in c.disk }

  /** What the record loop makes of a map, from position `off` of a segment on. */
  function RestoreFrom(g: Geometry, c: Core, seg: nat, off: nat, m: map<Bytes, Addr>): (r: map<Bytes, Addr>)
    requires Ok(g) && seg in c.segTs && Points(c, m)
    ensures Points(c, r)
    decreases g.segSize - off
  {
    var p := Addr(seg, off);
    if !Readable(g, c, p) then m
    else RestoreFrom(g, c, seg, off + Grains(g, |c.disk[p].key|, |c.disk[p].val|), Restore(g, c, m, p))
  }

  ghost predicate Listed(c: Core, order: seq<Addr>) { forall p :: p in order ==> p in c.disk && p.seg in c.segTs }

  lemma ReplayExtends(g: Geometry, c: Core, done: seq<Addr>, p: Addr)
    requires Ok(g) && p in c.disk && p.seg in c.segTs && Listed(c, done)
    ensures Listed(c, done + [p]) && Points(c, Replay(g, c, done))
    ensures Replay(g, c, done + [p]) == Restore(g, c, Replay(g, c, done), p)
  {
    assert (done + [p])[..|done|] == done;
  }

  function End(g: Geometry, c: Core, p: Addr): nat requires Ok(g) && p in c.disk {
    p.off + Grains(g, |c.disk[p].key|, |c.disk[p].val|)
  }

  lemma ScanStep(g: Geometry, c: Core, p: Addr, done: seq<Addr>, all: seq<Addr>)
    requires Ok(g) && Readable(g, c, p) && all == done + Scan(g, c, p.seg, p.off)
    ensures all == done + [p] + Scan(g, c, p.seg, End(g, c, p))
  {
  }

  lemma ScanListed(g: Geometry, c: Core, seg: nat, done: seq<Addr>)
    requires Ok(g) && seg in c.segTs && Listed(c, done)
    ensures Listed(c, done + Scan(g, c, seg, 0))
  {
  }

  lemma RestoreFromStep(g: Geometry, c: Core, p: Addr, m: map<Bytes, Addr>)
    requires Ok(g) && p.seg in c.segTs && Points(c, m)
    ensures Readable(g, c, p) ==>
              RestoreFrom(g, c, p.seg, p.off, m) == RestoreFrom(g, c, p.seg, End(g, c, p), Restore(g, c, m, p))
    ensures !Readable(g, c, p) ==> RestoreFrom(g, c, p.seg, p.off, m) == m
  {
  }

  /** The record loop replays what the scan reads. */
  lemma {:induction false} RestoreReplays(g: Geometry, c: Core, p: Addr, done: seq<Addr>, all: seq<Addr>)
    requires Ok(g) && p.seg in c.segTs && Listed(c, done) && Listed(c, all)
    requires all == done + Scan(g, c, p.seg, p.off)
    ensures Points(c, Replay(g, c, done)) && RestoreFrom(g, c, p.seg, p.off, Replay(g, c, done)) == Replay(g, c, all)
    decreases g.segSize - p.off
  {
    assert Points(c, Replay(g, c, done));
    RestoreFromStep(g, c, p, Replay(g, c, done));
    if Readable(g, c, p) {
      ReplayExtends(g, c, done, p);
      ScanStep(g, c, p, done, all);
      RestoreReplays(g, c, Addr(p.seg, End(g, c, p)), done + [p], all);
    } else {
      assert all == done;
    }
  }

  /** The record loop over one segment. The error starts as ENOENT and is cleared by the first
      record that is restored. */
  method RecoverSegment(g: Geometry, c: Core, seg: nat, start: map<Bytes, Addr>)
    returns (m: map<Bytes, Addr>, found: bool)
    requires Ok(g) && seg in c.segTs && Points(c, start)
    ensures Points(c, m) && m == RestoreFrom(g, c, seg, 0, start)
    ensures found <==> Readable(g, c, Addr(seg, 0))
  {
    m, found := start, false;
    var off := 0;
    while off < Cap(g)
      invariant Points(c, m) && RestoreFrom(g, c, seg, off, m) == RestoreFrom(g, c, seg, 0, start)
      invariant if off == 0 then !found else found && Readable(g, c, Addr(seg, 0))
      decreases Cap(g) - off
    {
      var p := Addr(seg, off);
      if p !in c.disk || !Within(g, c.disk[p], off) { break; }
      m, found := Restore(g, c, m, p), true;
      off := off + Grains(g, |c.disk[p].key|, |c.disk[p].val|);
    }
  }

  lemma ScanAllNext(g: Geometry, c: Core, x: nat)
    requires Ok(g)
    ensures Points(c, Replay(g, c, ScanAll(g, c, x)))
    ensures Replay(g, c, ScanAll(g, c, x + 1)) ==
            if x in c.segTs then RestoreFrom(g, c, x, 0, Replay(g, c, ScanAll(g, c, x)))
            else Replay(g, c, ScanAll(g, c, x))
  {
    if x in c.segTs {
      ScanListed(g, c, x, ScanAll(g, c, x));
      RestoreReplays(g, c, Addr(x, 0), ScanAll(g, c, x), ScanAll(g, c, x + 1));
    } else {
      assert ScanAll(g, c, x + 1) == ScanAll(g, c, x);
    }
  }

  /** What the loop over the segments has computed before segment `x`. */
  ghost predicate Scanned(g: Geometry, c: Core, x: nat, m: map<Bytes, Addr>, last: nat, restored: nat) requires Ok(g) {
    && m == Replay(g, c, ScanAll(g, c, x)) && last == LastTs(c, x)
    && !AnyHeadless(g, c, x) && (restored > 0 <==> AnyValid(c, x))
  }

  lemma FlagsNext(g: Geometry, c: Core, x: nat)
    requires Ok(g)
    ensures AnyValid(c, x + 1) <==> AnyValid(c, x) || x in c.segTs
    ensures AnyHeadless(g, c, x + 1) <==> AnyHeadless(g, c, x) || (x in c.segTs && !Readable(g, c, Addr(x, 0)))
  {
  }

  lemma LastTsNext(c: Core, x: nat)
    ensures LastTs(c, x + 1) == if x in c.segTs then Max(LastTs(c, x), c.segTs[x]) else LastTs(c, x)
  {
  }

  lemma ScannedNext(g: Geometry, c: Core, x: nat, m: map<Bytes, Addr>, last: nat, restored: nat)
    requires Ok(g) && Scanned(g, c, x, m, last, restored) && x in c.segTs && Readable(g, c, Addr(x, 0))
    ensures Points(c, m) && Scanned(g, c, x + 1, RestoreFrom(g, c, x, 0, m), Max(last, c.segTs[x]), restored + 1)
  {
    ScanAllNext(g, c, x);
    LastTsNext(c, x);
    FlagsNext(g, c, x);
  }

  lemma ScannedSkip(g: Geometry, c: Core, x: nat, m: map<Bytes, Addr>, last: nat, restored: nat)
    requires Ok(g) && Scanned(g, c, x, m, last, restored) && x !in c.segTs
    ensures Scanned(g, c, x + 1, m, last, restored)
  {
    ScanAllNext(g, c, x);
    LastTsNext(c, x);
    FlagsNext(g, c, x);
  }

  lemma ScannedAll(g: Geometry, c: Core, n: nat, m: map<Bytes, Addr>, last: nat, restored: nat)
    requires Ok(g) && Scanned(g, c, n, m, last, restored)
    ensures Recover(g, c, n) == if restored == 0 then NoData else Restored(m, last)
  {
  }

  /** One segment of the device. */
  method NextSegment(g: Geometry, c: Core, x: nat, m: map<Bytes, Addr>, last: nat, restored: nat)
      returns (ok: bool, m': map<Bytes, Addr>, last': nat, restored': nat)
    requires Ok(g) && Points(c, m) && Scanned(g, c, x, m, last, restored)
    ensures ok ==> Points(c, m') && Scanned(g, c, x + 1, m', last', restored')
    ensures !ok ==> x in c.segTs && !Readable(g, c, Addr(x, 0))
  {
    ok, m', last', restored' := true, m, last, restored;
    if x in c.segTs {
      m', ok := RecoverSegment(g, c, x, m);
      if ok {
        ScannedNext(g, c, x, m, last, restored);
        last', restored' := Max(last, c.segTs[x]), restored + 1;
      }
    } else {
      ScannedSkip(g, c, x, m, last, restored);
    }
  }

  lemma ScannedNone(g: Geometry, c: Core)
    requires Ok(g)
    ensures Scanned(g, c, 0, map[], 0, 0)
  {
  }

  /** The loop over the segments of the device, up to the first that is refused. */
  method ScanSegments(g: Geometry, c: Core, n: nat)
      returns (ok: bool, m: map<Bytes, Addr>, last: nat, restored: nat)
    requires Ok(g)
    ensures ok ==> Points(c, m) && Scanned(g, c, n, m, last, restored)
    ensures !ok ==> AnyHeadless(g, c, n)
  {
    ok, m, last, restored := true, map[], 0, 0;
    ScannedNone(g, c);
    var x := 0;
    while x < n
      invariant x <= n && ok && Points(c, m) && Scanned(g, c, x, m, last, restored)
    {
      ok, m, last, restored := NextSegment(g, c, x, m, last, restored);
      if !ok { return; }
      x := x + 1;
    }
  }

  /** Recovery of the device computes `Recover`. */
  method CrashRecovery(g: Geometry, c: Core, n: nat) returns (r: Recovery)
    requires Ok(g)
    ensures r == Recover(g, c, n)
  {
    var ok, m, last, restored := ScanSegments(g, c, n);
    if !ok { return NoEntry; }
    ScannedAll(g, c, n, m, last, restored);
    r := if restored == 0 then NoData else Restored(m, last);
  }

  // ---------------------------------------------------------------- every run

  lemma InScanAll(g: Geometry, c: Core, n: nat, p: Addr)
    requires Ok(g) && n > 0
    ensures p in ScanAll(g, c, n) <==>
            p in ScanAll(g, c, n - 1) || (p.seg == n - 1 && n - 1 in c.segTs && p in Scan(g, c, n - 1, 0))
  {
    var s := if n - 1 in c.segTs then Scan(g, c, n - 1, 0) else [];
    assert ScanAll(g, c, n) == ScanAll(g, c, n - 1) + s;
  }

  lemma {:induction false} ScanAllReads(g: Geometry, s: State, n: nat, p: Addr)
    requires Ok(g) && Inv(g, s) && p in s.core.disk && p.seg in s.core.segTs
    ensures p in ScanAll(g, s.core, n) <==> p.seg < n && Reached(s.core, p)
  {
    if n > 0 {
      ScanAllReads(g, s, n - 1, p);
      InScanAll(g, s.core, n, p);
      if p.seg == n - 1 { ScanReads(g, s, p); }
    }
  }

  lemma ScanAllEnumerates(g: Geometry, s: State, n: nat)
    requires Ok(g) && Inv(g, s) && forall x :: x in s.core.segTs ==> x < n
    ensures Enumerates(s.core, ScanAll(g, s.core, n))
  {
    WellPlaced(g, s);
    forall p | p in s.core.disk ensures p in ScanAll(g, s.core, n) <==> Reached(s.core, p) {
      ScanAllReads(g, s, n, p);
    }
  }

  /** The latest timestamp on the device is the segment allocation number of the store. */
  ghost predicate Counted(c: Core) {
    if c.segTs == map[] then c.allocNr == 0 else exists x :: x in c.segTs && c.segTs[x] == c.allocNr
  }

  lemma StepKeepsCounted(g: Geometry, s: State, a: Action)
    requires Ok(g) && Counted(s.core) && Enabled(g, s, a)
    ensures Counted(Apply(g, s, a).core)
  {
    var t := Apply(g, s, a);
    if a.Open? {
      assert t.core.segTs[a.seg] == t.core.allocNr;
    } else {
      assert t.core.segTs == s.core.segTs && t.core.allocNr == s.core.allocNr;
    }
  }

  lemma {:induction false} RunKeepsCounted(g: Geometry, acts: seq<Action>, states: seq<State>, n: nat)
    requires Ok(g) && IsRun(g, acts, states) && n < |states|
    ensures Counted(states[n].core)
  {
    if n > 0 {
      RunKeepsCounted(g, acts, states, n - 1);
      var a := acts[n - 1];
      StepKeepsCounted(g, states[n - 1], a);
    }
  }

  /** A segment was opened, and the first extent of every open segment was written. */
  ghost predicate Startable(c: Core) {
    c.segTs != map[] && forall x :: x in c.segTs ==> Addr(x, 0) in c.disk
  }

  lemma FirstHeaders(g: Geometry, s: State, n: nat)
    requires Ok(g) && Inv(g, s) && forall x :: x in s.core.segTs ==> x < n
    ensures AnyValid(s.core, n) <==> s.core.segTs != map[]
    ensures AnyHeadless(g, s.core, n) <==> exists x :: x in s.core.segTs && Addr(x, 0) !in s.core.disk
  {
    forall x | x in s.core.segTs && Addr(x, 0) in s.core.disk ensures Readable(g, s.core, Addr(x, 0)) {
      WrittenIsReadable(g, s, Addr(x, 0));
    }
    if s.core.segTs != map[] {
      var x :| x in s.core.segTs;
      assert 0 <= x < n;
    }
  }

  /** In every state of every run, with or without GC, recovery fails if and only if no segment
      was opened or some open segment has no written first extent. Otherwise it restores the
      segment allocation number, and, in runs without GC, exactly the map if and only if the
      state is recoverable. */
  lemma RecoveryOfRuns(g: Geometry, acts: seq<Action>, states: seq<State>, i: nat, n: nat)
    requires Ok(g) && IsRun(g, acts, states) && i < |states|
    requires forall x :: x in states[i].core.segTs ==> x < n
    ensures var s, r := states[i], Recover(g, states[i].core, n);
            && (r.Restored? <==> Startable(s.core))
            && (r.NoData? <==> s.core.segTs == map[])
            && (r.Restored? ==> r.allocNr == s.core.allocNr)
            && (r.Restored? && WithoutGc(acts) ==> (r.live == s.live <==> Recoverable(s)))
  {
    var s := states[i];
    RunKeepsInv(g, acts, states, i);
    FirstHeaders(g, s, n);
    RunKeepsCounted(g, acts, states, i);
    if WithoutGc(acts) {
      ScanAllEnumerates(g, s, n);
      OrderStamps(g, s, ScanAll(g, s.core, n));
      RecoveryIsExact(g, s, ScanAll(g, s.core, n));
    }
  }

  /** In every run without GC, whenever all puts have settled, recovery restores exactly the map
      and the allocation number if and only if a segment was opened and none of the open ones
      is still without an extent. */
  lemma RecoveryOfSettledRuns(g: Geometry, acts: seq<Action>, states: seq<State>, i: nat, n: nat)
    requires Ok(g) && IsRun(g, acts, states) && WithoutGc(acts) && i < |states| && Settled(states[i])
    requires forall x :: x in states[i].core.segTs ==> x < n
    ensures var s := states[i];
            Recover(g, s.core, n) == Restored(s.live, s.core.allocNr) <==>
            s.core.segTs != map[] && forall x :: x in s.core.segTs ==> Addr(x, 0) in s.core.size
  {
    var s := states[i];
    RunKeepsInv(g, acts, states, i);
    SettledIsRecoverable(g, s);
    RecoveryOfRuns(g, acts, states, i, n);
    forall p ensures p in s.core.size <==> p in s.core.disk {
      assert p in s.core.size ==> Logged(g, s, p);
      assert p in s.core.disk ==> Logged(g, s, p);
    }
  }
}
