/** A run of the threads in which a rejected REPLACE leaves a hole, and what the hole does: a get
    misses a mapped key, two CREATEs of that key succeed, and the table stands for no key map any
    more. The table has 128 homes. */
module KvHoles {
  import opened Arith
  import opened Extents
  import opened Octets
  import opened Hopscotch
  import opened HopTable
  import opened KvStore
  import opened KvRuns
  import opened KvThreads
  import opened KvConcurrency

  /** Keys [0] to [31] have homes of their own, all other keys have home 0. */
  function FpOf(k: Bytes): Fp { if |k| == 1 && k[0] < 32 then Fp(0, k[0]) else Fp(1, 0) }

  function Cfg(): Config { Config(Geometry(64, 0, 32), FpOf, 160) }

  function Key(i: nat): Bytes requires i < 256 { [i] }

  lemma CfgFits()
    ensures Fits(Cfg())
  {
  }

  // ---------------------------------------------------------------- runs

  /** The run goes on for `n` more steps. */
  ghost predicate Longer(events: seq<Event>, run: seq<Sys>, events': seq<Event>, run': seq<Sys>, n: nat) {
    events <= events' && run <= run' && |events'| == |events| + n && |run'| == |run| + n
  }

  lemma CreatesStays(events: seq<Event>, run: seq<Sys>, events': seq<Event>, run': seq<Sys>, n: nat, i: nat, p: Addr)
    requires Creates(events, run, i, p) && Longer(events, run, events', run', n)
    ensures Creates(events', run', i, p) && run'[i] == run[i]
  {
  }

  /** The first `n` extents of segment 0 are written, and the segment is filled up to there. */
  ghost predicate Wrote(c: Sys, n: nat) {
    && c.core.segTs == map[0 := 1] && c.core.next == map[0 := n] && c.puts == map[]
    && (forall p: Addr :: p in c.core.disk <==> p.seg == 0 && p.off < n)
    && (forall p :: p in c.core.disk ==> p in c.core.size && p in c.phase)
  }

  /** `e` is `c` after a put of `key` has got extent `n` and written its record. */
  ghost predicate WroteNext(c: Sys, n: nat, key: Bytes, e: Sys) {
    && Wrote(e, n + 1) && e.tbl == c.tbl && e.core.disk == c.core.disk[Addr(0, n) := Rec(key, [0], 1)]
    && e.phase == c.phase[Addr(0, n) := InFlight] && InFlightAt(At(e, map[]), Addr(0, n))
  }

  lemma WriteSteps(c: Sys, n: nat, key: Bytes) returns (d: Sys, e: Sys)
    requires Fits(Cfg()) && Wrote(c, n) && n < 64 && |key| == 1
    ensures Step(Cfg(), c, Background(Reserve(0, 1)), d)
    ensures Step(Cfg(), d, Background(Write(Addr(0, n), key, [0])), e)
    ensures WroteNext(c, n, key, e)
  {
    OneGrain(Cfg().g, key, [0]);
    var s := Apply(Cfg().g, At(c, map[]), Reserve(0, 1));
    d := c.(core := s.core, phase := s.phase);
    var t := Apply(Cfg().g, At(d, map[]), Write(Addr(0, n), key, [0]));
    e := d.(core := t.core, phase := t.phase);
  }

  /** A put of a one-byte key and value gets the next extent and writes its record. */
  lemma WriteNext(events: seq<Event>, run: seq<Sys>, n: nat, key: Bytes) returns (events': seq<Event>, run': seq<Sys>)
    requires Fits(Cfg()) && SysRun(Cfg(), events, run) && Wrote(run[|events|], n) && n < 64 && |key| == 1
    ensures SysRun(Cfg(), events', run') && Longer(events, run, events', run', 2)
    ensures WroteNext(run[|events|], n, key, run'[|events'|])
  {
    var d, e := WriteSteps(run[|events|], n, key);
    var a, b := Background(Reserve(0, 1)), Background(Write(Addr(0, n), key, [0]));
    SysRunExtends(Cfg(), events, run, a, d);
    SysRunExtends(Cfg(), events + [a], run + [d], b, e);
    events', run' := events + [a] + [b], run + [d] + [e];
  }

  // ---------------------------------------------------------------- 32 keys at their homes

  /** The first `i` slots hold the records of the first `i` extents, each at its own home. */
  function Row(i: nat): seq<Entry> { seq(160, j => if 0 <= j < i then Used(0, 0, 1, Addr(0, j)) else Unused) }

  ghost predicate Filled(c: Sys, i: nat) {
    && i <= 32 && Wrote(c, i) && c.tbl == Row(i)
    && (forall p :: p in c.core.disk ==> c.core.disk[p].key == Key(p.off) && c.phase[p] == Phase.Live)
  }

  lemma RowMisses(i: nat)
    requires i < 32
    ensures IsCommon(Row(i), Fp(0, i), [], Common.Miss(NoData(i)))
  {
  }

  /** `d` is `c` after the put of `p` has entered its record in slot `i`. */
  ghost predicate Inserted(c: Sys, p: Addr, i: nat, d: Sys) {
    && p in c.core.disk && FpOf(c.core.disk[p].key).home <= i < |c.tbl|
    && d.tbl == c.tbl[i := Entered(Cfg().g, c.core, FpOf(c.core.disk[p].key), i, p)]
    && d.core == Added(Cfg().g, c.core, c.core.disk[p]) && d.phase == c.phase[p := Phase.Live] && d.puts == c.puts
  }

  /** A put of an absent key whose slot is found: it ends with its record mapped there. */
  lemma InsertNext(events: seq<Event>, run: seq<Sys>, p: Addr, i: nat) returns (events': seq<Event>, run': seq<Sys>)
    requires Fits(Cfg()) && SysRun(Cfg(), events, run)
    requires var c := run[|events|];
             && p !in c.puts && InFlightAt(At(c, map[]), p) && p.seg in c.core.segTs
             && IsCommon(c.tbl, FpOf(c.core.disk[p].key), [], Common.Miss(NoData(i)))
    ensures SysRun(Cfg(), events', run') && Longer(events, run, events', run', 1)
    ensures Inserted(run[|events|], p, i, run'[|events'|]) && Creates(events', run', |events|, p)
  {
    var c := run[|events|];
    var d := Absent(Cfg(), c, c.tbl, p, Create, i);
    assert Searched(Cfg(), c, p, Create, [], Common.Miss(NoData(i)), d);
    assert c.puts - {p} == c.puts;
    SysRunExtends(Cfg(), events, run, Start(p, Create), d);
    events', run' := events + [Start(p, Create)], run + [d];
  }

  lemma FilledNext(c: Sys, i: nat, d: Sys, e: Sys)
    requires Filled(c, i) && i < 32 && WroteNext(c, i, Key(i), d) && Inserted(d, Addr(0, i), i, e)
    ensures Filled(e, i + 1)
  {
    OneGrain(Cfg().g, Key(i), [0]);
    assert e.tbl == Row(i + 1);
  }

  lemma FillNext(events: seq<Event>, run: seq<Sys>, i: nat) returns (events': seq<Event>, run': seq<Sys>)
    requires Fits(Cfg()) && SysRun(Cfg(), events, run) && Filled(run[|events|], i) && i < 32
    ensures SysRun(Cfg(), events', run') && Longer(events, run, events', run', 3) && Filled(run'[|events'|], i + 1)
    ensures Creates(events', run', |events| + 2, Addr(0, i))
    ensures run'[|events| + 2].core.disk[Addr(0, i)].key == Key(i)
  {
    var events1, run1 := WriteNext(events, run, i, Key(i));
    RowMisses(i);
    events', run' := InsertNext(events1, run1, Addr(0, i), i);
    FilledNext(run[|events|], i, run1[|events1|], run'[|events'|]);
  }

  lemma OpenSegment() returns (events: seq<Event>, run: seq<Sys>)
    requires Fits(Cfg())
    ensures SysRun(Cfg(), events, run) && |events| == 1 && Filled(run[1], 0)
  {
    var c := Boot(Cfg());
    var s := Apply(Cfg().g, At(c, map[]), Open(0));
    events, run := [Background(Open(0))], [c, c.(core := s.core, phase := s.phase)];
    assert run[1].tbl == Row(0);
  }

  lemma {:induction false} FillTo(i: nat) returns (events: seq<Event>, run: seq<Sys>)
    requires Fits(Cfg()) && i <= 32
    ensures SysRun(Cfg(), events, run) && |events| == 1 + 3 * i && Filled(run[|events|], i)
    ensures i > 1 ==> Creates(events, run, 6, Addr(0, 1)) && run[6].core.disk[Addr(0, 1)].key == Key(1)
  {
    if i == 0 {
      events, run := OpenSegment();
    } else {
      var events0, run0 := FillTo(i - 1);
      events, run := FillNext(events0, run0, i - 1);
      if i > 2 {
        CreatesStays(events0, run0, events, run, 3, 6, Addr(0, 1));
      }
    }
  }

  // ---------------------------------------------------------------- the hole

  /** The table after the displacement: the entry of slot 1 moved to slot 32. */
  function Holed(): seq<Entry> { Row(32)[1 := Unused][32 := Used(31, 0, 1, Addr(0, 1))] }

  lemma RowIsFull()
    ensures var t := Row(32);
            && WellFormed(t) && NoTombstones(t) && AllUsed(t, 0, BUCKET)
            && IsCommon(t, Fp(1, 0), [], Common.Miss(NoSpace))
  {
  }

  lemma RowShifts()
    requires var t := Row(32); WellFormed(t) && NoTombstones(t) && AllUsed(t, 0, BUCKET)
    ensures TryShift(Row(32), 0) == Shift(Holed(), NoData(1))
  {
    var t := Row(32);
    FreeFromIs(t, BUCKET, 127, 32);
    FreeFromIs(t, 1, 33, 32);
    TryShiftIs(t, 0, 32);
    assert Move(t, 1, 32) == Holed();
    assert RoundOf(t, 0, 1, 32) == Ends(Shift(Holed(), NoData(1)));
  }

  /** `c` is after the REPLACE of a key that is absent, in a full bucket. */
  ghost predicate LeftHole(c: Sys) {
    && c.tbl == Holed() && Wrote(c, 33) && Addr(0, 1) in c.core.disk && c.core.disk[Addr(0, 1)].key == Key(1)
    && Addr(0, 1) in c.phase && c.phase[Addr(0, 1)].Live?
  }

  lemma ReplaceStep(c: Sys, d: Sys) returns (e: Sys)
    requires Fits(Cfg()) && Filled(c, 32) && WroteNext(c, 32, Key(32), d)
    ensures Step(Cfg(), d, Start(Addr(0, 32), Replace), e) && LeftHole(e)
  {
    var p := Addr(0, 32);
    RowIsFull();
    RowShifts();
    e := Absent(Cfg(), d, Holed(), p, Replace, 1);
    assert Displaces(Cfg(), d, p, Replace, e);
    assert Searched(Cfg(), d, p, Replace, [], Common.Miss(NoSpace), e);
    assert d.puts - {p} == d.puts;
  }

  /** The run up to the hole. */
  lemma RunToHole() returns (events: seq<Event>, run: seq<Sys>)
    requires Fits(Cfg())
    ensures SysRun(Cfg(), events, run) && 6 < |events| && LeftHole(run[|events|])
    ensures Creates(events, run, 6, Addr(0, 1)) && run[6].core.disk[Addr(0, 1)].key == Key(1)
  {
    var events0, run0 := FillTo(32);
    var events1, run1 := WriteNext(events0, run0, 32, Key(32));
    var d := ReplaceStep(run0[|events0|], run1[|events1|]);
    var e := Start(Addr(0, 32), Replace);
    SysRunExtends(Cfg(), events1, run1, e, d);
    events, run := events1 + [e], run1 + [d];
    CreatesStays(events0, run0, events, run, 3, 6, Addr(0, 1));
  }

  /** A search for key [1] stops at the hole. */
  lemma HoleMisses()
    ensures IsCommon(Holed(), Fp(0, 1), [], Common.Miss(NoData(1)))
  {
    assert Holed()[1].Unused?;
  }

  /** Slots 1 and 32 stand for two records of one key. */
  lemma TwiceInTable(c: Sys, live: map<Bytes, Addr>)
    requires Fits(Cfg()) && |c.tbl| == 160 && c.tbl[1].Used? && c.tbl[32].Used?
    requires c.tbl[1].pba == Addr(0, 33) && c.tbl[32].pba == Addr(0, 1)
    requires forall p :: p == Addr(0, 33) || p == Addr(0, 1) ==> p in c.core.disk && c.core.disk[p].key == Key(1)
    ensures !Agree(Cfg(), c.tbl, At(c, live))
  {
    if Agree(Cfg(), c.tbl, At(c, live)) {
      EntryIsMapped(Cfg(), c.tbl, At(c, live), 1);
      EntryIsMapped(Cfg(), c.tbl, At(c, live), 32);
      assert false;
    }
  }

  /** The second CREATE of key [1]. */
  lemma CreateAgain(events: seq<Event>, run: seq<Sys>) returns (events': seq<Event>, run': seq<Sys>)
    requires Fits(Cfg()) && SysRun(Cfg(), events, run) && LeftHole(run[|events|])
    ensures SysRun(Cfg(), events', run') && Longer(events, run, events', run', 3)
    ensures var j := |events| + 2;
            Creates(events', run', j, Addr(0, 33)) && run'[j].core.disk[Addr(0, 33)].key == Key(1)
    ensures forall live :: !Agree(Cfg(), run'[|events'|].tbl, At(run'[|events'|], live))
  {
    var events1, run1 := WriteNext(events, run, 33, Key(1));
    HoleMisses();
    events', run' := InsertNext(events1, run1, Addr(0, 33), 1);
    forall live ensures !Agree(Cfg(), run'[|events'|].tbl, At(run'[|events'|], live)) {
      TwiceInTable(run'[|events'|], live);
    }
  }

  lemma GetMisses(run: seq<Sys>, m: nat)
    requires Fits(Cfg()) && m < |run| && run[m].tbl == Holed()
    ensures Gets(Cfg(), run, Key(1), [m], [], Answer.Miss)
  {
    HoleMisses();
    assert IsCommon(run[m].tbl, Cfg().fp(Key(1)), [], Common.Miss(NoData(1)));
  }

  /** Without the condition that no displacement leaves a hole, the guarantees of the threads fail.
      After a REPLACE that was rejected, a get misses a key whose record is mapped; a second
      CREATE of that key succeeds; and then the table stands for no key map. */
  lemma HoleMisleads() returns (events: seq<Event>, run: seq<Sys>, m: nat)
    ensures Fits(Cfg()) && SysRun(Cfg(), events, run) && !Clean(Cfg(), events, run)
    ensures m < |run| && Gets(Cfg(), run, Key(1), [m], [], Answer.Miss)
    ensures Addr(0, 1) in run[m].core.disk && run[m].core.disk[Addr(0, 1)].key == Key(1)
    ensures Addr(0, 1) in run[m].phase && run[m].phase[Addr(0, 1)].Live?
    ensures var j := |events| - 1;
            && 6 < j && Creates(events, run, 6, Addr(0, 1)) && Creates(events, run, j, Addr(0, 33))
            && run[6].core.disk[Addr(0, 1)].key == run[j].core.disk[Addr(0, 33)].key
    ensures forall live :: !Agree(Cfg(), run[|events|].tbl, At(run[|events|], live))
  {
    CfgFits();
    var events0, run0 := RunToHole();
    m := |events0|;
    events, run := CreateAgain(events0, run0);
    CreatesStays(events0, run0, events, run, 3, 6, Addr(0, 1));
    assert run[m] == run0[m];
    GetMisses(run, m);
    if Clean(Cfg(), events, run) {
      CreateOnce(Cfg(), events, run, 6, |events| - 1, Addr(0, 1), Addr(0, 33));
    }
  }
}
