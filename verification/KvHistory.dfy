/** What a run of the store has left behind, said in terms of its actions alone: which write every
    record comes from, which put a key's value is from, and what the key-value map is. And so what a
    get returns while threads are at work. */
module KvHistory {
  import opened Arith
  import opened Extents
  import opened Octets
  import opened Hopscotch
  import opened HopTable
  import opened KvStore
  import opened KvRuns
  import opened KvRecovery
  import opened KvThreads
  import opened KvConcurrency

  // ---------------------------------------------------------------- trails

  /** A run of the store with steps in which nothing happens. */
  ghost predicate Trail(g: Geometry, fx: seq<Effect>, states: seq<State>) requires Ok(g) {
    && |states| == |fx| + 1 && states[0] == Init()
    && forall i {:trigger ActsIn(g, fx, states, i)} :: 0 <= i < |fx| ==> ActsIn(g, fx, states, i)
  }

  ghost predicate ActsIn(g: Geometry, fx: seq<Effect>, states: seq<State>, i: nat)
    requires Ok(g) && i < |fx| && i + 1 < |states|
  {
    Acts(g, states[i], fx[i], states[i + 1])
  }

  function Effects(acts: seq<Action>): seq<Effect> {
    seq(|acts|, i requires 0 <= i < |acts| => Does(acts[i]))
  }

  lemma RunIsTrail(g: Geometry, acts: seq<Action>, states: seq<State>)
    requires Ok(g) && IsRun(g, acts, states)
    ensures Trail(g, Effects(acts), states)
  {
    forall i | 0 <= i < |acts| ensures ActsIn(g, Effects(acts), states, i) {
      assert Effects(acts)[i] == Does(acts[i]);
    }
  }

  lemma {:induction false} TrailKeepsInv(g: Geometry, fx: seq<Effect>, states: seq<State>, n: nat)
    requires Ok(g) && Trail(g, fx, states) && n < |states|
    ensures Inv(g, states[n])
  {
    if n > 0 {
      TrailKeepsInv(g, fx, states, n - 1);
      assert ActsIn(g, fx, states, n - 1);
      if fx[n - 1].Does? {
        StepKeepsInv(g, states[n - 1], fx[n - 1].a);
      }
    }
  }

  /** Records on the device do not change. */
  lemma ActsKeepsRecord(g: Geometry, s: State, f: Effect, u: State, p: Addr)
    requires Ok(g) && Inv(g, s) && Acts(g, s, f, u) && p in s.core.disk
    ensures p in u.core.disk && u.core.disk[p] == s.core.disk[p]
  {
    if f.Does? {
      StepAgesAt(g, s, f.a, p);
    }
  }

  // ---------------------------------------------------------------- where records come from

  predicate IsGc(f: Effect) { f.Does? && f.a.Relocate? }

  ghost predicate NoGcTo(fx: seq<Effect>, n: nat) { forall i :: 0 <= i < n && i < |fx| ==> !IsGc(fx[i]) }

  /** Effect `i` wrote the record `r`: its key, its value, and the timestamp of the segment. */
  ghost predicate WroteRec(fx: seq<Effect>, states: seq<State>, i: nat, r: Rec) {
    && i < |fx| && i < |states| && fx[i].Does? && fx[i].a.Write?
    && r.key == fx[i].a.key && r.val == fx[i].a.val
    && fx[i].a.p.seg in states[i].core.segTs && r.ts == states[i].core.segTs[fx[i].a.p.seg]
  }

  lemma NewRecord(g: Geometry, s: State, a: Action, p: Addr)
    requires Ok(g) && Enabled(g, s, a) && p !in s.core.disk && p in Apply(g, s, a).core.disk
    ensures (a.Write? && a.p == p && a.p.seg in s.core.segTs
             && Apply(g, s, a).core.disk[p] == Rec(a.key, a.val, s.core.segTs[a.p.seg]))
         || (a.Relocate? && Apply(g, s, a).core.disk[p] == s.core.disk[s.live[a.key]])
  {
    if a.Map? { MapSame(g, s, a.p, a.op); }
  }

  /** Every record on the device, also a copy made by GC, has the key, the value and the timestamp of
      one write; without GC, of the write to that very extent. */
  lemma {:induction false} RecordIsWritten(g: Geometry, fx: seq<Effect>, states: seq<State>, n: nat, p: Addr)
      returns (i: nat)
    requires Ok(g) && Trail(g, fx, states) && n < |states| && p in states[n].core.disk
    ensures i < n && WroteRec(fx, states, i, states[n].core.disk[p])
    ensures NoGcTo(fx, n) ==> fx[i].a.p == p
    decreases n
  {
    if n == 0 {
      assert false;
    }
    var s, f := states[n - 1], fx[n - 1];
    TrailKeepsInv(g, fx, states, n - 1);
    assert ActsIn(g, fx, states, n - 1);
    if p in s.core.disk {
      ActsKeepsRecord(g, s, f, states[n], p);
      i := RecordIsWritten(g, fx, states, n - 1, p);
    } else {
      NewRecord(g, s, f.a, p);
      if f.a.Write? {
        i := n - 1;
      } else {
        i := RecordIsWritten(g, fx, states, n - 1, s.live[f.a.key]);
      }
    }
  }

  /** The same of runs given by their actions. */
  lemma RunRecordIsWritten(g: Geometry, acts: seq<Action>, states: seq<State>, n: nat, p: Addr) returns (i: nat)
    requires Ok(g) && IsRun(g, acts, states) && n < |states| && p in states[n].core.disk
    ensures i < n && acts[i].Write? && (WithoutGc(acts) ==> acts[i].p == p)
    ensures states[n].core.disk[p].key == acts[i].key && states[n].core.disk[p].val == acts[i].val
  {
    RunIsTrail(g, acts, states);
    i := RecordIsWritten(g, Effects(acts), states, n, p);
    assert Effects(acts)[i] == Does(acts[i]);
    if WithoutGc(acts) {
      forall j | 0 <= j < n ensures !IsGc(Effects(acts)[j]) {
        assert Effects(acts)[j] == Does(acts[j]);
      }
    }
  }

  // ---------------------------------------------------------------- what a put wrote

  /** The last write to extent `p` before step `n`, or -1. */
  function LastWrite(fx: seq<Effect>, n: nat, p: Addr): (i: int)
    requires n <= |fx|
    ensures -1 <= i < n && (i >= 0 ==> fx[i].Does? && fx[i].a.Write? && fx[i].a.p == p)
  {
    if n == 0 then -1
    else if fx[n - 1].Does? && fx[n - 1].a.Write? && fx[n - 1].a.p == p then n - 1
    else LastWrite(fx, n - 1, p)
  }

  ghost predicate Holds(fx: seq<Effect>, n: nat, s: State, p: Addr) requires n <= |fx| {
    var i := LastWrite(fx, n, p);
    && (i >= 0 ==> p in s.core.disk && s.core.disk[p].key == fx[i].a.key && s.core.disk[p].val == fx[i].a.val)
    && (p in s.phase && s.phase[p].InFlight? ==> i >= 0)
  }

  lemma InFlightIsNew(g: Geometry, s: State, a: Action, p: Addr)
    requires Ok(g) && Inv(g, s) && Enabled(g, s, a)
    requires p in Apply(g, s, a).phase && Apply(g, s, a).phase[p].InFlight?
    ensures (p in s.phase && s.phase[p].InFlight?) || (a.Write? && a.p == p)
  {
  }

  /** An extent that was written holds what was written to it, and one in flight was written. */
  lemma {:induction false} ExtentHolds(g: Geometry, fx: seq<Effect>, states: seq<State>, n: nat, p: Addr)
    requires Ok(g) && Trail(g, fx, states) && n < |states|
    ensures Holds(fx, n, states[n], p)
  {
    if n > 0 {
      var s, f := states[n - 1], fx[n - 1];
      ExtentHolds(g, fx, states, n - 1, p);
      TrailKeepsInv(g, fx, states, n - 1);
      assert ActsIn(g, fx, states, n - 1);
      if p in s.core.disk { ActsKeepsRecord(g, s, f, states[n], p); }
      if f.Does? && p in states[n].phase && states[n].phase[p].InFlight? { InFlightIsNew(g, s, f.a, p); }
    }
  }

  // ---------------------------------------------------------------- whose value a key has

  /** In step `m` a put of key `k` enters the map. */
  ghost predicate Installs(g: Geometry, fx: seq<Effect>, states: seq<State>, m: nat, k: Bytes) requires Ok(g) {
    && m < |fx| && m < |states| && fx[m].Does? && fx[m].a.Map? && Enabled(g, states[m], fx[m].a)
    && states[m].core.disk[fx[m].a.p].key == k && MapOutcome(g, states[m], fx[m].a.p, fx[m].a.op).Installed?
  }

  ghost predicate NoInstall(g: Geometry, fx: seq<Effect>, states: seq<State>, lo: nat, hi: nat, k: Bytes)
    requires Ok(g)
  {
    forall m {:trigger Installs(g, fx, states, m, k)} :: lo <= m < hi ==> !Installs(g, fx, states, m, k)
  }

  /** The value of a key that no step but a put of it changes. */
  ghost predicate SameValue(s: State, u: State, k: Bytes) {
    && (k in u.live <==> k in s.live)
    && (k in s.live ==>
          && s.live[k] in s.core.disk && u.live[k] in u.core.disk
          && u.core.disk[u.live[k]] == s.core.disk[s.live[k]])
  }

  lemma OtherKeepsValue(g: Geometry, s: State, a: Action, k: Bytes)
    requires Ok(g) && Inv(g, s) && Enabled(g, s, a) && !a.Relocate?
    requires !(a.Map? && s.core.disk[a.p].key == k && MapOutcome(g, s, a.p, a.op).Installed?)
    ensures SameValue(s, Apply(g, s, a), k)
  {
    if k in s.live {
      assert Mapped(s, k);
      StepAgesAt(g, s, a, s.live[k]);
    }
  }

  lemma RelocateKeepsValue(g: Geometry, s: State, key: Bytes, seg: nat, k: Bytes)
    requires Ok(g) && Inv(g, s) && Enabled(g, s, Relocate(key, seg))
    ensures SameValue(s, Apply(g, s, Relocate(key, seg)), k)
  {
    FrontierIsFresh(g, s.core, seg);
    if k in s.live {
      assert Mapped(s, k);
      StepAgesAt(g, s, Relocate(key, seg), s.live[k]);
    }
  }

  lemma StepKeepsValue(g: Geometry, fx: seq<Effect>, states: seq<State>, n: nat, k: Bytes)
    requires Ok(g) && Trail(g, fx, states) && n < |fx| && !Installs(g, fx, states, n, k)
    ensures SameValue(states[n], states[n + 1], k)
  {
    TrailKeepsInv(g, fx, states, n);
    assert ActsIn(g, fx, states, n);
    if fx[n].Stutter? {
      if k in states[n].live { assert Mapped(states[n], k); }
    } else if fx[n].a.Relocate? {
      RelocateKeepsValue(g, states[n], fx[n].a.key, fx[n].a.seg, k);
    } else {
      OtherKeepsValue(g, states[n], fx[n].a, k);
    }
  }

  /** A put enters the map in the extent it wrote, and so with the key and value it was given. */
  lemma InstallIsWritten(g: Geometry, fx: seq<Effect>, states: seq<State>, j: nat, k: Bytes) returns (i: nat)
    requires Ok(g) && Trail(g, fx, states) && Installs(g, fx, states, j, k)
    ensures i < j && fx[i].Does? && fx[i].a.Write? && fx[i].a.p == fx[j].a.p && fx[i].a.key == k
    ensures var u := states[j + 1];
            k in u.live && u.live[k] in u.core.disk && u.core.disk[u.live[k]].key == k
            && u.core.disk[u.live[k]].val == fx[i].a.val
  {
    var p := fx[j].a.p;
    ExtentHolds(g, fx, states, j, p);
    assert ActsIn(g, fx, states, j);
    MapSame(g, states[j], p, fx[j].a.op);
    i := LastWrite(fx, j, p);
  }

  /** The value of a mapped key is that of the write whose put entered the map last. */
  lemma {:induction false} LastPut(g: Geometry, fx: seq<Effect>, states: seq<State>, n: nat, k: Bytes)
      returns (i: nat, j: nat)
    requires Ok(g) && Trail(g, fx, states) && n < |states| && k in states[n].live
    ensures i < j < n && fx[i].Does? && fx[i].a.Write? && fx[i].a.key == k
    ensures Installs(g, fx, states, j, k) && fx[j].a.p == fx[i].a.p && NoInstall(g, fx, states, j + 1, n, k)
    ensures var s := states[n];
            s.live[k] in s.core.disk && s.core.disk[s.live[k]].key == k && s.core.disk[s.live[k]].val == fx[i].a.val
    decreases n
  {
    if n == 0 {
      assert false;
    }
    if Installs(g, fx, states, n - 1, k) {
      j := n - 1;
      i := InstallIsWritten(g, fx, states, j, k);
    } else {
      StepKeepsValue(g, fx, states, n - 1, k);
      i, j := LastPut(g, fx, states, n - 1, k);
    }
  }

  /** A key that no put has entered is not mapped, and one that a put has entered stays mapped. */
  lemma {:induction false} MappedIsInstalled(g: Geometry, fx: seq<Effect>, states: seq<State>, n: nat, k: Bytes)
    requires Ok(g) && Trail(g, fx, states) && n < |states|
    ensures k !in states[n].live <==> NoInstall(g, fx, states, 0, n, k)
  {
    if n > 0 {
      MappedIsInstalled(g, fx, states, n - 1, k);
      if Installs(g, fx, states, n - 1, k) {
        var i := InstallIsWritten(g, fx, states, n - 1, k);
      } else {
        StepKeepsValue(g, fx, states, n - 1, k);
        assert NoInstall(g, fx, states, 0, n, k) <==> NoInstall(g, fx, states, 0, n - 1, k);
      }
    }
  }

  // ---------------------------------------------------------------- the key-value map

  /** What the store holds: the value of every mapped key. */
  ghost function View(s: State): map<Bytes, Bytes> {
    map k | k in s.live && s.live[k] in s.core.disk :: s.core.disk[s.live[k]].val
  }

  /** The order of two extents: by position in a segment, else by the timestamp in the header of the
      first against that of the second's segment. */
  predicate Precedes(c: Core, was: Addr, to: Addr) {
    if was.seg == to.seg then was.off < to.off
    else was in c.disk && to.seg in c.segTs && c.disk[was].ts < c.segTs[to.seg]
  }

  /** Whether a put may take effect. A CREATE needs the key to be absent and a REPLACE needs it to be
      present; where it is present, the new record must be later than the old one. */
  predicate Permitted(op: Op, present: bool, later: bool) {
    match op
    case Normal => !present || later
    case Create => !present
    case Replace => present && later
  }

  /** The key-value map that the actions stand for: every put that may take effect sets its key to its
      value, as they were written, and nothing else changes it. */
  ghost function Meaning(fx: seq<Effect>, states: seq<State>, n: nat): map<Bytes, Bytes>
    requires n <= |fx| <= |states|
  {
    if n == 0 then map[]
    else
      var m, s, f := Meaning(fx, states, n - 1), states[n - 1], fx[n - 1];
      if f.Does? && f.a.Map? && LastWrite(fx, n - 1, f.a.p) >= 0 then
        var w := fx[LastWrite(fx, n - 1, f.a.p)].a;
        if Permitted(f.a.op, w.key in m, w.key in s.live && Precedes(s.core, s.live[w.key], f.a.p))
        then m[w.key := w.val] else m
      else m
  }

  lemma SameValueSameView(s: State, u: State, k: Bytes)
    requires SameValue(s, u, k)
    ensures (k in View(u) <==> k in View(s)) && (k in View(s) ==> View(u)[k] == View(s)[k])
  {
  }

  lemma ViewKeys(g: Geometry, s: State, k: Bytes)
    requires Ok(g) && Inv(g, s)
    ensures k in View(s) <==> k in s.live
  {
    if k in s.live { assert Mapped(s, k); }
  }

  /** Whether a put is permitted is what the outcome of its Map action says. */
  lemma OutcomePermits(g: Geometry, s: State, p: Addr, op: Op)
    requires Ok(g) && Inv(g, s) && Enabled(g, s, Map(p, op))
    ensures var k := s.core.disk[p].key;
            MapOutcome(g, s, p, op).Installed? <==>
            Permitted(op, k in s.live, k in s.live && Precedes(s.core, s.live[k], p))
  {
    var k := s.core.disk[p].key;
    if k in s.live { assert Mapped(s, k); }
  }

  lemma MapMeans(g: Geometry, fx: seq<Effect>, states: seq<State>, n: nat, k: Bytes)
    requires Ok(g) && Trail(g, fx, states) && n < |fx| && fx[n].Does? && fx[n].a.Map?
    requires View(states[n]) == Meaning(fx, states, n)
    ensures var v, m := View(states[n + 1]), Meaning(fx, states, n + 1);
            (k in v <==> k in m) && (k in v ==> v[k] == m[k])
  {
    var s, p, op := states[n], fx[n].a.p, fx[n].a.op;
    TrailKeepsInv(g, fx, states, n);
    assert ActsIn(g, fx, states, n);
    ExtentHolds(g, fx, states, n, p);
    OutcomePermits(g, s, p, op);
    ViewKeys(g, s, s.core.disk[p].key);
    if Installs(g, fx, states, n, k) {
      var i := InstallIsWritten(g, fx, states, n, k);
      MapSame(g, s, p, op);
    } else {
      StepKeepsValue(g, fx, states, n, k);
      SameValueSameView(s, states[n + 1], k);
    }
  }

  /** In every state of every run the store holds exactly what its puts mean. */
  lemma {:induction false} ViewIsMeaning(g: Geometry, fx: seq<Effect>, states: seq<State>, n: nat)
    requires Ok(g) && Trail(g, fx, states) && n < |states|
    ensures View(states[n]) == Meaning(fx, states, n)
  {
    if n > 0 {
      ViewIsMeaning(g, fx, states, n - 1);
      var v, m := View(states[n]), Meaning(fx, states, n);
      forall k ensures (k in v <==> k in m) && (k in v ==> v[k] == m[k]) {
        if fx[n - 1].Does? && fx[n - 1].a.Map? {
          MapMeans(g, fx, states, n - 1, k);
        } else {
          StepKeepsValue(g, fx, states, n - 1, k);
          SameValueSameView(states[n - 1], states[n], k);
        }
      }
    }
  }

  // ---------------------------------------------------------------- segments

  /** How many segments were opened before step `n`. */
  function Opens(fx: seq<Effect>, n: nat): nat requires n <= |fx| {
    if n == 0 then 0 else Opens(fx, n - 1) + if fx[n - 1].Does? && fx[n - 1].a.Open? then 1 else 0
  }

  lemma ActsCounts(g: Geometry, s: State, f: Effect, u: State, x: nat)
    requires Ok(g) && Acts(g, s, f, u)
    ensures u.core.allocNr == s.core.allocNr + if f.Does? && f.a.Open? then 1 else 0
    ensures f.Does? && f.a == Open(x) ==> x in u.core.segTs && u.core.segTs[x] == u.core.allocNr
    ensures x in s.core.segTs ==> x in u.core.segTs && u.core.segTs[x] == s.core.segTs[x]
  {
    if f.Does? && f.a.Map? { MapSame(g, s, f.a.p, f.a.op); }
  }

  /** Segments get the numbers 1, 2, ... as their timestamps, in the order in which they are opened, and
      keep them. */
  lemma {:induction false} OpensNumber(g: Geometry, fx: seq<Effect>, states: seq<State>, i: nat, x: nat, n: nat)
    requires Ok(g) && Trail(g, fx, states) && n < |states|
    ensures states[n].core.allocNr == Opens(fx, n)
    ensures i < n && fx[i] == Does(Open(x)) ==>
              x in states[n].core.segTs && states[n].core.segTs[x] == Opens(fx, i + 1)
  {
    if n > 0 {
      OpensNumber(g, fx, states, i, x, n - 1);
      assert ActsIn(g, fx, states, n - 1);
      ActsCounts(g, states[n - 1], fx[n - 1], states[n], x);
    }
  }

  ghost predicate FilledUp(g: Geometry, s: State, x: nat) requires Ok(g) {
    x in s.core.next && s.core.next[x] == Cap(g)
  }

  lemma ActionKeepsFilledUp(g: Geometry, s: State, a: Action, x: nat)
    requires Ok(g) && SegsOk(g, s.core) && Enabled(g, s, a) && FilledUp(g, s, x)
    ensures FilledUp(g, Apply(g, s, a), x)
  {
    match a {
      case Map(p, op) => MapSame(g, s, p, op);
      case _ =>
    }
  }

  lemma StaysFilledUp(g: Geometry, s: State, f: Effect, u: State, x: nat)
    requires Ok(g) && Inv(g, s) && Acts(g, s, f, u) && (FilledUp(g, s, x) || f == Does(Drain(x)))
    ensures FilledUp(g, u, x)
  {
    if f.Does? && FilledUp(g, s, x) { ActionKeepsFilledUp(g, s, f.a, x); }
  }

  predicate ReservesIn(f: Effect, x: nat) { f.Does? && (f.a.Reserve? || f.a.Relocate?) && f.a.seg == x }

  /** Nothing is reserved in a segment after it was drained, neither by a put nor by GC. */
  lemma {:induction false} DrainIsFinal(g: Geometry, fx: seq<Effect>, states: seq<State>, i: nat, x: nat, n: nat)
    requires Ok(g) && Trail(g, fx, states) && i < n < |states| && fx[i] == Does(Drain(x))
    ensures FilledUp(g, states[n], x)
    ensures n < |fx| ==> !ReservesIn(fx[n], x)
    decreases n
  {
    TrailKeepsInv(g, fx, states, n - 1);
    assert ActsIn(g, fx, states, n - 1);
    if i < n - 1 {
      DrainIsFinal(g, fx, states, i, x, n - 1);
    }
    StaysFilledUp(g, states[n - 1], fx[n - 1], states[n], x);
    if n < |fx| { assert ActsIn(g, fx, states, n); }
  }

  // ---------------------------------------------------------------- a put goes through

  /** The state after a put has gone through undisturbed. */
  ghost predicate PutsThrough(g: Geometry, s: State, seg: nat, n: nat, key: Bytes, val: Bytes, u: State)
    requires Ok(g) && CanReserve(g, s.core, seg, n)
  {
    var p := Frontier(s.core, seg);
    && Enabled(g, s, Reserve(seg, n))
    && var s1 := Apply(g, s, Reserve(seg, n));
    && Enabled(g, s1, Write(p, key, val))
    && var s2 := Apply(g, s1, Write(p, key, val));
    && Enabled(g, s2, Map(p, Normal)) && u == Apply(g, s2, Map(p, Normal))
  }

  lemma PutSteps(g: Geometry, s: State, seg: nat, n: nat, key: Bytes, val: Bytes) returns (u: State)
    requires Ok(g) && Inv(g, s) && CanReserve(g, s.core, seg, n) && n == Grains(g, |key|, |val|)
    requires Recordable(key, val) && (key in s.live ==> Precedes(s.core, s.live[key], Frontier(s.core, seg)))
    ensures PutsThrough(g, s, seg, n, key, val, u)
    ensures u.live == s.live[key := Frontier(s.core, seg)]
    ensures u.core.disk == s.core.disk[Frontier(s.core, seg) := Rec(key, val, s.core.segTs[seg])]
  {
    var p := Frontier(s.core, seg);
    FrontierIsFresh(g, s.core, seg);
    if key in s.live { assert Mapped(s, key); }
    var s1 := Apply(g, s, Reserve(seg, n));
    var s2 := Apply(g, s1, Write(p, key, val));
    u := Apply(g, s2, Map(p, Normal));
  }

  lemma NewKeyInView(g: Geometry, s: State, u: State, p: Addr, key: Bytes, r: Rec)
    requires Ok(g) && Inv(g, s) && p !in s.core.disk
    requires u.live == s.live[key := p] && u.core.disk == s.core.disk[p := r]
    ensures View(u) == View(s)[key := r.val]
  {
    forall k | k in s.live ensures s.live[k] in s.core.disk && s.live[k] != p { assert Mapped(s, k); }
  }

  lemma GrainsFit(g: Geometry, key: nat, val: nat, room: nat)
    requires Ok(g) && 14 + key + val + 2 <= room * g.grainSize
    ensures Grains(g, key, val) <= room
  {
    if room < Grains(g, key, val) {
      MulMonotone(room, Grains(g, key, val) - 1, g.grainSize);
    }
  }

  /** Wherever a segment has room for header, key, value and checksum, and the key is unmapped or its record
      is earlier, a put of a key of less than 2^16 bytes and a value of less than 2^32, not both empty,
      can go through, and then the store holds that value for the key and what it held for all others. */
  lemma PutGoesThrough(g: Geometry, s: State, seg: nat, key: Bytes, val: Bytes) returns (n: nat, u: State)
    requires Ok(g) && Inv(g, s) && seg in s.core.next
    requires key in s.live ==> Precedes(s.core, s.live[key], Addr(seg, s.core.next[seg]))
    requires |key| < 0x1_0000 && |val| < 0x1_0000_0000 && 0 < |key| + |val|
    requires 14 + |key| + |val| + 2 <= (g.segSize - g.reserved - s.core.next[seg]) * g.grainSize
    ensures CanReserve(g, s.core, seg, n) && PutsThrough(g, s, seg, n, key, val, u)
    ensures View(u) == View(s)[key := val]
  {
    n := Grains(g, |key|, |val|);
    GrainsFit(g, |key|, |val|, g.segSize - g.reserved - s.core.next[seg]);
    u := PutSteps(g, s, seg, n, key, val);
    FrontierIsFresh(g, s.core, seg);
    NewKeyInView(g, s, u, Frontier(s.core, seg), key, Rec(key, val, s.core.segTs[seg]));
  }

  // ---------------------------------------------------------------- gets

  /** The states a run of the threads goes through, with the key maps its tables stand for. */
  ghost function StatesOf(run: seq<Sys>, lives: seq<map<Bytes, Addr>>): seq<State>
    requires |lives| <= |run|
  {
    seq(|lives|, i requires 0 <= i < |lives| => At(run[i], lives[i]))
  }

  lemma TracedIsTrail(cfg: Config, events: seq<Event>, run: seq<Sys>, fx: seq<Effect>, lives: seq<map<Bytes, Addr>>)
    requires Fits(cfg) && SysRun(cfg, events, run) && Traced(cfg, events, run, fx, lives)
    ensures Trail(cfg.g, fx, StatesOf(run, lives))
  {
    var states := StatesOf(run, lives);
    forall i | 0 <= i < |fx| ensures ActsIn(cfg.g, fx, states, i) {
      assert ActsAt(cfg, events, run, fx, lives, i);
    }
  }

  /** In step `m` the put whose record is at `p` enters the map. */
  predicate Enters(events: seq<Event>, run: seq<Sys>, m: nat, p: Addr) {
    && m < |events| && |run| == |events| + 1 && IsPut(events[m]) && events[m].p == p
    && p in run[m].phase && run[m].phase[p].InFlight? && p in run[m + 1].phase && run[m + 1].phase[p].Live?
  }

  predicate EntersKey(events: seq<Event>, run: seq<Sys>, m: nat, k: Bytes) {
    && m < |events| && IsPut(events[m]) && Enters(events, run, m, events[m].p)
    && events[m].p in run[m].core.disk && run[m].core.disk[events[m].p].key == k
  }

  /** A put enters the map in the steps in which the key map says so. */
  lemma EntersIsInstalls(cfg: Config, events: seq<Event>, run: seq<Sys>, fx: seq<Effect>,
                         lives: seq<map<Bytes, Addr>>, m: nat, k: Bytes)
    requires Fits(cfg) && SysRun(cfg, events, run) && Traced(cfg, events, run, fx, lives) && m < |fx|
    ensures EntersKey(events, run, m, k) <==> Installs(cfg.g, fx, StatesOf(run, lives), m, k)
  {
    assert ActsAt(cfg, events, run, fx, lives, m) && StandsAt(cfg, run, lives, m);
    var s := At(run[m], lives[m]);
    if fx[m].Does? && fx[m].a.Map? {
      MapEnters(cfg.g, s, fx[m].a.p, fx[m].a.op);
    }
  }

  lemma MapEnters(g: Geometry, s: State, p: Addr, op: Op)
    requires Ok(g) && Inv(g, s) && Enabled(g, s, Map(p, op))
    ensures p in Apply(g, s, Map(p, op)).phase
    ensures Apply(g, s, Map(p, op)).phase[p].Live? <==> MapOutcome(g, s, p, op).Installed?
  {
    var k := s.core.disk[p].key;
    if k in s.live { assert Mapped(s, k); }
  }

  lemma WriteIsBackground(cfg: Config, events: seq<Event>, run: seq<Sys>, fx: seq<Effect>,
                          lives: seq<map<Bytes, Addr>>, i: nat)
    requires Fits(cfg) && Traced(cfg, events, run, fx, lives) && i < |fx| && fx[i].Does? && fx[i].a.Write?
    ensures events[i] == Background(fx[i].a)
  {
    assert ActsAt(cfg, events, run, fx, lives, i);
  }

  /** No put of key `k` enters the map from step `lo` on, before step `hi`. */
  ghost predicate NoneEnters(events: seq<Event>, run: seq<Sys>, lo: nat, hi: nat, k: Bytes) {
    forall m {:trigger EntersKey(events, run, m, k)} :: lo <= m < hi ==> !EntersKey(events, run, m, k)
  }

  lemma NoneEntersIs(cfg: Config, events: seq<Event>, run: seq<Sys>, fx: seq<Effect>, lives: seq<map<Bytes, Addr>>,
                     lo: nat, hi: nat, k: Bytes)
    requires Fits(cfg) && SysRun(cfg, events, run) && Traced(cfg, events, run, fx, lives) && hi <= |fx|
    requires NoInstall(cfg.g, fx, StatesOf(run, lives), lo, hi, k)
    ensures NoneEnters(events, run, lo, hi, k)
  {
    forall m: nat | lo <= m < hi ensures !EntersKey(events, run, m, k) {
      EntersIsInstalls(cfg, events, run, fx, lives, m, k);
      assert !Installs(cfg.g, fx, StatesOf(run, lives), m, k);
    }
  }

  /** What a put was given is what a get returns. A get that hits returns the key and value of a write,
      namely the one of the put that entered the map last before the get's last search of the table.
      One that misses does so because no put of its key had entered the map by then. */
  lemma GetReturnsPut(cfg: Config, events: seq<Event>, run: seq<Sys>, key: Bytes, ms: seq<nat>, out: Answer)
      returns (i: nat, j: nat)
    requires Fits(cfg) && SysRun(cfg, events, run) && Clean(cfg, events, run) && Gets(cfg, run, key, ms, [], out)
    ensures ms[|ms| - 1] < |run|
    ensures out.Hit? ==>
      && i < j < ms[|ms| - 1]
      && events[i].Background? && events[i].a.Write? && events[i].a.key == key
      && Enters(events, run, j, events[i].a.p) && NoneEnters(events, run, j + 1, ms[|ms| - 1], key)
      && out.r.key == key && out.r.val == events[i].a.val
    ensures out.Miss? ==> NoneEnters(events, run, 0, ms[|ms| - 1], key)
  {
    var fx, lives := RunIsTraced(cfg, events, run, |events|);
    GetFrom(cfg, events, run, fx, lives, key, ms, [], out);
    TracedIsTrail(cfg, events, run, fx, lives);
    i, j := AnswerIsPut(cfg, events, run, fx, lives, key, ms[|ms| - 1], out);
  }

  lemma AnswerIsPut(cfg: Config, events: seq<Event>, run: seq<Sys>, fx: seq<Effect>, lives: seq<map<Bytes, Addr>>,
                    key: Bytes, n: nat, out: Answer) returns (i: nat, j: nat)
    requires Fits(cfg) && SysRun(cfg, events, run) && Traced(cfg, events, run, fx, lives) && |fx| == |events|
    requires Trail(cfg.g, fx, StatesOf(run, lives)) && n < |run| && AnswersAt(run[n], lives[n], key, out)
    ensures out.Hit? ==>
      && i < j < n && events[i].Background? && events[i].a.Write? && events[i].a.key == key
      && Enters(events, run, j, events[i].a.p) && NoneEnters(events, run, j + 1, n, key)
      && out.r.key == key && out.r.val == events[i].a.val
    ensures out.Miss? ==> NoneEnters(events, run, 0, n, key)
  {
    var states := StatesOf(run, lives);
    i, j := 0, 0;
    if out.Hit? {
      i, j := LastPut(cfg.g, fx, states, n, key);
      WriteIsBackground(cfg, events, run, fx, lives, i);
      EntersIsInstalls(cfg, events, run, fx, lives, j, key);
      assert ActsAt(cfg, events, run, fx, lives, j);
      NoneEntersIs(cfg, events, run, fx, lives, j + 1, n, key);
    } else {
      MappedIsInstalled(cfg.g, fx, states, n, key);
      NoneEntersIs(cfg, events, run, fx, lives, 0, n, key);
    }
  }

  // ---------------------------------------------------------------- no get is stuck

  /** How many candidates for a fingerprint from slot `j` on are still to be looked at. */
  function ToVisit(t: seq<Entry>, fp: Fp, visited: seq<Addr>, j: nat): nat
    requires j <= |t|
    decreases |t| - j
  {
    if j == |t| then 0
    else ToVisit(t, fp, visited, j + 1) + if Matches(t, fp, j) && t[j].pba !in visited then 1 else 0
  }

  lemma {:induction false} VisitShrinks(t: seq<Entry>, fp: Fp, visited: seq<Addr>, i: nat, j: nat)
    requires j <= |t| && i < |t| && Matches(t, fp, i) && t[i].pba !in visited
    ensures var n, m := ToVisit(t, fp, visited, j), ToVisit(t, fp, visited + [t[i].pba], j);
            m <= n && (j <= i ==> m < n)
    decreases |t| - j
  {
    if j < |t| {
      VisitShrinks(t, fp, visited, i, j + 1);
    }
  }

  /** At any moment a get that is not disturbed comes to an answer. */
  lemma {:induction false} GetEnds(cfg: Config, run: seq<Sys>, m: nat, live: map<Bytes, Addr>, key: Bytes,
                                   visited: seq<Addr>) returns (ms: seq<nat>, out: Answer)
    requires Fits(cfg) && m < |run| && Sim(cfg, run[m], live)
    ensures Gets(cfg, run, key, ms, visited, out) && forall x :: x in ms ==> x == m
    decreases ToVisit(run[m].tbl, cfg.fp(key), visited, 0)
  {
    var c, fp := run[m], cfg.fp(key);
    var r := SearchAnswers(c.tbl, fp, visited);
    ms, out := [m], Answer.Miss;
    if r.Cand? {
      var v := c.tbl[r.i].pba;
      EntryIsMapped(cfg, c.tbl, At(c, live), r.i);
      if c.core.disk[v].key == key {
        out := Hit(c.core.disk[v]);
      } else {
        VisitShrinks(c.tbl, fp, visited, r.i, 0);
        var rest;
        rest, out := GetEnds(cfg, run, m, live, key, visited + [v]);
        ms := [m] + rest;
        assert ms[1..] == rest && rest[0] in rest;
      }
      assert Reads(cfg, run, key, ms, visited, out, v, m);
    }
  }
}
