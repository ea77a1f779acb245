/** Garbage collection of a closed segment (gc_callback and local_gc_callback of
    src/uDepot/udepot-lsa.cc), interleaved with any other actions of the store.

    The collector walks the segment from header to header. Each visit is one locked
    section: if the map still points at the record it is copied elsewhere and the map moved
    to the copy. The walk ends at the end of the segment or at the first header that was
    never written. */
module KvGc {
  import opened Extents
  import opened Octets
  import opened KvStore
  import opened KvRuns
  import opened KvRecovery

  datatype Progress = Walking(off: nat) | Finished | GaveUp

  /** What happens next: another thread acts, or does something that does not concern the store;
      the collector visits a header (copying to a segment it is given, should it need to), or it
      gives up with an error. */
  datatype Event = Other(a: Action) | Idle | Visit(dest: nat) | Abort

  /** All its grains are handed out and no put is still at work in it. */
  ghost predicate Closed(g: Geometry, s: State, seg: nat) requires Ok(g) {
    && seg in s.core.next && s.core.next[seg] == Cap(g)
    && forall p :: p in s.phase && p.seg == seg ==> !s.phase[p].Reserved? && !s.phase[p].InFlight?
  }

  /** The header at `off` is followed by as much of the segment as it says it needs. */
  predicate InBounds(g: Geometry, r: Rec, off: nat) {
    off * g.grainSize + HEADER + |r.key| + |r.val| <= g.segSize * g.grainSize
  }

  /** The walk goes on from the header at `p`: it was written, says something, and is in bounds. */
  predicate Goes(g: Geometry, c: Core, p: Addr) {
    && p.off < g.segSize && p in c.disk
    && (c.disk[p].key != [] || c.disk[p].val != []) && InBounds(g, c.disk[p], p.off)
  }

  predicate IsMapped(s: State, p: Addr) {
    p in s.core.disk && s.core.disk[p].key in s.live && s.live[s.core.disk[p].key] == p
  }

  ghost predicate GcStep(g: Geometry, seg: nat, s: State, w: Progress, e: Event, t: State, v: Progress) requires Ok(g) {
    match e
    case Other(a) => Enabled(g, s, a) && t == Apply(g, s, a) && v == w
    case Idle => t == s && v == w
    case Abort => w.Walking? && t == s && v == GaveUp
    case Visit(dest) =>
      w.Walking? && Visits(g, seg, s, w.off, dest, t, v)
  }

  ghost predicate Visits(g: Geometry, seg: nat, s: State, off: nat, dest: nat, t: State, v: Progress) requires Ok(g) {
    var p := Addr(seg, off);
    if !Goes(g, s.core, p) then
      t == s && v == Finished
    else
      var r := s.core.disk[p];
      && v == Walking(off + Grains(g, |r.key|, |r.val|))
      && if IsMapped(s, p) then Enabled(g, s, Relocate(r.key, dest)) && t == Apply(g, s, Relocate(r.key, dest))
         else t == s
  }

  /** A visit goes on only from a record that says something and ends within the segment, and to where
      the next one starts. */
  lemma VisitStaysInside(g: Geometry, seg: nat, s: State, off: nat, dest: nat, t: State, v: Progress)
    requires Ok(g) && Visits(g, seg, s, off, dest, t, v) && v.Walking?
    ensures off < g.segSize && Addr(seg, off) in s.core.disk
    ensures var r := s.core.disk[Addr(seg, off)];
            && 0 < |r.key| + |r.val| && off * g.grainSize + 14 + |r.key| + |r.val| <= g.segSize * g.grainSize
            && (v.off - off - 1) * g.grainSize < 14 + |r.key| + |r.val| + 2 <= (v.off - off) * g.grainSize
  {
  }

  // ---------------------------------------------------------------- what every action keeps

  lemma MapKeepsClosed(g: Geometry, s: State, p: Addr, op: Op, seg: nat)
    requires Ok(g) && Inv(g, s) && Closed(g, s, seg) && Enabled(g, s, Map(p, op))
    ensures Closed(g, Apply(g, s, Map(p, op)), seg)
  {
    MapSame(g, s, p, op);
    if s.core.disk[p].key in s.live { assert Mapped(s, s.core.disk[p].key); }
  }

  lemma StepKeepsClosed(g: Geometry, s: State, a: Action, seg: nat)
    requires Ok(g) && Inv(g, s) && Closed(g, s, seg) && Enabled(g, s, a)
    ensures Closed(g, Apply(g, s, a), seg)
  {
    match a {
      case Map(p, op) => MapKeepsClosed(g, s, p, op, seg);
      case Relocate(key, d) => assert Mapped(s, key);
      case _ =>
    }
  }

  /** No action maps a record of a closed segment again, nor changes what is written there. */
  ghost predicate Stays(s: State, t: State, p: Addr) {
    && (p in t.core.disk <==> p in s.core.disk)
    && (p in s.core.disk ==> t.core.disk[p] == s.core.disk[p])
    && (p in t.core.size <==> p in s.core.size)
    && (p in s.core.size ==> t.core.size[p] == s.core.size[p])
    && (IsMapped(t, p) ==> IsMapped(s, p))
  }

  lemma StepStays(g: Geometry, s: State, a: Action, seg: nat, p: Addr)
    requires Ok(g) && Inv(g, s) && Closed(g, s, seg) && Enabled(g, s, a) && p.seg == seg
    ensures Stays(s, Apply(g, s, a), p)
  {
    match a {
      case Map(q, op) => MapSame(g, s, q, op);
      case Relocate(key, d) =>
        assert Mapped(s, key);
        if p in s.core.disk { assert s.core.disk[p].key in s.live ==> Mapped(s, s.core.disk[p].key); }
      case _ =>
    }
  }

  // ---------------------------------------------------------------- what the walk has done so far

  /** Every extent below `off` was written and is no longer mapped, and `off` is where one of
      them ends. */
  ghost predicate Swept(s: State, seg: nat, off: nat) {
    && (forall p {:trigger SweptAt(s, seg, off, p)} :: SweptAt(s, seg, off, p))
    && (off == 0 || exists p :: EndsAt(s, p, Addr(seg, off)))
  }

  predicate SweptAt(s: State, seg: nat, off: nat, p: Addr) {
    p in s.core.size && p.seg == seg && p.off < off ==> p in s.core.disk && !IsMapped(s, p)
  }

  ghost predicate EndsAt(s: State, p: Addr, q: Addr) { p in s.core.size && After(s.core, p) == q }

  /** No record that the walk can reach is mapped. */
  ghost predicate Emptied(s: State, seg: nat) {
    forall p {:trigger EmptiedAt(s, seg, p)} :: EmptiedAt(s, seg, p)
  }

  ghost predicate EmptiedAt(s: State, seg: nat, p: Addr) {
    p in s.core.size && p.seg == seg && Reached(s.core, p) ==> !IsMapped(s, p)
  }

  ghost predicate Walked(s: State, seg: nat, w: Progress) {
    match w
    case Walking(off) => Swept(s, seg, off)
    case Finished => Emptied(s, seg)
    case GaveUp => true
  }

  lemma StaysReached(g: Geometry, s: State, a: Action, seg: nat, p: Addr)
    requires Ok(g) && Inv(g, s) && Closed(g, s, seg) && Enabled(g, s, a) && p.seg == seg
    ensures Reached(Apply(g, s, a).core, p) <==> Reached(s.core, p)
  {
    var t := Apply(g, s, a);
    forall q: Addr | q.seg == seg
      ensures (q in t.core.size <==> q in s.core.size) && (q in t.core.disk <==> q in s.core.disk)
    {
      StepStays(g, s, a, seg, q);
    }
  }

  lemma OtherKeepsSwept(g: Geometry, s: State, a: Action, seg: nat, off: nat)
    requires Ok(g) && Inv(g, s) && Closed(g, s, seg) && Enabled(g, s, a) && Swept(s, seg, off)
    ensures Swept(Apply(g, s, a), seg, off)
  {
    var t := Apply(g, s, a);
    forall p ensures SweptAt(t, seg, off, p) {
      assert SweptAt(s, seg, off, p);
      if p.seg == seg { StepStays(g, s, a, seg, p); }
    }
    if off > 0 {
      var p :| EndsAt(s, p, Addr(seg, off));
      StepStays(g, s, a, seg, p);
      assert EndsAt(t, p, Addr(seg, off));
    }
  }

  lemma OtherKeepsEmptied(g: Geometry, s: State, a: Action, seg: nat)
    requires Ok(g) && Inv(g, s) && Closed(g, s, seg) && Enabled(g, s, a) && Emptied(s, seg)
    ensures Emptied(Apply(g, s, a), seg)
  {
    var t := Apply(g, s, a);
    forall p ensures EmptiedAt(t, seg, p) {
      assert EmptiedAt(s, seg, p);
      if p.seg == seg {
        StepStays(g, s, a, seg, p);
        StaysReached(g, s, a, seg, p);
      }
    }
  }

  /** A record that was written says something and lies within its segment: the walk's checks never
      end it. */
  lemma WrittenInBounds(g: Geometry, s: State, p: Addr)
    requires Ok(g) && Inv(g, s) && p in s.core.disk
    ensures Goes(g, s.core, p)
  {
    assert Logged(g, s, p) && Placed(g, s.core, p);
    ExtentFits(s.core.size[p], p.off, g.segSize, g.grainSize, |s.core.disk[p].key| + |s.core.disk[p].val|);
  }

  /** As long as an extent lies ahead, the walk stands at one. */
  lemma StandsAtExtent(g: Geometry, s: State, seg: nat, off: nat, q: Addr)
    requires Ok(g) && Inv(g, s) && Swept(s, seg, off) && q in s.core.size && q.seg == seg && off <= q.off
    ensures Addr(seg, off) in s.core.size
  {
    assert Placed(g, s.core, q);
    if off > 0 {
      var p :| EndsAt(s, p, Addr(seg, off));
      assert Placed(g, s.core, p);
      assert Apart(s.core, p, q);
    }
  }

  /** Where the next header is missing or unwritten, nothing further can be reached. */
  lemma WalkEnds(g: Geometry, s: State, seg: nat, off: nat)
    requires Ok(g) && Inv(g, s) && Swept(s, seg, off) && Addr(seg, off) !in s.core.disk
    ensures Emptied(s, seg)
  {
    forall q ensures EmptiedAt(s, seg, q) {
      assert SweptAt(s, seg, off, q);
      if q in s.core.size && q.seg == seg && off <= q.off {
        StandsAtExtent(g, s, seg, off, q);
      }
    }
  }

  lemma VisitSweeps(g: Geometry, s: State, seg: nat, off: nat, r: Rec)
    requires Ok(g) && Inv(g, s) && Swept(s, seg, off) && !IsMapped(s, Addr(seg, off))
    requires Addr(seg, off) in s.core.disk && s.core.disk[Addr(seg, off)] == r
    ensures Swept(s, seg, off + Grains(g, |r.key|, |r.val|))
  {
    var x := Addr(seg, off);
    assert Logged(g, s, x) && Placed(g, s.core, x);
    var end := off + s.core.size[x];
    assert EndsAt(s, x, Addr(seg, end));
    forall q ensures SweptAt(s, seg, end, q) {
      assert SweptAt(s, seg, off, q);
      assert q in s.core.size ==> Apart(s.core, x, q);
    }
  }

  /** A visit that finds the record mapped moves the map away from it. */
  lemma RelocateUnmaps(g: Geometry, s: State, p: Addr, dest: nat)
    requires Ok(g) && Inv(g, s) && IsMapped(s, p) && Enabled(g, s, Relocate(s.core.disk[p].key, dest))
    ensures !IsMapped(Apply(g, s, Relocate(s.core.disk[p].key, dest)), p)
  {
    var k := s.core.disk[p].key;
    assert Mapped(s, k);
    FrontierIsFresh(g, s.core, dest);
  }

  lemma MoveUnmaps(g: Geometry, seg: nat, s: State, off: nat, a: Action)
    requires Ok(g) && Inv(g, s) && Closed(g, s, seg) && Swept(s, seg, off) && IsMapped(s, Addr(seg, off))
    requires a.Relocate? && a.key == s.core.disk[Addr(seg, off)].key && Enabled(g, s, a)
    ensures var t, p := Apply(g, s, a), Addr(seg, off);
            && Inv(g, t) && Closed(g, t, seg) && Swept(t, seg, off)
            && !IsMapped(t, p) && p in t.core.disk && t.core.disk[p] == s.core.disk[p]
  {
    var p := Addr(seg, off);
    StepKeepsInv(g, s, a);
    StepKeepsClosed(g, s, a, seg);
    OtherKeepsSwept(g, s, a, seg, off);
    RelocateUnmaps(g, s, p, a.seg);
    StepStays(g, s, a, seg, p);
  }

  /** A visit to a written header passes it, whatever the bounds check says. */
  lemma VisitPasses(g: Geometry, seg: nat, s: State, off: nat, dest: nat, t: State, v: Progress)
    requires Ok(g) && Inv(g, s) && Addr(seg, off) in s.core.disk && Visits(g, seg, s, off, dest, t, v)
    ensures var p := Addr(seg, off); var r := s.core.disk[p];
            && v == Walking(off + Grains(g, |r.key|, |r.val|))
            && if IsMapped(s, p) then Enabled(g, s, Relocate(r.key, dest)) && t == Apply(g, s, Relocate(r.key, dest))
               else t == s
  {
    WrittenInBounds(g, s, Addr(seg, off));
  }

  lemma RecordKeepsWalked(g: Geometry, seg: nat, s: State, off: nat, dest: nat, t: State, v: Progress)
    requires Ok(g) && Inv(g, s) && Closed(g, s, seg) && Swept(s, seg, off)
    requires Addr(seg, off) in s.core.disk && Visits(g, seg, s, off, dest, t, v)
    ensures Inv(g, t) && Closed(g, t, seg) && Walked(t, seg, v)
  {
    var p := Addr(seg, off);
    VisitPasses(g, seg, s, off, dest, t, v);
    if IsMapped(s, p) {
      MoveUnmaps(g, seg, s, off, Relocate(s.core.disk[p].key, dest));
    }
    VisitSweeps(g, t, seg, off, s.core.disk[p]);
  }

  lemma VisitKeepsWalked(g: Geometry, seg: nat, s: State, w: Progress, dest: nat, t: State, v: Progress)
    requires Ok(g) && Inv(g, s) && Closed(g, s, seg) && Walked(s, seg, w)
    requires GcStep(g, seg, s, w, Visit(dest), t, v)
    ensures Inv(g, t) && Closed(g, t, seg) && Walked(t, seg, v)
  {
    if Addr(seg, w.off) !in s.core.disk {
      WalkEnds(g, s, seg, w.off);
    } else {
      RecordKeepsWalked(g, seg, s, w.off, dest, t, v);
    }
  }

  lemma GcStepKeeps(g: Geometry, seg: nat, s: State, w: Progress, e: Event, t: State, v: Progress)
    requires Ok(g) && Inv(g, s) && Closed(g, s, seg) && Walked(s, seg, w) && GcStep(g, seg, s, w, e, t, v)
    ensures Inv(g, t) && Closed(g, t, seg) && Walked(t, seg, v)
  {
    match e {
      case Other(a) =>
        StepKeepsInv(g, s, a);
        StepKeepsClosed(g, s, a, seg);
        match w {
          case Walking(off) => OtherKeepsSwept(g, s, a, seg, off);
          case Finished => OtherKeepsEmptied(g, s, a, seg);
          case GaveUp =>
        }
      case Idle =>
      case Abort =>
      case Visit(dest) => VisitKeepsWalked(g, seg, s, w, dest, t, v);
    }
  }

  // ---------------------------------------------------------------- whole collections

  ghost predicate GcRun(g: Geometry, seg: nat, events: seq<Event>, states: seq<State>, walk: seq<Progress>)
    requires Ok(g)
  {
    && |states| == |walk| == |events| + 1 && walk[0] == Walking(0)
    && forall i {:trigger StepAt(g, seg, events, states, walk, i)} :: 0 <= i < |events| ==>
         StepAt(g, seg, events, states, walk, i)
  }

  ghost predicate StepAt(g: Geometry, seg: nat, events: seq<Event>, states: seq<State>, walk: seq<Progress>, i: nat)
    requires Ok(g) && |states| == |walk| == |events| + 1 && i < |events|
  {
    GcStep(g, seg, states[i], walk[i], events[i], states[i + 1], walk[i + 1])
  }

  lemma {:induction false} GcRunKeeps(g: Geometry, seg: nat, events: seq<Event>, states: seq<State>,
                                      walk: seq<Progress>, n: nat)
    requires Ok(g) && GcRun(g, seg, events, states, walk) && n < |states|
    requires Inv(g, states[0]) && Closed(g, states[0], seg)
    ensures Inv(g, states[n]) && Closed(g, states[n], seg) && Walked(states[n], seg, walk[n])
  {
    if n > 0 {
      GcRunKeeps(g, seg, events, states, walk, n - 1);
      assert StepAt(g, seg, events, states, walk, n - 1);
      GcStepKeeps(g, seg, states[n - 1], walk[n - 1], events[n - 1], states[n], walk[n]);
    }
  }

  /** No key maps into the segment. */
  ghost predicate Vacated(s: State, seg: nat) { forall k :: k in s.live ==> s.live[k].seg != seg }

  /** No unwritten extent precedes a mapped record of the segment. */
  ghost predicate Exposed(s: State, seg: nat) {
    forall k {:trigger ExposedAt(s, seg, k)} :: ExposedAt(s, seg, k)
  }

  ghost predicate ExposedAt(s: State, seg: nat, k: Bytes) {
    k in s.live && s.live[k].seg == seg ==> Reached(s.core, s.live[k])
  }

  /** No action hides a mapped record of a closed segment. */
  lemma StepKeepsExposed(g: Geometry, s: State, a: Action, seg: nat)
    requires Ok(g) && Inv(g, s) && Closed(g, s, seg) && Enabled(g, s, a) && Exposed(s, seg)
    ensures Exposed(Apply(g, s, a), seg)
  {
    var t := Apply(g, s, a);
    StepKeepsInv(g, s, a);
    forall k ensures ExposedAt(t, seg, k) {
      if k in t.live && t.live[k].seg == seg {
        var p := t.live[k];
        assert Mapped(t, k);
        StepStays(g, s, a, seg, p);
        assert ExposedAt(s, seg, s.core.disk[p].key);
        StaysReached(g, s, a, seg, p);
      }
    }
  }

  /** A step of a collection is nothing or one action of the store. */
  lemma GcStepActs(g: Geometry, seg: nat, s: State, w: Progress, e: Event, t: State, v: Progress) returns (a: Action)
    requires Ok(g) && GcStep(g, seg, s, w, e, t, v)
    ensures t == s || (Enabled(g, s, a) && t == Apply(g, s, a))
  {
    match e {
      case Other(b) => a := b;
      case Idle => a := Open(0);
      case Abort => a := Open(0);
      case Visit(dest) =>
        var p := Addr(seg, w.off);
        a := if IsMapped(s, p) then Relocate(s.core.disk[p].key, dest) else Open(0);
    }
  }

  lemma {:induction false} GcRunKeepsExposed(g: Geometry, seg: nat, events: seq<Event>, states: seq<State>,
                                             walk: seq<Progress>, n: nat)
    requires Ok(g) && GcRun(g, seg, events, states, walk) && n < |states|
    requires Inv(g, states[0]) && Closed(g, states[0], seg) && Exposed(states[0], seg)
    ensures Exposed(states[n], seg)
  {
    if n > 0 {
      GcRunKeepsExposed(g, seg, events, states, walk, n - 1);
      GcRunKeeps(g, seg, events, states, walk, n - 1);
      assert StepAt(g, seg, events, states, walk, n - 1);
      var a := GcStepActs(g, seg, states[n - 1], walk[n - 1], events[n - 1], states[n], walk[n]);
      if states[n] != states[n - 1] {
        StepKeepsExposed(g, states[n - 1], a, seg);
      }
    }
  }

  /** What a finished walk left mapped is hidden. */
  lemma FinishedLeavesHidden(g: Geometry, s: State, seg: nat)
    requires Ok(g) && Inv(g, s) && Emptied(s, seg)
    ensures Vacated(s, seg) <==> Exposed(s, seg)
  {
    forall k ensures k in s.live && s.live[k].seg == seg ==> !ExposedAt(s, seg, k) {
      assert k in s.live ==> Mapped(s, k);
      assert k in s.live ==> EmptiedAt(s, seg, s.live[k]);
    }
  }

  /** Whatever else happens meanwhile, a collection that reports success leaves nothing mapped in
      the segment if no mapped record was behind an unwritten extent when it started. */
  lemma GcEmptiesSegment(g: Geometry, seg: nat, events: seq<Event>, states: seq<State>, walk: seq<Progress>, n: nat)
    requires Ok(g) && GcRun(g, seg, events, states, walk) && n < |states|
    requires Inv(g, states[0]) && Closed(g, states[0], seg) && Exposed(states[0], seg)
    requires walk[n].Finished?
    ensures Vacated(states[n], seg)
  {
    GcRunKeeps(g, seg, events, states, walk, n);
    GcRunKeepsExposed(g, seg, events, states, walk, n);
    FinishedLeavesHidden(g, states[n], seg);
  }

  // ---------------------------------------------------------------- meaning

  datatype Value = NotFound | Found(v: Bytes)

  /** What a reader of `k` sees. */
  function ValueOf(s: State, k: Bytes): Value {
    if k in s.live && s.live[k] in s.core.disk then Found(s.core.disk[s.live[k]].val) else NotFound
  }

  /** Every key reads the same. */
  ghost predicate SameView(s: State, t: State) {
    forall k {:trigger ValueOf(t, k)} :: ValueOf(t, k) == ValueOf(s, k)
  }

  /** Relocation changes no value. */
  lemma RelocateKeepsView(g: Geometry, s: State, key: Bytes, dest: nat)
    requires Ok(g) && Inv(g, s) && Enabled(g, s, Relocate(key, dest))
    ensures SameView(s, Apply(g, s, Relocate(key, dest)))
  {
    FrontierIsFresh(g, s.core, dest);
    forall k ensures ValueOf(Apply(g, s, Relocate(key, dest)), k) == ValueOf(s, k) {
      assert k in s.live ==> Mapped(s, k);
    }
  }

  /** A visit that does something relocates the record it stands at, which every unwritten
      extent of the segment follows. */
  lemma VisitMoves(g: Geometry, seg: nat, s: State, w: Progress, dest: nat, t: State, v: Progress) returns (key: Bytes)
    requires Ok(g) && Inv(g, s) && Closed(g, s, seg) && Walked(s, seg, w)
    requires GcStep(g, seg, s, w, Visit(dest), t, v) && t != s
    ensures Enabled(g, s, Relocate(key, dest)) && t == Apply(g, s, Relocate(key, dest)) && dest != seg
    ensures s.live[key].seg == seg && Reached(s.core, s.live[key])
  {
    var p := Addr(seg, w.off);
    key := s.core.disk[p].key;
    forall q | q in s.core.size && q.seg == seg && q.off <= p.off ensures q in s.core.disk {
      assert SweptAt(s, seg, w.off, q);
    }
  }

  lemma RelocateKeepsExposed(g: Geometry, s: State, key: Bytes, dest: nat, seg: nat)
    requires Ok(g) && Inv(g, s) && Closed(g, s, seg) && Enabled(g, s, Relocate(key, dest)) && dest != seg
    requires s.live[key].seg == seg && Reached(s.core, s.live[key])
    ensures Exposed(Apply(g, s, Relocate(key, dest)), seg) <==> Exposed(s, seg)
  {
    var t := Apply(g, s, Relocate(key, dest));
    forall k ensures ExposedAt(t, seg, k) <==> ExposedAt(s, seg, k) {
      if k in s.live && s.live[k].seg == seg {
        StaysReached(g, s, Relocate(key, dest), seg, s.live[k]);
      }
    }
  }

  /** Meanwhile others do no more than open segments, for the collector to copy to. */
  ghost predicate Quiet(events: seq<Event>) {
    forall i :: 0 <= i < |events| ==> IsQuiet(events[i])
  }

  predicate IsQuiet(e: Event) { !e.Other? || e.a.Open? }

  lemma OpenKeepsExposed(g: Geometry, s: State, x: nat, seg: nat)
    requires Ok(g) && Inv(g, s) && Enabled(g, s, Open(x))
    ensures SameView(s, Apply(g, s, Open(x)))
    ensures Exposed(Apply(g, s, Open(x)), seg) <==> Exposed(s, seg)
  {
    var t := Apply(g, s, Open(x));
    forall k ensures ExposedAt(t, seg, k) <==> ExposedAt(s, seg, k) {
      assert k in s.live ==> (Reached(t.core, s.live[k]) <==> Reached(s.core, s.live[k]));
    }
  }

  lemma QuietStep(g: Geometry, seg: nat, s: State, w: Progress, e: Event, t: State, v: Progress)
    requires Ok(g) && Inv(g, s) && Closed(g, s, seg) && Walked(s, seg, w) && GcStep(g, seg, s, w, e, t, v) && IsQuiet(e)
    ensures SameView(s, t)
    ensures Exposed(t, seg) <==> Exposed(s, seg)
  {
    if e.Other? {
      OpenKeepsExposed(g, s, e.a.seg, seg);
    } else if t != s {
      var key := VisitMoves(g, seg, s, w, e.dest, t, v);
      RelocateKeepsView(g, s, key, e.dest);
      RelocateKeepsExposed(g, s, key, e.dest, seg);
    }
  }

  lemma {:induction false} QuietKeeps(g: Geometry, seg: nat, events: seq<Event>, states: seq<State>,
                                      walk: seq<Progress>, n: nat)
    requires Ok(g) && GcRun(g, seg, events, states, walk) && n < |states| && Quiet(events)
    requires Inv(g, states[0]) && Closed(g, states[0], seg)
    ensures SameView(states[0], states[n])
    ensures Exposed(states[n], seg) <==> Exposed(states[0], seg)
  {
    if n > 0 {
      QuietKeeps(g, seg, events, states, walk, n - 1);
      GcRunKeeps(g, seg, events, states, walk, n - 1);
      assert StepAt(g, seg, events, states, walk, n - 1);
      QuietStep(g, seg, states[n - 1], walk[n - 1], events[n - 1], states[n], walk[n]);
    }
  }

  /** While others only open segments, a whole collection changes no value, and it vacates its
      segment if and only if no mapped record was behind an unwritten extent when it started. */
  lemma QuietGc(g: Geometry, seg: nat, events: seq<Event>, states: seq<State>, walk: seq<Progress>, n: nat)
    requires Ok(g) && GcRun(g, seg, events, states, walk) && n < |states| && Quiet(events)
    requires Inv(g, states[0]) && Closed(g, states[0], seg)
    ensures SameView(states[0], states[n])
    ensures walk[n].Finished? ==> (Vacated(states[n], seg) <==> Exposed(states[0], seg))
  {
    QuietKeeps(g, seg, events, states, walk, n);
    GcRunKeeps(g, seg, events, states, walk, n);
    if walk[n].Finished? {
      FinishedLeavesHidden(g, states[n], seg);
    }
  }

  // ---------------------------------------------------------------- the exact condition

  lemma GcRunExtends(g: Geometry, seg: nat, events: seq<Event>, states: seq<State>, walk: seq<Progress>,
                     e: Event, t: State, v: Progress)
    requires Ok(g) && GcRun(g, seg, events, states, walk)
    requires GcStep(g, seg, states[|events|], walk[|events|], e, t, v)
    ensures GcRun(g, seg, events + [e], states + [t], walk + [v])
  {
    forall i | 0 <= i < |events + [e]| ensures StepAt(g, seg, events + [e], states + [t], walk + [v], i) {
      assert i < |events| ==> StepAt(g, seg, events, states, walk, i);
    }
  }

  lemma FreshSegment(m: map<nat, nat>) returns (x: nat)
    ensures x !in m
  {
    x := 0;
    var seen: set<nat> := {};
    while x in m
      invariant seen <= m.Keys && forall y: nat :: y in seen <==> y < x
      decreases m.Keys - seen
    {
      seen := seen + {x};
      x := x + 1;
    }
  }

  /** If the record at `p` is mapped, it can be copied to segment `dest`. */
  ghost predicate Copyable(g: Geometry, s: State, p: Addr, dest: nat) requires Ok(g) {
    IsMapped(s, p) ==> Enabled(g, s, Relocate(s.core.disk[p].key, dest))
  }

  /** A record that was written fits a new segment. */
  lemma CopyFits(g: Geometry, s: State, p: Addr, dest: nat)
    requires Ok(g) && Inv(g, s) && IsMapped(s, p) && Enabled(g, s, Open(dest))
    ensures Copyable(g, Apply(g, s, Open(dest)), p, dest)
  {
    assert Logged(g, s, p) && Placed(g, s.core, p);
  }

  /** What a visit does. */
  lemma Visited(g: Geometry, seg: nat, s: State, off: nat, dest: nat) returns (t: State, v: Progress)
    requires Ok(g) && Copyable(g, s, Addr(seg, off), dest)
    ensures Visits(g, seg, s, off, dest, t, v)
    ensures v.Finished? || (v.Walking? && off < v.off && off < g.segSize)
  {
    var p := Addr(seg, off);
    if !Goes(g, s.core, p) {
      t, v := s, Finished;
    } else {
      var r := s.core.disk[p];
      v := Walking(off + Grains(g, |r.key|, |r.val|));
      t := if IsMapped(s, p) then Apply(g, s, Relocate(r.key, dest)) else s;
    }
  }

  /** Before a visit a segment is opened, if there is something to copy. */
  lemma OpenFirst(g: Geometry, seg: nat, events: seq<Event>, states: seq<State>, walk: seq<Progress>, p: Addr)
      returns (events': seq<Event>, states': seq<State>, walk': seq<Progress>, dest: nat)
    requires Ok(g) && GcRun(g, seg, events, states, walk) && Quiet(events) && Inv(g, states[|events|])
    ensures GcRun(g, seg, events', states', walk') && Quiet(events') && states'[0] == states[0]
    ensures walk'[|events'|] == walk[|events|] && Copyable(g, states'[|events'|], p, dest)
  {
    events', states', walk', dest := events, states, walk, 0;
    var s := states[|events|];
    if IsMapped(s, p) {
      dest := FreshSegment(s.core.segTs);
      CopyFits(g, s, p, dest);
      var e, t, w := Other(Open(dest)), Apply(g, s, Open(dest)), walk[|events|];
      GcRunExtends(g, seg, events, states, walk, e, t, w);
      events', states', walk' := events + [e], states + [t], walk + [w];
    }
  }

  /** The next visit. */
  lemma NextVisit(g: Geometry, seg: nat, events: seq<Event>, states: seq<State>, walk: seq<Progress>)
      returns (events': seq<Event>, states': seq<State>, walk': seq<Progress>)
    requires Ok(g) && GcRun(g, seg, events, states, walk) && Quiet(events) && walk[|events|].Walking?
    requires Inv(g, states[0]) && Closed(g, states[0], seg)
    ensures GcRun(g, seg, events', states', walk') && Quiet(events') && states'[0] == states[0]
    ensures var w, v := walk[|events|], walk'[|events'|];
            v.Finished? || (v.Walking? && w.off < v.off && w.off < g.segSize)
  {
    GcRunKeeps(g, seg, events, states, walk, |events|);
    var off, dest := walk[|events|].off, 0;
    events', states', walk', dest := OpenFirst(g, seg, events, states, walk, Addr(seg, off));
    var t, v := Visited(g, seg, states'[|events'|], off, dest);
    GcRunExtends(g, seg, events', states', walk', Visit(dest), t, v);
    events', states', walk' := events' + [Visit(dest)], states' + [t], walk' + [v];
  }

  /** A collection can always be brought to its end with segments opened for it. */
  lemma {:induction false} CanFinish(g: Geometry, seg: nat, events: seq<Event>, states: seq<State>, walk: seq<Progress>)
      returns (events': seq<Event>, states': seq<State>, walk': seq<Progress>)
    requires Ok(g) && GcRun(g, seg, events, states, walk) && Quiet(events) && walk[|events|].Walking?
    requires Inv(g, states[0]) && Closed(g, states[0], seg)
    ensures GcRun(g, seg, events', states', walk') && Quiet(events') && states'[0] == states[0]
    ensures walk'[|events'|].Finished?
    decreases g.segSize - walk[|events|].off
  {
    events', states', walk' := NextVisit(g, seg, events, states, walk);
    if walk'[|events'|].Walking? {
      events', states', walk' := CanFinish(g, seg, events', states', walk');
    }
  }

  /** Every collection that starts in `s` and reports success leaves nothing mapped in the segment. */
  ghost predicate AlwaysVacates(g: Geometry, seg: nat, s: State) requires Ok(g) {
    forall events: seq<Event>, states: seq<State>, walk: seq<Progress>, n: nat
      {:trigger GcRun(g, seg, events, states, walk), states[n]} ::
      GcRun(g, seg, events, states, walk) && n < |states| && states[0] == s && walk[n].Finished? ==>
        Vacated(states[n], seg)
  }

  /** A successful collection is sure to vacate its segment if and only if no mapped record was
      behind an unwritten extent when it started. */
  lemma GcCondition(g: Geometry, seg: nat, s: State)
    requires Ok(g) && Inv(g, s) && Closed(g, s, seg)
    ensures AlwaysVacates(g, seg, s) <==> Exposed(s, seg)
  {
    if Exposed(s, seg) {
      forall events: seq<Event>, states: seq<State>, walk: seq<Progress>, n: nat
        | GcRun(g, seg, events, states, walk) && n < |states| && states[0] == s && walk[n].Finished?
        ensures Vacated(states[n], seg)
      {
        GcEmptiesSegment(g, seg, events, states, walk, n);
      }
    } else {
      assert GcRun(g, seg, [], [s], [Walking(0)]);
      var events, states, walk := CanFinish(g, seg, [], [s], [Walking(0)]);
      QuietGc(g, seg, events, states, walk, |events|);
      assert !Vacated(states[|events|], seg);
    }
  }
}
