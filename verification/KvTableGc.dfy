/** The collector's walk through the hash table (gc_callback and local_gc_callback of
    src/uDepot/udepot-lsa.cc): it does not know what is mapped, but looks up the extent it stands at
    in the bucket of the key in the header, while puts change and displace entries. Seen through
    the key map the table stands for, it is the walk of module KvGc. */
module KvTableGc {
  import opened Extents
  import opened Octets
  import opened Hopscotch
  import opened KvStore
  import opened KvRuns
  import opened KvThreads
  import KvGc

  /** What happens next: another thread takes a step, the collector visits a header, or gives up. */
  datatype Turn = Thread(e: Event) | Visit(dest: nat) | Abort

  ghost predicate TurnStep(cfg: Config, seg: nat, c: Sys, w: KvGc.Progress, e: Turn, d: Sys, v: KvGc.Progress)
    requires Fits(cfg)
  {
    match e
    case Thread(e) => Step(cfg, c, e, d) && !LeavesHole(cfg, c, e) && v == w
    case Abort => w.Walking? && d == c && v == KvGc.GaveUp
    case Visit(dest) => w.Walking? && TableVisit(cfg, Addr(seg, w.off), c, dest, d, v)
  }

  /** The header at `p` is read; the map is looked up and changed in one locked section. */
  ghost predicate TableVisit(cfg: Config, p: Addr, c: Sys, dest: nat, d: Sys, v: KvGc.Progress)
    requires Fits(cfg)
  {
    if !KvGc.Goes(cfg.g, c.core, p) then
      d == c && v == KvGc.Finished
    else
      var r := c.core.disk[p];
      && v == KvGc.Walking(p.off + Grains(cfg.g, |r.key|, |r.val|))
      && Moves(cfg, c, p, dest, d)
  }

  /** The collector finds the entry of the record it stands at exactly if the record is mapped. */
  lemma HeldIsMapped(cfg: Config, c: Sys, live: map<Bytes, Addr>, p: Addr)
    requires Fits(cfg) && Sim(cfg, c, live) && p in c.core.disk
    ensures (exists j :: HeldAt(c.tbl, cfg.fp(c.core.disk[p].key).home, p, j)) <==> KvGc.IsMapped(At(c, live), p)
  {
    var k := c.core.disk[p].key;
    if KvGc.IsMapped(At(c, live), p) {
      var j := MappedHasEntry(cfg, c.tbl, At(c, live), k);
    }
    if exists j :: HeldAt(c.tbl, cfg.fp(k).home, p, j) {
      var j :| HeldAt(c.tbl, cfg.fp(k).home, p, j);
      PresentIsMapped(cfg, c, live, k, j);
    }
  }

  /** A visit through the table is a visit of the walk over the key map. */
  lemma VisitFollows(cfg: Config, p: Addr, c: Sys, live: map<Bytes, Addr>, dest: nat, d: Sys, v: KvGc.Progress)
      returns (to: map<Bytes, Addr>)
    requires Fits(cfg) && Sim(cfg, c, live) && TableVisit(cfg, p, c, dest, d, v)
    ensures Sim(cfg, d, to) && KvGc.Visits(cfg.g, p.seg, At(c, live), p.off, dest, At(d, to), v)
  {
    to := live;
    if KvGc.Goes(cfg.g, c.core, p) {
      var k := c.core.disk[p].key;
      HeldIsMapped(cfg, c, live, p);
      if exists j :: HeldAt(c.tbl, cfg.fp(k).home, p, j) {
        var j :| HeldAt(c.tbl, cfg.fp(k).home, p, j) && Moved(cfg, c, p, dest, j, d);
        GcFollows(cfg, c, live, p, dest, j, d);
        to := live[k := Frontier(c.core, dest)];
      }
    }
  }

  lemma TurnFollows(cfg: Config, seg: nat, c: Sys, live: map<Bytes, Addr>, w: KvGc.Progress, e: Turn, d: Sys,
                    v: KvGc.Progress) returns (f: KvGc.Event, to: map<Bytes, Addr>)
    requires Fits(cfg) && Sim(cfg, c, live) && TurnStep(cfg, seg, c, w, e, d, v)
    ensures Sim(cfg, d, to) && KvGc.GcStep(cfg.g, seg, At(c, live), w, f, At(d, to), v)
  {
    match e {
      case Thread(e) =>
        var x;
        x, to := StepFollows(cfg, c, live, e, d);
        f := if x.Does? then KvGc.Other(x.a) else KvGc.Idle;
      case Abort => f, to := KvGc.Abort, live;
      case Visit(dest) =>
        to := VisitFollows(cfg, Addr(seg, w.off), c, live, dest, d, v);
        f := KvGc.Visit(dest);
    }
  }

  // ---------------------------------------------------------------- whole walks

  ghost predicate TableGcRun(cfg: Config, seg: nat, turns: seq<Turn>, run: seq<Sys>, walk: seq<KvGc.Progress>)
    requires Fits(cfg)
  {
    && |run| == |walk| == |turns| + 1 && walk[0] == KvGc.Walking(0)
    && forall i {:trigger TurnAt(cfg, seg, turns, run, walk, i)} :: 0 <= i < |turns| ==>
         TurnAt(cfg, seg, turns, run, walk, i)
  }

  ghost predicate TurnAt(cfg: Config, seg: nat, turns: seq<Turn>, run: seq<Sys>, walk: seq<KvGc.Progress>, i: nat)
    requires Fits(cfg) && |run| == |walk| == |turns| + 1 && i < |turns|
  {
    TurnStep(cfg, seg, run[i], walk[i], turns[i], run[i + 1], walk[i + 1])
  }

  ghost predicate Shows(cfg: Config, run: seq<Sys>, lives: seq<map<Bytes, Addr>>, states: seq<State>, i: nat)
    requires Fits(cfg) && i < |run| && i < |lives| && i < |states|
  {
    Sim(cfg, run[i], lives[i]) && states[i] == At(run[i], lives[i])
  }

  /** A walk through the table, with other threads at work, is a run of the walk over the key map,
      step by step. */
  lemma {:induction false} WalkRefines(cfg: Config, seg: nat, turns: seq<Turn>, run: seq<Sys>,
                                       walk: seq<KvGc.Progress>, live: map<Bytes, Addr>, n: nat)
      returns (events: seq<KvGc.Event>, states: seq<State>, lives: seq<map<Bytes, Addr>>)
    requires Fits(cfg) && TableGcRun(cfg, seg, turns, run, walk) && Sim(cfg, run[0], live) && n <= |turns|
    ensures |events| == n && |lives| == |states| == n + 1 && states[0] == At(run[0], live)
    ensures KvGc.GcRun(cfg.g, seg, events, states, walk[..n + 1]) && Shows(cfg, run, lives, states, n)
  {
    if n == 0 {
      events, states, lives := [], [At(run[0], live)], [live];
    } else {
      events, states, lives := WalkRefines(cfg, seg, turns, run, walk, live, n - 1);
      assert TurnAt(cfg, seg, turns, run, walk, n - 1);
      var f, to := TurnFollows(cfg, seg, run[n - 1], lives[n - 1], walk[n - 1], turns[n - 1], run[n], walk[n]);
      KvGc.GcRunExtends(cfg.g, seg, events, states, walk[..n], f, At(run[n], to), walk[n]);
      assert walk[..n] + [walk[n]] == walk[..n + 1];
      events, states, lives := events + [f], states + [At(run[n], to)], lives + [to];
    }
  }

  /** When the walk reports success, no entry of the table points into the segment, if no mapped
      record was behind an unwritten extent when it started. */
  lemma TableIsVacated(cfg: Config, seg: nat, turns: seq<Turn>, run: seq<Sys>, walk: seq<KvGc.Progress>,
                       live: map<Bytes, Addr>, n: nat)
    requires Fits(cfg) && TableGcRun(cfg, seg, turns, run, walk) && Sim(cfg, run[0], live) && n <= |turns|
    requires KvGc.Closed(cfg.g, At(run[0], live), seg) && KvGc.Exposed(At(run[0], live), seg) && walk[n].Finished?
    ensures forall j :: 0 <= j < |run[n].tbl| && run[n].tbl[j].Used? ==> run[n].tbl[j].pba.seg != seg
  {
    var events, states, lives := WalkRefines(cfg, seg, turns, run, walk, live, n);
    KvGc.GcEmptiesSegment(cfg.g, seg, events, states, walk[..n + 1], n);
    forall j | 0 <= j < |run[n].tbl| && run[n].tbl[j].Used? ensures run[n].tbl[j].pba.seg != seg {
      EntryIsMapped(cfg, run[n].tbl, At(run[n], lives[n]), j);
    }
  }
}
