/** What every action of the store keeps, and so what holds in every state of every run. */
module KvRuns {
  import opened Extents
  import opened Octets
  import opened KvStore

  // ---------------------------------------------------------------- segments and extents

  /** Open segments have distinct timestamps, handed out in increasing order. */
  ghost predicate SegsOk(g: Geometry, c: Core) requires Ok(g) {
    && c.next.Keys == c.segTs.Keys
    && (forall x :: x in c.next ==> c.next[x] <= Cap(g))
    && (forall x :: x in c.segTs ==> 0 < c.segTs[x] <= c.allocNr)
    && (forall x, y :: x in c.segTs && y in c.segTs && c.segTs[x] == c.segTs[y] ==> x == y)
  }

  function After(c: Core, p: Addr): Addr requires p in c.size { Addr(p.seg, p.off + c.size[p]) }

  /** An extent lies below its segment's frontier, the segment's first extent starts at its
      beginning, and unless the segment was drained the next extent or the frontier follows. */
  ghost predicate Placed(g: Geometry, c: Core, p: Addr) requires Ok(g) {
    && p in c.size && p.seg in c.next && 0 < c.size[p] && p.off + c.size[p] <= c.next[p.seg]
    && Addr(p.seg, 0) in c.size
    && (c.next[p.seg] < Cap(g) ==> After(c, p) == Frontier(c, p.seg) || After(c, p) in c.size)
  }

  /** Two extents of a segment do not overlap, and the lower one is followed by an extent. */
  ghost predicate Apart(c: Core, p: Addr, q: Addr) requires p in c.size {
    p.seg == q.seg && p.off < q.off ==> p.off + c.size[p] <= q.off && After(c, p) in c.size
  }

  /** The extents of a segment tile a prefix of it. */
  ghost predicate ExtentsOk(g: Geometry, c: Core) requires Ok(g) {
    && (forall p {:trigger Placed(g, c, p)} :: p in c.size ==> Placed(g, c, p))
    && (forall p, q {:trigger Apart(c, p, q)} :: p in c.size && q in c.size ==> Apart(c, p, q))
    && (forall x :: x in c.next && 0 < c.next[x] < Cap(g) ==> Addr(x, 0) in c.size)
  }

  lemma FrontierIsFree(g: Geometry, c: Core, seg: nat, p: Addr)
    requires Ok(g) && ExtentsOk(g, c) && seg in c.next && p in c.size && p.seg == seg
    ensures p.off < c.next[seg]
  {
    assert Placed(g, c, p);
  }

  lemma FrontierIsFresh(g: Geometry, c: Core, seg: nat)
    requires Ok(g) && ExtentsOk(g, c) && seg in c.next
    ensures Frontier(c, seg) !in c.size
  {
    if Frontier(c, seg) in c.size {
      FrontierIsFree(g, c, seg, Frontier(c, seg));
    }
  }

  lemma ReservePlaces(g: Geometry, c: Core, seg: nat, n: nat, p: Addr)
    requires Ok(g) && SegsOk(g, c) && ExtentsOk(g, c) && CanReserve(g, c, seg, n)
    requires p in ReserveCore(g, c, seg, n).size
    ensures Placed(g, ReserveCore(g, c, seg, n), p)
  {
    if p != Frontier(c, seg) {
      assert Placed(g, c, p);
    }
  }

  lemma ReserveApart(g: Geometry, c: Core, seg: nat, n: nat, p: Addr, q: Addr)
    requires Ok(g) && SegsOk(g, c) && ExtentsOk(g, c) && CanReserve(g, c, seg, n)
    requires p in ReserveCore(g, c, seg, n).size && q in ReserveCore(g, c, seg, n).size
    ensures Apart(ReserveCore(g, c, seg, n), p, q)
  {
    var f := Frontier(c, seg);
    if p != f {
      assert Placed(g, c, p);
      if q != f { assert Apart(c, p, q); }
    } else if q.seg == seg && q != f {
      FrontierIsFree(g, c, seg, q);
    }
  }

  lemma ReserveKeepsExtents(g: Geometry, c: Core, seg: nat, n: nat)
    requires Ok(g) && SegsOk(g, c) && ExtentsOk(g, c) && CanReserve(g, c, seg, n)
    ensures Frontier(c, seg) !in c.size
    ensures SegsOk(g, ReserveCore(g, c, seg, n)) && ExtentsOk(g, ReserveCore(g, c, seg, n))
  {
    var d := ReserveCore(g, c, seg, n);
    FrontierIsFresh(g, c, seg);
    forall p | p in d.size ensures Placed(g, d, p) {
      ReservePlaces(g, c, seg, n, p);
    }
    forall p, q | p in d.size && q in d.size ensures Apart(d, p, q) {
      ReserveApart(g, c, seg, n, p, q);
    }
  }

  lemma SameKeeps(g: Geometry, c: Core, d: Core)
    requires Ok(g) && c.next == d.next && c.segTs == d.segTs && c.allocNr == d.allocNr && c.size == d.size
    requires SegsOk(g, c) && ExtentsOk(g, c)
    ensures SegsOk(g, d) && ExtentsOk(g, d)
  {
    MoreKeeps(g, c, d);
  }

  /** Opening or draining segments keeps the extents. */
  lemma MoreKeeps(g: Geometry, c: Core, d: Core)
    requires Ok(g) && c.size == d.size && ExtentsOk(g, c) && c.next.Keys <= d.next.Keys
    requires forall x :: x in d.next ==>
               if x in c.next then d.next[x] == c.next[x] || (c.next[x] <= d.next[x] && d.next[x] == Cap(g))
               else d.next[x] == 0
    ensures ExtentsOk(g, d)
  {
    forall p | p in d.size ensures Placed(g, d, p) {
      assert Placed(g, c, p);
    }
    forall p, q | p in d.size && q in d.size ensures Apart(d, p, q) {
      assert Apart(c, p, q);
    }
  }

  lemma RelocateKeepsExtents(g: Geometry, c: Core, was: Addr, seg: nat)
    requires Ok(g) && SegsOk(g, c) && ExtentsOk(g, c) && was in c.disk
    requires CanReserve(g, c, seg, Grains(g, |c.disk[was].key|, |c.disk[was].val|))
    ensures SegsOk(g, RelocateCore(g, c, was, seg)) && ExtentsOk(g, RelocateCore(g, c, was, seg))
  {
    var n := Grains(g, |c.disk[was].key|, |c.disk[was].val|);
    ReserveKeepsExtents(g, c, seg, n);
    SameKeeps(g, ReserveCore(g, c, seg, n), RelocateCore(g, c, was, seg));
  }

  predicate Allocates(a: Action) { a.Open? || a.Reserve? || a.Drain? || a.Relocate? }

  lemma InstallSame(g: Geometry, s: State, p: Addr)
    requires Ok(g) && p in s.core.disk
    requires s.core.disk[p].key in s.live ==> s.live[s.core.disk[p].key] in s.core.disk
    ensures var c, d := s.core, Install(g, s, p).core;
            c.next == d.next && c.segTs == d.segTs && c.allocNr == d.allocNr && c.size == d.size && c.disk == d.disk
  {
  }

  lemma MapSame(g: Geometry, s: State, p: Addr, op: Op)
    requires Ok(g) && Enabled(g, s, Map(p, op))
    ensures var c, d := s.core, Apply(g, s, Map(p, op)).core;
            c.next == d.next && c.segTs == d.segTs && c.allocNr == d.allocNr && c.size == d.size && c.disk == d.disk
  {
    InstallSame(g, s, p);
  }

  /** Writing and mapping records leave segments and extents alone. */
  lemma OthersSame(g: Geometry, s: State, a: Action)
    requires Ok(g) && Enabled(g, s, a) && !Allocates(a)
    ensures var c, d := s.core, Apply(g, s, a).core;
            c.next == d.next && c.segTs == d.segTs && c.allocNr == d.allocNr && c.size == d.size
  {
    if a.Map? { MapSame(g, s, a.p, a.op); }
  }

  lemma OpenKeepsExtents(g: Geometry, s: State, seg: nat)
    requires Ok(g) && SegsOk(g, s.core) && ExtentsOk(g, s.core) && Enabled(g, s, Open(seg))
    ensures SegsOk(g, Apply(g, s, Open(seg)).core) && ExtentsOk(g, Apply(g, s, Open(seg)).core)
  {
    MoreKeeps(g, s.core, Apply(g, s, Open(seg)).core);
  }

  lemma DrainKeepsExtents(g: Geometry, s: State, seg: nat)
    requires Ok(g) && SegsOk(g, s.core) && ExtentsOk(g, s.core) && Enabled(g, s, Drain(seg))
    ensures SegsOk(g, Apply(g, s, Drain(seg)).core) && ExtentsOk(g, Apply(g, s, Drain(seg)).core)
  {
    MoreKeeps(g, s.core, Apply(g, s, Drain(seg)).core);
  }

  lemma StepKeepsExtents(g: Geometry, s: State, a: Action)
    requires Ok(g) && SegsOk(g, s.core) && ExtentsOk(g, s.core) && Enabled(g, s, a)
    ensures SegsOk(g, Apply(g, s, a).core) && ExtentsOk(g, Apply(g, s, a).core)
  {
    match a {
      case Reserve(seg, n) => ReserveKeepsExtents(g, s.core, seg, n);
      case Relocate(key, seg) => RelocateKeepsExtents(g, s.core, s.live[key], seg);
      case Open(seg) => OpenKeepsExtents(g, s, seg);
      case Drain(seg) => DrainKeepsExtents(g, s, seg);
      case _ =>
        OthersSame(g, s, a);
        SameKeeps(g, s.core, Apply(g, s, a).core);
    }
  }

  // ---------------------------------------------------------------- records and the map

  ghost predicate Logged(g: Geometry, s: State, p: Addr) requires Ok(g) {
    && p in s.phase && p in s.core.size && p.seg in s.core.segTs
    && (Written(s.phase[p]) <==> p in s.core.disk)
    && (p in s.core.disk ==>
          && s.core.size[p] == Grains(g, |s.core.disk[p].key|, |s.core.disk[p].val|)
          && Recordable(s.core.disk[p].key, s.core.disk[p].val))
    && (s.phase[p].Live? ==> s.core.disk[p].key in s.live && s.live[s.core.disk[p].key] == p)
  }

  ghost predicate Mapped(s: State, k: Bytes) requires k in s.live {
    var p := s.live[k];
    p in s.phase && s.phase[p].Live? && p in s.core.disk && s.core.disk[p].key == k
  }

  /** Extents, phases, records and the key map agree: the live extents are exactly the mapped
      ones, each holding a record of the key that maps to it. */
  ghost predicate MapOk(g: Geometry, s: State) requires Ok(g) {
    && s.phase.Keys == s.core.size.Keys
    && s.core.disk.Keys <= s.core.size.Keys
    && (forall p {:trigger Logged(g, s, p)} :: p in s.core.size ==> Logged(g, s, p))
    && (forall k {:trigger Mapped(s, k)} :: k in s.live ==> Mapped(s, k))
  }

  lemma ReserveKeepsMap(g: Geometry, s: State, seg: nat, n: nat)
    requires Ok(g) && SegsOk(g, s.core) && MapOk(g, s) && Enabled(g, s, Reserve(seg, n))
    requires Frontier(s.core, seg) !in s.core.size
    ensures MapOk(g, Apply(g, s, Reserve(seg, n)))
  {
    var t := Apply(g, s, Reserve(seg, n));
    forall p | p in t.core.size ensures Logged(g, t, p) {
      if p in s.core.size { assert Logged(g, s, p); }
    }
    forall k | k in t.live ensures Mapped(t, k) {
      assert Mapped(s, k);
    }
  }

  lemma WriteKeepsMap(g: Geometry, s: State, p: Addr, key: Bytes, val: Bytes)
    requires Ok(g) && MapOk(g, s) && Enabled(g, s, Write(p, key, val))
    ensures MapOk(g, Apply(g, s, Write(p, key, val)))
  {
    var t := Apply(g, s, Write(p, key, val));
    forall q | q in t.core.size ensures Logged(g, t, q) {
      assert Logged(g, s, q);
    }
    forall k | k in t.live ensures Mapped(t, k) {
      assert Mapped(s, k);
    }
  }

  /** Retiring an extent that is not live. */
  lemma RetireKeepsMap(g: Geometry, s: State, t: State, p: Addr, h: Phase)
    requires Ok(g) && MapOk(g, s) && p in s.phase && !s.phase[p].Live? && !h.Live?
    requires Written(h) <==> Written(s.phase[p])
    requires t.core.size == s.core.size && t.core.disk == s.core.disk && t.core.segTs == s.core.segTs
    requires t.live == s.live && t.phase == s.phase[p := h]
    ensures MapOk(g, t)
  {
    forall q | q in t.core.size ensures Logged(g, t, q) {
      assert Logged(g, s, q);
    }
    forall k | k in t.live ensures Mapped(t, k) {
      assert Mapped(s, k);
    }
  }

  lemma InstallKeepsMap(g: Geometry, s: State, p: Addr)
    requires Ok(g) && MapOk(g, s) && InFlightAt(s, p)
    requires s.core.disk[p].key in s.live ==> s.live[s.core.disk[p].key] in s.core.disk
    ensures MapOk(g, Install(g, s, p))
  {
    var t := Install(g, s, p);
    var key := s.core.disk[p].key;
    if key in s.live { assert Mapped(s, key); }
    forall q | q in t.core.size ensures Logged(g, t, q) {
      assert Logged(g, s, q);
    }
    forall k | k in t.live ensures Mapped(t, k) {
      if k != key {
        assert Mapped(s, k);
      }
    }
  }

  lemma RelocateKeepsMap(g: Geometry, s: State, key: Bytes, seg: nat)
    requires Ok(g) && SegsOk(g, s.core) && MapOk(g, s) && Enabled(g, s, Relocate(key, seg))
    requires Frontier(s.core, seg) !in s.core.size
    ensures MapOk(g, Apply(g, s, Relocate(key, seg)))
  {
    var t := Apply(g, s, Relocate(key, seg));
    assert Mapped(s, key);
    assert Logged(g, s, s.live[key]);
    forall q | q in t.core.size ensures Logged(g, t, q) {
      if q in s.core.size { assert Logged(g, s, q); }
    }
    forall k | k in t.live ensures Mapped(t, k) {
      if k != key {
        assert Mapped(s, k);
      }
    }
  }

  lemma SameKeepsMap(g: Geometry, s: State, t: State)
    requires Ok(g) && MapOk(g, s) && t.live == s.live && t.phase == s.phase
    requires t.core.size == s.core.size && t.core.disk == s.core.disk && s.core.segTs.Keys <= t.core.segTs.Keys
    ensures MapOk(g, t)
  {
    forall q | q in t.core.size ensures Logged(g, t, q) {
      assert Logged(g, s, q);
    }
    forall k | k in t.live ensures Mapped(t, k) {
      assert Mapped(s, k);
    }
  }

  ghost predicate Inv(g: Geometry, s: State) requires Ok(g) {
    SegsOk(g, s.core) && ExtentsOk(g, s.core) && MapOk(g, s)
  }

  lemma MapKeepsMap(g: Geometry, s: State, p: Addr, op: Op)
    requires Ok(g) && MapOk(g, s) && Enabled(g, s, Map(p, op))
    ensures MapOk(g, Apply(g, s, Map(p, op)))
  {
    var t := Apply(g, s, Map(p, op));
    match MapOutcome(g, s, p, op) {
      case Installed => InstallKeepsMap(g, s, p);
      case Retry => RetireKeepsMap(g, s, t, p, Stale);
      case Rejected => RetireKeepsMap(g, s, t, p, Refused);
    }
  }

  lemma StepKeepsMap(g: Geometry, s: State, a: Action)
    requires Ok(g) && Inv(g, s) && Enabled(g, s, a)
    ensures MapOk(g, Apply(g, s, a))
  {
    match a {
      case Reserve(seg, n) =>
        FrontierIsFresh(g, s.core, seg);
        ReserveKeepsMap(g, s, seg, n);
      case Relocate(key, seg) =>
        FrontierIsFresh(g, s.core, seg);
        RelocateKeepsMap(g, s, key, seg);
      case Open(seg) => SameKeepsMap(g, s, Apply(g, s, a));
      case Drain(seg) => SameKeepsMap(g, s, Apply(g, s, a));
      case Write(p, key, val) => WriteKeepsMap(g, s, p, key, val);
      case IoFail(p) => RetireKeepsMap(g, s, Apply(g, s, a), p, Failed);
      case Refuse(p) => RetireKeepsMap(g, s, Apply(g, s, a), p, Refused);
      case Map(p, op) => MapKeepsMap(g, s, p, op);
    }
  }

  lemma StepKeepsInv(g: Geometry, s: State, a: Action)
    requires Ok(g) && Inv(g, s) && Enabled(g, s, a)
    ensures Inv(g, Apply(g, s, a))
  {
    StepKeepsExtents(g, s, a);
    StepKeepsMap(g, s, a);
  }
}
