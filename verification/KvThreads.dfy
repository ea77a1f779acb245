/** Puts, gets and GC as threads over the hash table (src/uDepot/udepot-lsa.cc).

    A put holds the bucket lock while it searches the table, drops it to read a candidate
    record from the device, and revalidates when it has the lock again. What it does between
    taking the lock and dropping it is one step here. Other puts and GC change the table,
    displace entries and relocate records while the lock is dropped.

    The shared state has no key map: only the table, whose entries carry fingerprints, and
    the records on the device. That the table always stands for one key map, and that every
    step acts on that map as one action of module KvStore, is what is proved. */
module KvThreads {
  import opened Arith
  import opened Extents
  import opened Octets
  import opened Hopscotch
  import opened HopTable
  import opened KvStore
  import opened KvRuns

  /** The fingerprint of a key is its tag and home slot; `n` is the number of slots. */
  datatype Config = Config(g: Geometry, fp: Bytes -> Fp, n: nat)

  ghost predicate Fits(cfg: Config) {
    Ok(cfg.g) && forall k :: cfg.fp(k).home + BUCKET <= cfg.n
  }

  /** A put whose lock is dropped: the candidate slot and a copy of its entry, before and
      after its key was read and compared. */
  datatype Stage =
    | Looking(op: Op, visited: seq<Addr>, i: nat, copy: Entry)
    | Compared(op: Op, visited: seq<Addr>, i: nat, copy: Entry, same: bool)

  /** `puts` is indexed by the extent that holds the put's record. */
  datatype Sys = Sys(tbl: seq<Entry>, core: Core, phase: map<Addr, Phase>, puts: map<Addr, Stage>)

  datatype Event =
    | Background(a: Action)
    | Start(p: Addr, op: Op)
    | Read(p: Addr)
    | Recheck(p: Addr)
    | Fail(p: Addr)
    | GcMove(p: Addr, seg: nat)

  function Boot(cfg: Config): Sys { Sys(seq(cfg.n, _ => Unused), Init().core, map[], map[]) }

  function At(c: Sys, live: map<Bytes, Addr>): State { State(c.core, live, c.phase) }

  predicate InBackground(a: Action) { a.Open? || a.Reserve? || a.Drain? || a.Write? || a.IoFail? }

  // ---------------------------------------------------------------- steps

  function Entered(g: Geometry, c: Core, fp: Fp, i: nat, p: Addr): Entry
    requires Ok(g) && p in c.disk && fp.home <= i
  {
    Used(i - fp.home, fp.tag, Min(Grains(g, |c.disk[p].key|, |c.disk[p].val|), MAX_SIZE), p)
  }

  /** The put of `p` is over, leaving table `t`. */
  function Done(c: Sys, t: seq<Entry>, s: State, p: Addr): Sys { Sys(t, s.core, s.phase, c.puts - {p}) }

  /** The key was not found; slot `i` of `t` can take it. */
  function Absent(cfg: Config, c: Sys, t: seq<Entry>, p: Addr, op: Op, i: nat): Sys
    requires Ok(cfg.g) && p in c.core.disk && cfg.fp(c.core.disk[p].key).home <= i < |t|
  {
    if op.Replace? then Done(c, t, Drop(cfg.g, At(c, map[]), p, Refused), p)
    else
      var e := Entered(cfg.g, c.core, cfg.fp(c.core.disk[p].key), i, p);
      Done(c, t[i := e], State(Added(cfg.g, c.core, c.core.disk[p]), map[], c.phase[p := Phase.Live]), p)
  }

  /** The bucket is full. When displacement fails the put asks for a larger table and starts over. */
  ghost predicate Displaces(cfg: Config, c: Sys, p: Addr, op: Op, d: Sys)
    requires Ok(cfg.g) && p in c.core.disk
  {
    var home := cfg.fp(c.core.disk[p].key).home;
    && WellFormed(c.tbl) && NoTombstones(c.tbl) && AllUsed(c.tbl, home, home + BUCKET)
    && var r := TryShift(c.tbl, home);
    if r.slot.NoData? then home <= r.slot.i < |r.t| && d == Absent(cfg, c, r.t, p, op, r.slot.i)
    else d == c.(tbl := r.t, puts := c.puts - {p})
  }

  /** What the put does with the outcome of lookup_common. */
  ghost predicate Searched(cfg: Config, c: Sys, p: Addr, op: Op, visited: seq<Addr>, r: Common, d: Sys)
    requires Ok(cfg.g) && p in c.core.disk
  {
    var fp := cfg.fp(c.core.disk[p].key);
    && IsCommon(c.tbl, fp, visited, r)
    && match r
       case Cand(i) => d == c.(puts := c.puts[p := Looking(op, visited, i, c.tbl[i])])
       case Miss(l) =>
         if l.NoData? then d == Absent(cfg, c, c.tbl, p, op, l.i) else Displaces(cfg, c, p, op, d)
       case Exhausted =>
         var f := FreeFrom(c.tbl, fp.home, fp.home + BUCKET);
         if f < fp.home + BUCKET then d == Absent(cfg, c, c.tbl, p, op, f) else Displaces(cfg, c, p, op, d)
  }

  /** The key was found in slot `j`: set_mapping over the entry, unless the new extent precedes it. */
  ghost predicate Present(cfg: Config, c: Sys, p: Addr, op: Op, j: nat, d: Sys)
    requires Ok(cfg.g) && p in c.core.disk
  {
    && j < |c.tbl| && c.tbl[j].Used?
    && var was := c.tbl[j].pba;
    && was in c.core.disk && p.seg in c.core.segTs
    && if op.Create? then d == Done(c, c.tbl, Drop(cfg.g, At(c, map[]), p, Refused), p)
       else if !InOrder(cfg.g, c.core, was, p) then d == Done(c, c.tbl, Drop(cfg.g, At(c, map[]), p, Stale), p)
       else
         var e := Used(c.tbl[j].off, cfg.fp(c.core.disk[p].key).tag,
                       Min(Grains(cfg.g, |c.core.disk[p].key|, |c.core.disk[p].val|), MAX_SIZE), p);
         d == Done(c, c.tbl[j := e],
                   State(ReplaceCore(cfg.g, c.core, was, p), map[], c.phase[was := Superseded][p := Phase.Live]), p)
  }

  /** The slot of `home`'s bucket that holds extent `v`. */
  predicate HeldAt(t: seq<Entry>, home: nat, v: Addr, j: nat) {
    j < |t| && home <= j < home + BUCKET && t[j].Used? && t[j].pba == v
  }

  /** The lock is held again. A matching candidate is in its slot if that still holds the copy,
      else in the slot of the bucket that holds the same extent, if there is one. */
  predicate Rejoins(cfg: Config, c: Sys, p: Addr, st: Stage, j: nat)
    requires p in c.core.disk && st.Compared? && st.copy.Used?
  {
    && st.same
    && if st.i < |c.tbl| && c.tbl[st.i] == st.copy then j == st.i
       else HeldAt(c.tbl, cfg.fp(c.core.disk[p].key).home, st.copy.pba, j)
  }

  /** A match that is still there ends the search; otherwise it goes on past the candidate. */
  ghost predicate Rechecks(cfg: Config, c: Sys, p: Addr, st: Stage, d: Sys)
    requires Ok(cfg.g) && p in c.core.disk && st.Compared? && st.copy.Used?
  {
    if exists j :: Rejoins(cfg, c, p, st, j) then
      exists j :: Rejoins(cfg, c, p, st, j) && Present(cfg, c, p, st.op, j, d)
    else exists r :: Searched(cfg, c, p, st.op, st.visited + [st.copy.pba], r, d)
  }

  /** local_gc_callback on the record at `p`. */
  ghost predicate Moves(cfg: Config, c: Sys, p: Addr, seg: nat, d: Sys)
    requires Ok(cfg.g) && p in c.core.disk
  {
    var r := c.core.disk[p];
    var home := cfg.fp(r.key).home;
    if exists j :: HeldAt(c.tbl, home, p, j) then
      exists j :: HeldAt(c.tbl, home, p, j) && Moved(cfg, c, p, seg, j, d)
    else d == c
  }

  ghost predicate Moved(cfg: Config, c: Sys, p: Addr, seg: nat, j: nat, d: Sys)
    requires Ok(cfg.g) && p in c.core.disk && j < |c.tbl| && c.tbl[j].Used?
  {
    var r := c.core.disk[p];
    var n := Grains(cfg.g, |r.key|, |r.val|);
    && CanReserve(cfg.g, c.core, seg, n)
    && var to := Frontier(c.core, seg);
    && d == c.(tbl := c.tbl[j := Used(c.tbl[j].off, cfg.fp(r.key).tag, Min(n, MAX_SIZE), to)],
               core := RelocateCore(cfg.g, c.core, p, seg), phase := c.phase[p := Superseded][to := Phase.Live])
  }

  ghost predicate Step(cfg: Config, c: Sys, e: Event, d: Sys) requires Ok(cfg.g) {
    match e
    case Background(a) =>
      && InBackground(a) && Enabled(cfg.g, At(c, map[]), a)
      && var s := Apply(cfg.g, At(c, map[]), a);
      && d == c.(core := s.core, phase := s.phase)
    case Start(p, op) =>
      && p !in c.puts && InFlightAt(At(c, map[]), p) && p.seg in c.core.segTs
      && exists r :: Searched(cfg, c, p, op, [], r, d)
    case Read(p) =>
      && p in c.puts && p in c.core.disk && c.puts[p].Looking?
      && var st := c.puts[p];
      && st.copy.Used? && st.copy.pba in c.core.disk
      && d == c.(puts := c.puts[p := Compared(st.op, st.visited, st.i, st.copy,
                                              c.core.disk[st.copy.pba].key == c.core.disk[p].key)])
    case Recheck(p) =>
      && p in c.puts && p in c.core.disk && c.puts[p].Compared? && c.puts[p].copy.Used?
      && Rechecks(cfg, c, p, c.puts[p], d)
    case Fail(p) =>
      && InFlightAt(At(c, map[]), p)
      && d == Done(c, c.tbl, Drop(cfg.g, At(c, map[]), p, Refused), p)
    case GcMove(p, seg) => p in c.core.disk && Moves(cfg, c, p, seg, d)
  }

  // ---------------------------------------------------------------- the table stands for the key map

  /** The entry that stands for the mapped record at `x.pba`. */
  predicate Represents(cfg: Config, s: State, x: Item) requires Ok(cfg.g) {
    && x.pba in s.core.disk
    && var r := s.core.disk[x.pba];
    && r.key in s.live && s.live[r.key] == x.pba
    && x == ItemOf(cfg, s.core, x.pba)
  }

  function ItemOf(cfg: Config, c: Core, p: Addr): Item
    requires Ok(cfg.g) && p in c.disk
  {
    var r := c.disk[p];
    Item(cfg.fp(r.key).tag, cfg.fp(r.key).home, Min(Grains(cfg.g, |r.key|, |r.val|), MAX_SIZE), p)
  }

  ghost predicate Agree(cfg: Config, t: seq<Entry>, s: State) requires Ok(cfg.g) {
    && |t| == cfg.n && Sound(t)
    && forall x :: Count(t, x) == if Represents(cfg, s, x) then 1 else 0
  }

  /** A candidate a put of `key` need not look at again: another key's record, or one that is
      no longer mapped and never will be. */
  predicate Passed(s: State, key: Bytes, v: Addr) {
    v in s.core.disk && v in s.phase && (s.core.disk[v].key == key ==> s.phase[v].Superseded?)
  }

  ghost predicate StageOk(s: State, p: Addr, st: Stage) {
    && InFlightAt(s, p)
    && (forall v :: v in st.visited ==> Passed(s, s.core.disk[p].key, v))
    && st.copy.Used? && st.copy.pba in s.core.disk && st.copy.pba in s.phase
    && (s.phase[st.copy.pba].Live? || s.phase[st.copy.pba].Superseded?)
    && (st.Compared? ==> st.same == (s.core.disk[st.copy.pba].key == s.core.disk[p].key))
  }

  ghost predicate Stages(c: Sys, live: map<Bytes, Addr>) {
    forall p {:trigger c.puts[p]} :: p in c.puts ==> StageOk(At(c, live), p, c.puts[p])
  }

  /** The table stands for the key map `live`. */
  ghost predicate Sim(cfg: Config, c: Sys, live: map<Bytes, Addr>) requires Fits(cfg) {
    Inv(cfg.g, At(c, live)) && Agree(cfg, c.tbl, At(c, live)) && Stages(c, live)
  }

  lemma {:induction false} CountHas(t: seq<Entry>, n: nat, x: Item)
    requires n <= |t|
    ensures CountUpTo(t, n, x) > 0 <==> exists i :: 0 <= i < n && Holds(t[i], i, x) == 1
  {
    if n > 0 {
      CountHas(t, n - 1, x);
      assert Holds(t[n - 1], n - 1, x) <= 1;
    }
  }

  /** A mapped key has an entry. */
  lemma MappedHasEntry(cfg: Config, t: seq<Entry>, s: State, k: Bytes) returns (j: nat)
    requires Fits(cfg) && Agree(cfg, t, s) && MapOk(cfg.g, s) && k in s.live
    ensures Matches(t, cfg.fp(k), j) && t[j].pba == s.live[k]
    ensures HeldAt(t, cfg.fp(k).home, s.live[k], j)
  {
    assert Mapped(s, k);
    var x := ItemOf(cfg, s.core, s.live[k]);
    assert Represents(cfg, s, x);
    CountHas(t, |t|, x);
    j :| 0 <= j < |t| && Holds(t[j], j, x) == 1;
  }

  /** An entry stands for a mapped key. */
  lemma EntryIsMapped(cfg: Config, t: seq<Entry>, s: State, j: nat)
    requires Fits(cfg) && Agree(cfg, t, s) && j < |t| && t[j].Used?
    ensures t[j].pba in s.core.disk
    ensures Represents(cfg, s, Item(t[j].tag, j - t[j].off, t[j].size, t[j].pba))
  {
    var x := Item(t[j].tag, j - t[j].off, t[j].size, t[j].pba);
    CountHas(t, |t|, x);
    assert Holds(t[j], j, x) == 1;
    assert Count(t, x) > 0;
  }

  /** An entry carries the number of grains of its extent, as far as its 11 bits go. */
  lemma EntryHasSize(cfg: Config, t: seq<Entry>, s: State, j: nat)
    requires Fits(cfg) && Inv(cfg.g, s) && Agree(cfg, t, s) && j < |t| && t[j].Used?
    ensures t[j].pba in s.core.size && t[j].size == if s.core.size[t[j].pba] < 2047 then s.core.size[t[j].pba] else 2047
  {
    EntryIsMapped(cfg, t, s, j);
    assert Logged(cfg.g, s, t[j].pba);
  }

  /** When the search ends without a candidate, the key is not mapped at that moment. */
  lemma AbsentIsUnmapped(cfg: Config, t: seq<Entry>, s: State, k: Bytes, visited: seq<Addr>, r: Common)
    requires Fits(cfg) && Agree(cfg, t, s) && MapOk(cfg.g, s)
    requires forall v :: v in visited ==> Passed(s, k, v)
    requires IsCommon(t, cfg.fp(k), visited, r) && !r.Cand?
    ensures k !in s.live
  {
    if k in s.live {
      var j := MappedHasEntry(cfg, t, s, k);
      assert Mapped(s, k);
      if r.Miss? { LookupComplete(t, cfg.fp(k), r.l); }
    }
  }

  // ---------------------------------------------------------------- how the relation is kept

  lemma SameAgree(cfg: Config, t: seq<Entry>, s: State, u: State)
    requires Fits(cfg) && Agree(cfg, t, s) && MapOk(cfg.g, s) && u.live == s.live
    requires forall p :: p in s.core.disk ==> p in u.core.disk && u.core.disk[p] == s.core.disk[p]
    ensures Agree(cfg, t, u)
  {
    forall x ensures Represents(cfg, u, x) == Represents(cfg, s, x) {
      if Represents(cfg, u, x) { assert Mapped(s, u.core.disk[x.pba].key); }
    }
  }

  /** The map moves key `k` to extent `p`. */
  ghost predicate Remaps(s: State, u: State, k: Bytes, p: Addr) {
    && (forall q :: q in s.core.disk ==> q in u.core.disk && u.core.disk[q] == s.core.disk[q])
    && p in u.core.disk && u.core.disk[p].key == k && u.live == s.live[k := p]
    && (forall q :: q in s.live ==> s.live[q] != p)
  }

  lemma RemapsItem(cfg: Config, s: State, u: State, k: Bytes, p: Addr, x: Item)
    requires Fits(cfg) && MapOk(cfg.g, s) && Remaps(s, u, k, p)
    ensures Represents(cfg, u, x)
        <==> x == ItemOf(cfg, u.core, p) || (Represents(cfg, s, x) && (k in s.live ==> x.pba != s.live[k]))
  {
    if Represents(cfg, u, x) && x.pba != p {
      var q := u.core.disk[x.pba].key;
      assert q != k && s.live[q] == x.pba;
      assert Mapped(s, q);
      assert k in s.live ==> Mapped(s, k);
    }
  }

  lemma InsertAgrees(cfg: Config, t: seq<Entry>, i: nat, s: State, u: State, k: Bytes, p: Addr)
    requires Fits(cfg) && |t| == cfg.n && WellFormed(t) && NoTombstones(t) && NoHoleBut(t, i)
    requires forall x :: Count(t, x) == if Represents(cfg, s, x) then 1 else 0
    requires MapOk(cfg.g, s) && Remaps(s, u, k, p) && k !in s.live
    requires cfg.fp(k).home <= i < cfg.fp(k).home + BUCKET && t[i].Unused? && AllUsed(t, cfg.fp(k).home, i)
    ensures Agree(cfg, t[i := Entered(cfg.g, u.core, cfg.fp(k), i, p)], u)
  {
    var y := ItemOf(cfg, u.core, p);
    PlaceKeeps(t, i, cfg.fp(k), y.size, p);
    forall x ensures (if Represents(cfg, s, x) then 1 else 0) + (if x == y then 1 else 0)
                  == if Represents(cfg, u, x) then 1 else 0 {
      RemapsItem(cfg, s, u, k, p, x);
    }
  }

  lemma ReplaceAgrees(cfg: Config, t: seq<Entry>, j: nat, e: Entry, s: State, u: State, k: Bytes, p: Addr)
    requires Fits(cfg) && Agree(cfg, t, s) && MapOk(cfg.g, s) && Remaps(s, u, k, p) && k in s.live
    requires j < |t| && t[j].Used? && t[j].pba == s.live[k]
    requires e == Used(t[j].off, cfg.fp(k).tag, ItemOf(cfg, u.core, p).size, p)
    ensures Agree(cfg, t[j := e], u)
  {
    EntryIsMapped(cfg, t, s, j);
    ReplaceNoHole(t, j, e);
    assert Mapped(s, k);
    forall x ensures Count(t[j := e], x) == if Represents(cfg, u, x) then 1 else 0 {
      CountUpdate(t, j, e, x);
      RemapsItem(cfg, s, u, k, p, x);
    }
  }

  /** What a step of one put does to an extent another put depends on. */
  predicate AgesAt(s: State, u: State, q: Addr) {
    && (q in s.core.disk ==> q in u.core.disk && u.core.disk[q] == s.core.disk[q])
    && (q in s.core.size ==> q in u.core.size)
    && (q in s.phase ==>
          && q in u.phase
          && (s.phase[q].Superseded? ==> u.phase[q].Superseded?)
          && (s.phase[q].Live? ==> u.phase[q].Live? || u.phase[q].Superseded?))
  }

  ghost predicate Ages(s: State, u: State) {
    forall q {:trigger AgesAt(s, u, q)} :: AgesAt(s, u, q)
  }

  lemma AgesStage(s: State, u: State, p: Addr, st: Stage)
    requires StageOk(s, p, st) && Ages(s, u) && p in u.phase && u.phase[p].InFlight?
    ensures StageOk(u, p, st)
  {
    assert AgesAt(s, u, p) && AgesAt(s, u, st.copy.pba);
    forall v | v in st.visited ensures Passed(u, s.core.disk[p].key, v) {
      assert AgesAt(s, u, v);
    }
  }

  predicate Ends(a: Action, q: Addr) { (a.Map? || a.Refuse?) && a.p == q }

  lemma MapAgesAt(g: Geometry, s: State, p: Addr, op: Op, q: Addr)
    requires Ok(g) && Inv(g, s) && Enabled(g, s, Map(p, op))
    ensures AgesAt(s, Apply(g, s, Map(p, op)), q)
    ensures q in s.phase && s.phase[q].InFlight? && q != p ==> Apply(g, s, Map(p, op)).phase[q].InFlight?
  {
    MapSame(g, s, p, op);
    if s.core.disk[p].key in s.live { assert Mapped(s, s.core.disk[p].key); }
  }

  lemma RelocateAgesAt(g: Geometry, s: State, key: Bytes, seg: nat, q: Addr)
    requires Ok(g) && Inv(g, s) && Enabled(g, s, Relocate(key, seg))
    ensures AgesAt(s, Apply(g, s, Relocate(key, seg)), q)
    ensures q in s.phase && s.phase[q].InFlight? ==> Apply(g, s, Relocate(key, seg)).phase[q].InFlight?
  {
    FrontierIsFresh(g, s.core, seg);
    assert Mapped(s, key);
  }

  lemma StepAgesAt(g: Geometry, s: State, a: Action, q: Addr)
    requires Ok(g) && Inv(g, s) && Enabled(g, s, a)
    ensures AgesAt(s, Apply(g, s, a), q)
    ensures q in s.phase && s.phase[q].InFlight? && !Ends(a, q) ==> Apply(g, s, a).phase[q].InFlight?
  {
    match a {
      case Reserve(seg, n) => FrontierIsFresh(g, s.core, seg);
      case Relocate(key, seg) => RelocateAgesAt(g, s, key, seg, q);
      case Write(p, key, val) => assert Logged(g, s, p);
      case Map(p, op) => MapAgesAt(g, s, p, op, q);
      case _ =>
    }
  }

  // ---------------------------------------------------------------- every step acts on the key map

  /** Nothing happened to the key map, or one action of the store did. */
  datatype Effect = Stutter | Does(a: Action)

  ghost predicate Acts(g: Geometry, s: State, f: Effect, u: State) requires Ok(g) {
    match f
    case Stutter => u == s
    case Does(a) => Enabled(g, s, a) && u == Apply(g, s, a)
  }

  /** `d` stands for the key map `to`, and `f` leads from one map to the other. */
  ghost predicate Follows(cfg: Config, c: Sys, live: map<Bytes, Addr>, f: Effect, d: Sys, to: map<Bytes, Addr>)
    requires Fits(cfg)
  {
    Acts(cfg.g, At(c, live), f, At(d, to)) && Sim(cfg, d, to)
  }

  /** An action keeps the relation if its new table does and the put it ends is gone. */
  lemma ActionFollows(cfg: Config, c: Sys, live: map<Bytes, Addr>, a: Action, d: Sys, to: map<Bytes, Addr>)
    requires Fits(cfg) && Sim(cfg, c, live) && Acts(cfg.g, At(c, live), Does(a), At(d, to))
    requires Agree(cfg, d.tbl, At(d, to))
    requires forall q :: q in d.puts ==> q in c.puts && d.puts[q] == c.puts[q] && !Ends(a, q)
    ensures Follows(cfg, c, live, Does(a), d, to)
  {
    var s, u := At(c, live), At(d, to);
    StepKeepsInv(cfg.g, s, a);
    forall q ensures AgesAt(s, u, q) { StepAgesAt(cfg.g, s, a, q); }
    forall q | q in d.puts ensures StageOk(u, q, d.puts[q]) {
      assert StageOk(s, q, c.puts[q]);
      StepAgesAt(cfg.g, s, a, q);
      AgesStage(s, u, q, d.puts[q]);
    }
  }

  lemma UnmappedAgrees(cfg: Config, t: seq<Entry>, s: State, a: Action)
    requires Fits(cfg) && Inv(cfg.g, s) && Agree(cfg, t, s) && Enabled(cfg.g, s, a) && Apply(cfg.g, s, a).live == s.live
    ensures Agree(cfg, t, Apply(cfg.g, s, a))
  {
    var u := Apply(cfg.g, s, a);
    forall q | q in s.core.disk ensures q in u.core.disk && u.core.disk[q] == s.core.disk[q] {
      StepAgesAt(cfg.g, s, a, q);
    }
    SameAgree(cfg, t, s, u);
  }

  lemma BackgroundFollows(cfg: Config, c: Sys, live: map<Bytes, Addr>, a: Action, d: Sys)
    requires Fits(cfg) && Sim(cfg, c, live) && Step(cfg, c, Background(a), d)
    ensures Follows(cfg, c, live, Does(a), d, live)
  {
    assert At(d, live) == Apply(cfg.g, At(c, live), a);
    UnmappedAgrees(cfg, c.tbl, At(c, live), a);
    ActionFollows(cfg, c, live, a, d, live);
  }

  /** A put that ends without touching the map. */
  lemma DropFollows(cfg: Config, c: Sys, live: map<Bytes, Addr>, a: Action, h: Phase, d: Sys)
    requires Fits(cfg) && Sim(cfg, c, live) && (a.Map? || a.Refuse?) && Enabled(cfg.g, At(c, live), a)
    requires Apply(cfg.g, At(c, live), a) == Drop(cfg.g, At(c, live), a.p, h)
    requires d == Done(c, c.tbl, Drop(cfg.g, At(c, map[]), a.p, h), a.p)
    ensures Follows(cfg, c, live, Does(a), d, live)
  {
    assert At(d, live) == Apply(cfg.g, At(c, live), a);
    UnmappedAgrees(cfg, c.tbl, At(c, live), a);
    ActionFollows(cfg, c, live, a, d, live);
  }

  /** The slot an insertion needs: the first unused one of the bucket, and the only hole of `t`. */
  ghost predicate CanFill(t: seq<Entry>, home: nat, i: nat) {
    && WellFormed(t) && NoTombstones(t) && NoHoleBut(t, i)
    && home <= i < home + BUCKET && i < |t| && t[i].Unused? && AllUsed(t, home, i)
  }

  lemma InsertFollows(cfg: Config, c: Sys, live: map<Bytes, Addr>, t: seq<Entry>, p: Addr, op: Op, i: nat)
    requires Fits(cfg) && Sim(cfg, c, live) && InFlightAt(At(c, live), p) && !op.Replace?
    requires c.core.disk[p].key !in live && |t| == cfg.n && SameContents(c.tbl, t)
    requires CanFill(t, cfg.fp(c.core.disk[p].key).home, i)
    ensures Follows(cfg, c, live, Does(Map(p, op)), Absent(cfg, c, t, p, op, i), live[c.core.disk[p].key := p])
  {
    var k := c.core.disk[p].key;
    var s := At(c, live);
    var d, to := Absent(cfg, c, t, p, op, i), live[k := p];
    assert Logged(cfg.g, s, p);
    assert At(d, to) == Apply(cfg.g, s, Map(p, op));
    forall q | q in s.live ensures s.live[q] != p { assert Mapped(s, q); }
    InsertAgrees(cfg, t, i, s, At(d, to), k, p);
    ActionFollows(cfg, c, live, Map(p, op), d, to);
  }

  lemma RejectFollows(cfg: Config, c: Sys, live: map<Bytes, Addr>, p: Addr, i: nat)
    requires Fits(cfg) && Sim(cfg, c, live) && InFlightAt(At(c, live), p)
    requires c.core.disk[p].key !in live && cfg.fp(c.core.disk[p].key).home <= i < |c.tbl|
    ensures Follows(cfg, c, live, Does(Map(p, Replace)), Absent(cfg, c, c.tbl, p, Replace, i), live)
  {
    assert Logged(cfg.g, At(c, live), p);
    DropFollows(cfg, c, live, Map(p, Replace), Refused, Absent(cfg, c, c.tbl, p, Replace, i));
  }

  function Mapping(c: Sys, live: map<Bytes, Addr>, p: Addr, op: Op): map<Bytes, Addr>
    requires p in c.core.disk
  {
    if op.Replace? then live else live[c.core.disk[p].key := p]
  }

  lemma AbsentFollows(cfg: Config, c: Sys, live: map<Bytes, Addr>, p: Addr, op: Op, i: nat)
    requires Fits(cfg) && Sim(cfg, c, live) && InFlightAt(At(c, live), p)
    requires c.core.disk[p].key !in live
    requires CanFill(c.tbl, cfg.fp(c.core.disk[p].key).home, i)
    ensures Follows(cfg, c, live, Does(Map(p, op)), Absent(cfg, c, c.tbl, p, op, i), Mapping(c, live, p, op))
  {
    if op.Replace? {
      RejectFollows(cfg, c, live, p, i);
    } else {
      InsertFollows(cfg, c, live, c.tbl, p, op, i);
    }
  }

  /** A displacement leaves a hole: it failed after moving an entry, or it freed a slot that a
      rejected REPLACE then leaves unfilled. */
  predicate Dirty(t: seq<Entry>, home: nat, op: Op)
    requires WellFormed(t) && NoTombstones(t) && AllUsed(t, home, home + BUCKET)
  {
    var r := TryShift(t, home);
    if r.slot.NoData? then op.Replace? else r.t != t
  }

  /** Exactly the dirty displacements leave a table in which lookups miss entries. */
  lemma DirtyLeavesHole(cfg: Config, c: Sys, live: map<Bytes, Addr>, p: Addr, op: Op, d: Sys)
    requires Fits(cfg) && Sim(cfg, c, live) && p in c.core.disk && Displaces(cfg, c, p, op, d)
    ensures NoHole(d.tbl) <==> !Dirty(c.tbl, cfg.fp(c.core.disk[p].key).home, op)
  {
    var home := cfg.fp(c.core.disk[p].key).home;
    TryShiftKeeps(c.tbl, home);
    TryShiftHoles(c.tbl, home);
    var r := TryShift(c.tbl, home);
    if r.slot.NoData? && !op.Replace? {
      FillNoHole(r.t, r.slot.i, home, Entered(cfg.g, c.core, cfg.fp(c.core.disk[p].key), r.slot.i, p));
    }
  }

  /** The put of `p` goes on: it has found a candidate it has not looked at, after those in `visited`. */
  predicate GoesOn(cfg: Config, c: Sys, p: Addr, op: Op, visited: seq<Addr>, d: Sys) {
    && p in c.core.disk && p in d.puts && d.puts[p].Looking? && d.puts[p].op == op && d.puts[p].visited == visited
    && Matches(c.tbl, cfg.fp(c.core.disk[p].key), d.puts[p].i) && d.puts[p].copy == c.tbl[d.puts[p].i]
    && d.puts[p].copy.pba !in visited && d == c.(puts := c.puts[p := d.puts[p]])
  }

  /** The put of `p` gives up for now: its key is unmapped, its bucket is full, and no entry can be
      displaced. */
  ghost predicate FindsNoRoom(cfg: Config, c: Sys, live: map<Bytes, Addr>, p: Addr, d: Sys) {
    && p in c.core.disk && d == c.(puts := c.puts - {p})
    && var k := c.core.disk[p].key;
    && k !in live && WellFormed(c.tbl) && NoTombstones(c.tbl)
    && AllUsed(c.tbl, cfg.fp(k).home, cfg.fp(k).home + BUCKET)
    && TryShift(c.tbl, cfg.fp(k).home) == Shift(c.tbl, NoSpace)
  }

  /** What a step of a put comes to: its Map action, with which it ends, or nothing for a reason. */
  ghost predicate PutEffect(cfg: Config, c: Sys, live: map<Bytes, Addr>, p: Addr, op: Op, visited: seq<Addr>,
                            f: Effect, d: Sys) {
    match f
    case Does(a) => a == Map(p, op) && p !in d.puts
    case Stutter => GoesOn(cfg, c, p, op, visited, d) || FindsNoRoom(cfg, c, live, p, d)
  }

  lemma ShiftedCanFill(t: seq<Entry>, home: nat)
    requires Sound(t) && AllUsed(t, home, home + BUCKET)
    ensures var r := TryShift(t, home);
            && |r.t| == |t| && !r.slot.Found? && (r.slot.NoData? ==> CanFill(r.t, home, r.slot.i))
            && SameContents(t, r.t)
  {
    TryShiftKeeps(t, home);
    TryShiftHoles(t, home);
  }

  lemma NoRoomFollows(cfg: Config, c: Sys, live: map<Bytes, Addr>, p: Addr, op: Op, d: Sys)
    requires Fits(cfg) && Sim(cfg, c, live) && p in c.core.disk && Displaces(cfg, c, p, op, d)
    requires c.core.disk[p].key !in live && !Dirty(c.tbl, cfg.fp(c.core.disk[p].key).home, op)
    requires !TryShift(c.tbl, cfg.fp(c.core.disk[p].key).home).slot.NoData?
    ensures Follows(cfg, c, live, Stutter, d, live) && FindsNoRoom(cfg, c, live, p, d)
  {
    ShiftedCanFill(c.tbl, cfg.fp(c.core.disk[p].key).home);
  }

  lemma DisplacesFollows(cfg: Config, c: Sys, live: map<Bytes, Addr>, p: Addr, op: Op, d: Sys)
      returns (f: Effect, to: map<Bytes, Addr>)
    requires Fits(cfg) && Sim(cfg, c, live) && InFlightAt(At(c, live), p)
    requires c.core.disk[p].key !in live && Displaces(cfg, c, p, op, d)
    requires !Dirty(c.tbl, cfg.fp(c.core.disk[p].key).home, op)
    ensures Follows(cfg, c, live, f, d, to)
    ensures if f.Does? then f.a == Map(p, op) && p !in d.puts else FindsNoRoom(cfg, c, live, p, d)
  {
    var r := TryShift(c.tbl, cfg.fp(c.core.disk[p].key).home);
    if r.slot.NoData? {
      ShiftedCanFill(c.tbl, cfg.fp(c.core.disk[p].key).home);
      InsertFollows(cfg, c, live, r.t, p, op, r.slot.i);
      f, to := Does(Map(p, op)), Mapping(c, live, p, op);
    } else {
      NoRoomFollows(cfg, c, live, p, op, d);
      f, to := Stutter, live;
    }
  }

  ghost predicate AllPassed(s: State, p: Addr, visited: seq<Addr>) requires p in s.core.disk {
    forall v :: v in visited ==> Passed(s, s.core.disk[p].key, v)
  }

  lemma CandFollows(cfg: Config, c: Sys, live: map<Bytes, Addr>, p: Addr, op: Op, visited: seq<Addr>, i: nat, d: Sys)
    requires Fits(cfg) && Sim(cfg, c, live) && InFlightAt(At(c, live), p) && AllPassed(At(c, live), p, visited)
    requires Searched(cfg, c, p, op, visited, Cand(i), d)
    ensures Follows(cfg, c, live, Stutter, d, live) && GoesOn(cfg, c, p, op, visited, d)
  {
    var s := At(c, live);
    EntryIsMapped(cfg, c.tbl, s, i);
    var v := c.tbl[i].pba;
    assert Mapped(s, c.core.disk[v].key);
    forall q | q in d.puts ensures StageOk(s, q, d.puts[q]) {
      if q != p { assert StageOk(s, q, c.puts[q]); }
    }
  }

  /** The bucket is full and the search found no candidate: the put will displace. */
  predicate Attempts(cfg: Config, t: seq<Entry>, k: Bytes, r: Common)
    requires |t| == cfg.n && cfg.fp(k).home + BUCKET <= |t|
  {
    var home := cfg.fp(k).home;
    match r
    case Cand(i) => false
    case Miss(l) => l.NoSpace?
    case Exhausted => FreeFrom(t, home, home + BUCKET) == home + BUCKET
  }

  ghost predicate SearchDirty(cfg: Config, c: Sys, p: Addr, op: Op, r: Common)
    requires Fits(cfg) && |c.tbl| == cfg.n && p in c.core.disk
  {
    var k := c.core.disk[p].key;
    && Attempts(cfg, c.tbl, k, r)
    && WellFormed(c.tbl) && NoTombstones(c.tbl) && AllUsed(c.tbl, cfg.fp(k).home, cfg.fp(k).home + BUCKET)
    && Dirty(c.tbl, cfg.fp(k).home, op)
  }

  lemma SlotCanFill(cfg: Config, t: seq<Entry>, fp: Fp, visited: seq<Addr>, r: Common)
    requires Sound(t) && IsCommon(t, fp, visited, r)
    ensures r.Miss? && r.l.NoData? ==> CanFill(t, fp.home, r.l.i)
    ensures r.Exhausted? && FreeFrom(t, fp.home, fp.home + BUCKET) < fp.home + BUCKET
        ==> CanFill(t, fp.home, FreeFrom(t, fp.home, fp.home + BUCKET))
  {
  }

  lemma RoomFollows(cfg: Config, c: Sys, live: map<Bytes, Addr>, p: Addr, op: Op, visited: seq<Addr>, r: Common, d: Sys)
    requires Fits(cfg) && Sim(cfg, c, live) && InFlightAt(At(c, live), p) && c.core.disk[p].key !in live
    requires Searched(cfg, c, p, op, visited, r, d) && !r.Cand? && !Attempts(cfg, c.tbl, c.core.disk[p].key, r)
    ensures Follows(cfg, c, live, Does(Map(p, op)), d, Mapping(c, live, p, op)) && p !in d.puts
  {
    var fp := cfg.fp(c.core.disk[p].key);
    SlotCanFill(cfg, c.tbl, fp, visited, r);
    var i := if r.Miss? then r.l.i else FreeFrom(c.tbl, fp.home, fp.home + BUCKET);
    AbsentFollows(cfg, c, live, p, op, i);
  }

  lemma SearchFollows(cfg: Config, c: Sys, live: map<Bytes, Addr>, p: Addr, op: Op, visited: seq<Addr>, r: Common,
                      d: Sys)
      returns (f: Effect, to: map<Bytes, Addr>)
    requires Fits(cfg) && Sim(cfg, c, live) && InFlightAt(At(c, live), p) && AllPassed(At(c, live), p, visited)
    requires Searched(cfg, c, p, op, visited, r, d) && !SearchDirty(cfg, c, p, op, r)
    ensures Follows(cfg, c, live, f, d, to) && PutEffect(cfg, c, live, p, op, visited, f, d)
  {
    if r.Cand? {
      CandFollows(cfg, c, live, p, op, visited, r.i, d);
      return Stutter, live;
    }
    AbsentIsUnmapped(cfg, c.tbl, At(c, live), c.core.disk[p].key, visited, r);
    if Attempts(cfg, c.tbl, c.core.disk[p].key, r) {
      f, to := DisplacesFollows(cfg, c, live, p, op, d);
    } else {
      RoomFollows(cfg, c, live, p, op, visited, r, d);
      f, to := Does(Map(p, op)), Mapping(c, live, p, op);
    }
  }

  /** A revalidated match is the entry of the searched key: the key maps to that extent now. */
  lemma PresentIsMapped(cfg: Config, c: Sys, live: map<Bytes, Addr>, k: Bytes, j: nat)
    requires Fits(cfg) && Sim(cfg, c, live) && j < |c.tbl| && c.tbl[j].Used?
    requires c.tbl[j].pba in c.core.disk && c.core.disk[c.tbl[j].pba].key == k
    ensures k in live && live[k] == c.tbl[j].pba
  {
    EntryIsMapped(cfg, c.tbl, At(c, live), j);
  }

  lemma UpdateFollows(cfg: Config, c: Sys, live: map<Bytes, Addr>, p: Addr, op: Op, j: nat, d: Sys)
    requires Fits(cfg) && Sim(cfg, c, live) && InFlightAt(At(c, live), p) && Present(cfg, c, p, op, j, d)
    requires c.core.disk[p].key in live && live[c.core.disk[p].key] == c.tbl[j].pba
    requires !op.Create? && InOrder(cfg.g, c.core, c.tbl[j].pba, p)
    ensures Follows(cfg, c, live, Does(Map(p, op)), d, live[c.core.disk[p].key := p])
  {
    var k := c.core.disk[p].key;
    var s := At(c, live);
    var to := live[k := p];
    assert At(d, to) == Apply(cfg.g, s, Map(p, op));
    forall q | q in s.live ensures s.live[q] != p { assert Mapped(s, q); }
    ReplaceAgrees(cfg, c.tbl, j, d.tbl[j], s, At(d, to), k, p);
    ActionFollows(cfg, c, live, Map(p, op), d, to);
  }

  lemma PresentFollows(cfg: Config, c: Sys, live: map<Bytes, Addr>, p: Addr, op: Op, j: nat, d: Sys)
      returns (to: map<Bytes, Addr>)
    requires Fits(cfg) && Sim(cfg, c, live) && InFlightAt(At(c, live), p) && Present(cfg, c, p, op, j, d)
    requires c.core.disk[c.tbl[j].pba].key == c.core.disk[p].key
    ensures Follows(cfg, c, live, Does(Map(p, op)), d, to)
  {
    PresentIsMapped(cfg, c, live, c.core.disk[p].key, j);
    if op.Create? {
      DropFollows(cfg, c, live, Map(p, op), Refused, d);
      to := live;
    } else if InOrder(cfg.g, c.core, c.tbl[j].pba, p) {
      UpdateFollows(cfg, c, live, p, op, j, d);
      to := live[c.core.disk[p].key := p];
    } else {
      DropFollows(cfg, c, live, Map(p, op), Stale, d);
      to := live;
    }
  }

  /** A matching candidate that is still mapped is found again. */
  lemma LiveRejoins(cfg: Config, c: Sys, live: map<Bytes, Addr>, p: Addr, st: Stage)
    requires Fits(cfg) && Sim(cfg, c, live) && StageOk(At(c, live), p, st) && st.Compared?
    requires st.same && c.phase[st.copy.pba].Live?
    ensures exists j :: Rejoins(cfg, c, p, st, j)
  {
    assert Logged(cfg.g, At(c, live), st.copy.pba);
    var j := MappedHasEntry(cfg, c.tbl, At(c, live), c.core.disk[p].key);
    assert Rejoins(cfg, c, p, st, st.i) || Rejoins(cfg, c, p, st, j);
  }

  /** A candidate that did not match, or whose entry is gone, can be passed over from now on. */
  lemma PassesOver(cfg: Config, c: Sys, live: map<Bytes, Addr>, p: Addr, st: Stage)
    requires Fits(cfg) && Sim(cfg, c, live) && StageOk(At(c, live), p, st) && st.Compared?
    requires !exists j :: Rejoins(cfg, c, p, st, j)
    ensures AllPassed(At(c, live), p, st.visited + [st.copy.pba])
  {
    if st.same && c.phase[st.copy.pba].Live? {
      LiveRejoins(cfg, c, live, p, st);
    }
  }

  lemma GcFollows(cfg: Config, c: Sys, live: map<Bytes, Addr>, p: Addr, seg: nat, j: nat, d: Sys)
    requires Fits(cfg) && Sim(cfg, c, live) && p in c.core.disk
    requires HeldAt(c.tbl, cfg.fp(c.core.disk[p].key).home, p, j) && Moved(cfg, c, p, seg, j, d)
    ensures var k := c.core.disk[p].key;
            Follows(cfg, c, live, Does(Relocate(k, seg)), d, live[k := Frontier(c.core, seg)])
  {
    var r := c.core.disk[p];
    var s := At(c, live);
    PresentIsMapped(cfg, c, live, r.key, j);
    var f := Frontier(c.core, seg);
    var to := live[r.key := f];
    assert At(d, to) == Apply(cfg.g, s, Relocate(r.key, seg));
    FrontierIsFresh(cfg.g, c.core, seg);
    forall q | q in s.live ensures s.live[q] != f { assert Mapped(s, q); }
    ReplaceAgrees(cfg, c.tbl, j, d.tbl[j], s, At(d, to), r.key, f);
    ActionFollows(cfg, c, live, Relocate(r.key, seg), d, to);
  }

  lemma MoveFollows(cfg: Config, c: Sys, live: map<Bytes, Addr>, p: Addr, seg: nat, d: Sys)
      returns (f: Effect, to: map<Bytes, Addr>)
    requires Fits(cfg) && Sim(cfg, c, live) && p in c.core.disk && Moves(cfg, c, p, seg, d)
    ensures Follows(cfg, c, live, f, d, to)
    ensures var k := c.core.disk[p].key;
            f == if k in live && live[k] == p then Does(Relocate(k, seg)) else Stutter
  {
    var k := c.core.disk[p].key;
    var home := cfg.fp(k).home;
    if exists j :: HeldAt(c.tbl, home, p, j) {
      var j :| HeldAt(c.tbl, home, p, j) && Moved(cfg, c, p, seg, j, d);
      GcFollows(cfg, c, live, p, seg, j, d);
      PresentIsMapped(cfg, c, live, k, j);
      f, to := Does(Relocate(k, seg)), live[k := Frontier(c.core, seg)];
    } else {
      if k in live && live[k] == p {
        var j := MappedHasEntry(cfg, c.tbl, At(c, live), k);
      }
      f, to := Stutter, live;
    }
  }

  lemma ReadFollows(cfg: Config, c: Sys, live: map<Bytes, Addr>, p: Addr, d: Sys)
    requires Fits(cfg) && Sim(cfg, c, live) && Step(cfg, c, Read(p), d)
    ensures Follows(cfg, c, live, Stutter, d, live)
  {
    var s := At(c, live);
    assert StageOk(s, p, c.puts[p]);
    forall q | q in d.puts ensures StageOk(s, q, d.puts[q]) {
      if q != p { assert StageOk(s, q, c.puts[q]); }
    }
  }

  lemma RecheckFollows(cfg: Config, c: Sys, live: map<Bytes, Addr>, p: Addr, d: Sys)
      returns (f: Effect, to: map<Bytes, Addr>)
    requires Fits(cfg) && Sim(cfg, c, live) && Step(cfg, c, Recheck(p), d) && !LeavesHole(cfg, c, Recheck(p))
    ensures Follows(cfg, c, live, f, d, to)
    ensures var st := c.puts[p]; PutEffect(cfg, c, live, p, st.op, st.visited + [st.copy.pba], f, d)
  {
    var st := c.puts[p];
    assert StageOk(At(c, live), p, st);
    if exists j :: Rejoins(cfg, c, p, st, j) {
      var j :| Rejoins(cfg, c, p, st, j) && Present(cfg, c, p, st.op, j, d);
      to := PresentFollows(cfg, c, live, p, st.op, j, d);
      f := Does(Map(p, st.op));
    } else {
      PassesOver(cfg, c, live, p, st);
      var r :| Searched(cfg, c, p, st.op, st.visited + [st.copy.pba], r, d);
      f, to := SearchFollows(cfg, c, live, p, st.op, st.visited + [st.copy.pba], r, d);
    }
  }

  // ---------------------------------------------------------------- when a step leaves a hole

  ghost predicate EndsDirty(cfg: Config, c: Sys, p: Addr, op: Op, visited: seq<Addr>)
    requires Fits(cfg) && p in c.core.disk
  {
    && |c.tbl| == cfg.n
    && exists r :: IsCommon(c.tbl, cfg.fp(c.core.disk[p].key), visited, r) && SearchDirty(cfg, c, p, op, r)
  }

  /** The step's search ends in a dirty displacement. */
  ghost predicate LeavesHole(cfg: Config, c: Sys, e: Event) requires Fits(cfg) {
    match e
    case Start(p, op) => p in c.core.disk && EndsDirty(cfg, c, p, op, [])
    case Recheck(p) =>
      && p in c.puts && p in c.core.disk && c.puts[p].Compared? && c.puts[p].copy.Used?
      && (!exists j :: Rejoins(cfg, c, p, c.puts[p], j))
      && EndsDirty(cfg, c, p, c.puts[p].op, c.puts[p].visited + [c.puts[p].copy.pba])
    case _ => false
  }

  lemma AttemptsAgain(cfg: Config, t: seq<Entry>, k: Bytes, visited: seq<Addr>, r: Common, q: Common)
    requires Fits(cfg) && |t| == cfg.n && Sound(t)
    requires IsCommon(t, cfg.fp(k), visited, r) && IsCommon(t, cfg.fp(k), visited, q)
    requires Attempts(cfg, t, k, r)
    ensures Attempts(cfg, t, k, q)
  {
    if r.Miss? { LookupComplete(t, cfg.fp(k), r.l); }
    if q.Miss? { LookupComplete(t, cfg.fp(k), q.l); }
  }

  lemma SearchLeavesHole(cfg: Config, c: Sys, live: map<Bytes, Addr>, p: Addr, op: Op, visited: seq<Addr>, r: Common,
                         d: Sys)
    requires Fits(cfg) && Sim(cfg, c, live) && InFlightAt(At(c, live), p) && Searched(cfg, c, p, op, visited, r, d)
    requires EndsDirty(cfg, c, p, op, visited)
    ensures !NoHole(d.tbl)
  {
    var k := c.core.disk[p].key;
    var q :| IsCommon(c.tbl, cfg.fp(k), visited, q) && SearchDirty(cfg, c, p, op, q);
    AttemptsAgain(cfg, c.tbl, k, visited, q, r);
    DirtyLeavesHole(cfg, c, live, p, op, d);
  }

  /** The one way a step leaves a hole in the table: a search that ends in a dirty displacement. */
  lemma HolesComeFromDisplacement(cfg: Config, c: Sys, live: map<Bytes, Addr>, e: Event, d: Sys)
    requires Fits(cfg) && Sim(cfg, c, live) && Step(cfg, c, e, d)
    ensures NoHole(d.tbl) <==> !LeavesHole(cfg, c, e)
  {
    if LeavesHole(cfg, c, e) {
      if e.Start? {
        var r :| Searched(cfg, c, e.p, e.op, [], r, d);
        SearchLeavesHole(cfg, c, live, e.p, e.op, [], r, d);
      } else {
        var st := c.puts[e.p];
        assert StageOk(At(c, live), e.p, st);
        var r :| Searched(cfg, c, e.p, st.op, st.visited + [st.copy.pba], r, d);
        SearchLeavesHole(cfg, c, live, e.p, st.op, st.visited + [st.copy.pba], r, d);
      }
    } else {
      var f, to := StepFollows(cfg, c, live, e, d);
    }
  }

  predicate IsPut(e: Event) { e.Start? || e.Recheck? }

  function OpOf(c: Sys, e: Event): Op requires IsPut(e) && (e.Recheck? ==> e.p in c.puts) {
    if e.Start? then e.op else c.puts[e.p].op
  }

  /** What a step comes to for the key map. A put is its Map action, unless it goes on searching or finds
      no room; the collector moves exactly the records that are mapped. */
  ghost predicate EffectOf(cfg: Config, c: Sys, live: map<Bytes, Addr>, e: Event, f: Effect, d: Sys) {
    match e
    case Background(a) => f == Does(a)
    case Start(p, op) => PutEffect(cfg, c, live, p, op, [], f, d)
    case Read(p) => f == Stutter
    case Recheck(p) =>
      && p in c.puts && c.puts[p].copy.Used? && var st := c.puts[p];
      PutEffect(cfg, c, live, p, st.op, st.visited + [st.copy.pba], f, d)
    case Fail(p) => f == Does(Refuse(p))
    case GcMove(p, seg) =>
      && p in c.core.disk && var k := c.core.disk[p].key;
      f == if k in live && live[k] == p then Does(Relocate(k, seg)) else Stutter
  }

  /** Every step that leaves no hole is, on the key map the table stands for, nothing or one
      action of the store; a put's locked section, with all its reads, is its Map action. */
  lemma StepFollows(cfg: Config, c: Sys, live: map<Bytes, Addr>, e: Event, d: Sys)
      returns (f: Effect, to: map<Bytes, Addr>)
    requires Fits(cfg) && Sim(cfg, c, live) && Step(cfg, c, e, d) && !LeavesHole(cfg, c, e)
    ensures Follows(cfg, c, live, f, d, to) && EffectOf(cfg, c, live, e, f, d)
  {
    match e {
      case Background(a) =>
        BackgroundFollows(cfg, c, live, a, d);
        f, to := Does(a), live;
      case Start(p, op) =>
        var r :| Searched(cfg, c, p, op, [], r, d);
        assert IsCommon(c.tbl, cfg.fp(c.core.disk[p].key), [], r);
        f, to := SearchFollows(cfg, c, live, p, op, [], r, d);
      case Read(p) =>
        ReadFollows(cfg, c, live, p, d);
        f, to := Stutter, live;
      case Recheck(p) =>
        f, to := RecheckFollows(cfg, c, live, p, d);
      case Fail(p) =>
        DropFollows(cfg, c, live, Refuse(p), Refused, d);
        f, to := Does(Refuse(p)), live;
      case GcMove(p, seg) =>
        f, to := MoveFollows(cfg, c, live, p, seg, d);
    }
  }

  // ---------------------------------------------------------------- no put is stuck

  /** The first slot of the bucket from `i` on that matches and is not visited, or the bucket's end. */
  function FirstCandidate(t: seq<Entry>, fp: Fp, visited: seq<Addr>, i: nat): (r: nat)
    requires fp.home <= i <= fp.home + BUCKET <= |t|
    ensures i <= r <= fp.home + BUCKET
    ensures forall j :: i <= j < r && Matches(t, fp, j) ==> t[j].pba in visited
    ensures r < fp.home + BUCKET ==> Matches(t, fp, r) && t[r].pba !in visited
    decreases fp.home + BUCKET - i
  {
    if i == fp.home + BUCKET || (Matches(t, fp, i) && t[i].pba !in visited) then i
    else FirstCandidate(t, fp, visited, i + 1)
  }

  /** Every search of the table has an outcome. */
  lemma SearchAnswers(t: seq<Entry>, fp: Fp, visited: seq<Addr>) returns (r: Common)
    requires Sound(t) && InTable(t, fp.home)
    ensures IsCommon(t, fp, visited, r)
  {
    var c := FirstCandidate(t, fp, visited, fp.home);
    var f := FreeFrom(t, fp.home, fp.home + BUCKET);
    if c < fp.home + BUCKET {
      r := Cand(c);
    } else if exists i :: Matches(t, fp, i) {
      r := Exhausted;
    } else {
      r := Miss(if f < fp.home + BUCKET then NoData(f) else NoSpace);
    }
  }

  lemma SearchSteps(cfg: Config, c: Sys, p: Addr, op: Op, visited: seq<Addr>) returns (r: Common, d: Sys)
    requires Fits(cfg) && p in c.core.disk && |c.tbl| == cfg.n && Sound(c.tbl)
    ensures Searched(cfg, c, p, op, visited, r, d)
  {
    var fp := cfg.fp(c.core.disk[p].key);
    r := SearchAnswers(c.tbl, fp, visited);
    if r.Cand? {
      d := c.(puts := c.puts[p := Looking(op, visited, r.i, c.tbl[r.i])]);
    } else {
      var f := FreeFrom(c.tbl, fp.home, fp.home + BUCKET);
      if r.Miss? && r.l.NoData? {
        d := Absent(cfg, c, c.tbl, p, op, r.l.i);
      } else if r.Exhausted? && f < fp.home + BUCKET {
        d := Absent(cfg, c, c.tbl, p, op, f);
      } else {
        d := DisplaceSteps(cfg, c, p, op);
      }
    }
  }

  lemma DisplaceSteps(cfg: Config, c: Sys, p: Addr, op: Op) returns (d: Sys)
    requires Fits(cfg) && p in c.core.disk && |c.tbl| == cfg.n && Sound(c.tbl)
    requires var home := cfg.fp(c.core.disk[p].key).home; AllUsed(c.tbl, home, home + BUCKET)
    ensures Displaces(cfg, c, p, op, d)
  {
    var home := cfg.fp(c.core.disk[p].key).home;
    TryShiftKeeps(c.tbl, home);
    var r := TryShift(c.tbl, home);
    d := if r.slot.NoData? then Absent(cfg, c, r.t, p, op, r.slot.i) else c.(tbl := r.t, puts := c.puts - {p});
  }

  lemma PresentSteps(cfg: Config, c: Sys, live: map<Bytes, Addr>, p: Addr, op: Op, j: nat) returns (d: Sys)
    requires Fits(cfg) && Sim(cfg, c, live) && InFlightAt(At(c, live), p) && j < |c.tbl| && c.tbl[j].Used?
    ensures Present(cfg, c, p, op, j, d)
  {
    EntryIsMapped(cfg, c.tbl, At(c, live), j);
    assert Logged(cfg.g, At(c, live), p);
    var was := c.tbl[j].pba;
    if op.Create? {
      d := Done(c, c.tbl, Drop(cfg.g, At(c, map[]), p, Refused), p);
    } else if !InOrder(cfg.g, c.core, was, p) {
      d := Done(c, c.tbl, Drop(cfg.g, At(c, map[]), p, Stale), p);
    } else {
      var e := Used(c.tbl[j].off, cfg.fp(c.core.disk[p].key).tag,
                    Min(Grains(cfg.g, |c.core.disk[p].key|, |c.core.disk[p].val|), MAX_SIZE), p);
      d := Done(c, c.tbl[j := e],
                State(ReplaceCore(cfg.g, c.core, was, p), map[], c.phase[was := Superseded][p := Phase.Live]), p);
    }
  }

  /** In every state a run can reach, every put that is still at work can take its next step. */
  lemma PutIsNeverStuck(cfg: Config, c: Sys, live: map<Bytes, Addr>, p: Addr, op: Op) returns (e: Event, d: Sys)
    requires Fits(cfg) && Sim(cfg, c, live) && InFlightAt(At(c, live), p)
    ensures Step(cfg, c, e, d) && (IsPut(e) || e.Read?) && e.p == p
  {
    assert Logged(cfg.g, At(c, live), p);
    if p !in c.puts {
      var r;
      r, d := SearchSteps(cfg, c, p, op, []);
      e := Start(p, op);
      return;
    }
    var st := c.puts[p];
    assert StageOk(At(c, live), p, st);
    if st.Looking? {
      e := Read(p);
      d := c.(puts := c.puts[p := Compared(st.op, st.visited, st.i, st.copy,
                                           c.core.disk[st.copy.pba].key == c.core.disk[p].key)]);
    } else {
      e := Recheck(p);
      if exists j :: Rejoins(cfg, c, p, st, j) {
        var j :| Rejoins(cfg, c, p, st, j);
        d := PresentSteps(cfg, c, live, p, st.op, j);
      } else {
        var r;
        r, d := SearchSteps(cfg, c, p, st.op, st.visited + [st.copy.pba]);
      }
    }
  }

  // ---------------------------------------------------------------- runs

  ghost predicate SysRun(cfg: Config, events: seq<Event>, run: seq<Sys>) requires Fits(cfg) {
    && |run| == |events| + 1 && run[0] == Boot(cfg)
    && forall i {:trigger events[i]} :: 0 <= i < |events| ==>
         Step(cfg, run[i], events[i], run[i + 1])
  }

  lemma SysRunExtends(cfg: Config, events: seq<Event>, run: seq<Sys>, e: Event, d: Sys)
    requires Fits(cfg) && SysRun(cfg, events, run) && Step(cfg, run[|events|], e, d)
    ensures SysRun(cfg, events + [e], run + [d])
  {
    forall i | 0 <= i < |events + [e]| ensures Step(cfg, (run + [d])[i], (events + [e])[i], (run + [d])[i + 1]) {
      assert i < |events| ==> events[i] == (events + [e])[i];
    }
  }

  /** None of the first `n` steps of the run ended in a dirty displacement. */
  ghost predicate CleanTo(cfg: Config, events: seq<Event>, run: seq<Sys>, n: nat)
    requires Fits(cfg) && |run| == |events| + 1 && n <= |events|
  {
    forall i {:trigger events[i]} :: 0 <= i < n ==> !LeavesHole(cfg, run[i], events[i])
  }

  /** No step of the run ended in a dirty displacement. */
  ghost predicate Clean(cfg: Config, events: seq<Event>, run: seq<Sys>)
    requires Fits(cfg) && |run| == |events| + 1
  {
    CleanTo(cfg, events, run, |events|)
  }
}
