/** Extent and counter accounting over every run, GC and error paths included
    (src/uDepot/udepot-lsa.cc, src/include/uDepot/uDepot.hh). */
module KvAccounting {
  import opened Extents
  import opened Octets
  import opened KvStore
  import opened KvRuns
  import opened KvRecovery

  // ---------------------------------------------------------------- sums over a map

  ghost function Sum(m: map<Bytes, nat>): nat {
    if m == map[] then 0
    else
      var k :| k in m;
      m[k] + Sum(m - {k})
  }

  lemma {:induction false} SumPick(m: map<Bytes, nat>, k: Bytes)
    requires k in m
    ensures Sum(m) == m[k] + Sum(m - {k})
    decreases |m|
  {
    var j :| j in m && Sum(m) == m[j] + Sum(m - {j});
    if j != k {
      SumPick(m - {j}, k);
      SumPick(m - {k}, j);
      assert m - {j} - {k} == m - {k} - {j};
    }
  }

  lemma SumPut(m: map<Bytes, nat>, k: Bytes, w: nat)
    ensures Sum(m[k := w]) == Sum(m) + w - if k in m then m[k] else 0
  {
    SumPick(m[k := w], k);
    assert m[k := w] - {k} == m - {k};
    if k in m {
      SumPick(m, k);
    } else {
      assert m - {k} == m;
    }
  }

  // ---------------------------------------------------------------- counters

  function RawSize(r: Rec): nat { |r.key| + |r.val| }
  function TotalSize(g: Geometry, r: Rec): nat requires Ok(g) { g.grainSize * Grains(g, |r.key|, |r.val|) }

  ghost predicate Backed(s: State) { forall k :: k in s.live ==> s.live[k] in s.core.disk }

  ghost function Raws(s: State): map<Bytes, nat> requires Backed(s) {
    map k | k in s.live :: RawSize(s.core.disk[s.live[k]])
  }

  ghost function Totals(g: Geometry, s: State): map<Bytes, nat> requires Ok(g) && Backed(s) {
    map k | k in s.live :: TotalSize(g, s.core.disk[s.live[k]])
  }

  /** key_nr counts the mapped keys; used and total bytes are the sums of their records' sizes. */
  ghost predicate CountersOk(g: Geometry, s: State) requires Ok(g) {
    && Backed(s)
    && s.core.cnt.keyNr == |s.live|
    && s.core.cnt.used == Sum(Raws(s))
    && s.core.cnt.total == Sum(Totals(g, s))
  }

  /** Every extent was invalidated exactly once, with its allocated size, if it is dead, and
      never if it is reserved, in flight or mapped. */
  ghost predicate InvalOk(s: State) {
    && s.phase.Keys == s.core.size.Keys
    && forall p, n {:trigger s.core.inval[(p, n)]} ::
         s.core.inval[(p, n)] == if p in s.phase && Dead(s.phase[p]) && s.core.size[p] == n then 1 else 0
  }

  /** Key `k` of the map moves to the record at `p`; the other keys keep their records. */
  ghost predicate Moves(s: State, t: State, k: Bytes, p: Addr) requires Backed(s) {
    && t.live == s.live[k := p] && p in t.core.disk
    && forall j :: j in s.live && j != k ==>
         s.live[j] in t.core.disk && t.core.disk[s.live[j]] == s.core.disk[s.live[j]]
  }

  lemma MovesRaws(s: State, t: State, k: Bytes, p: Addr)
    requires Backed(s) && Backed(t) && Moves(s, t, k, p)
    ensures Sum(Raws(t)) == Sum(Raws(s)) + RawSize(t.core.disk[p])
                            - if k in s.live then RawSize(s.core.disk[s.live[k]]) else 0
  {
    var w := RawSize(t.core.disk[p]);
    assert Raws(t).Keys == Raws(s)[k := w].Keys;
    assert Raws(t) == Raws(s)[k := w];
    SumPut(Raws(s), k, w);
  }

  lemma MovesTotals(g: Geometry, s: State, t: State, k: Bytes, p: Addr)
    requires Ok(g) && Backed(s) && Backed(t) && Moves(s, t, k, p)
    ensures Sum(Totals(g, t)) == Sum(Totals(g, s)) + TotalSize(g, t.core.disk[p])
                                 - if k in s.live then TotalSize(g, s.core.disk[s.live[k]]) else 0
  {
    var w := TotalSize(g, t.core.disk[p]);
    assert Totals(g, t).Keys == Totals(g, s)[k := w].Keys;
    assert Totals(g, t) == Totals(g, s)[k := w];
    SumPut(Totals(g, s), k, w);
  }

  lemma MovesCount(s: State, t: State, k: Bytes, p: Addr)
    requires Backed(s) && Moves(s, t, k, p)
    ensures |t.live| == |s.live| + if k in s.live then 0 else 1
  {
    assert t.live.Keys == s.live.Keys + {k};
  }

  lemma SumsCover(g: Geometry, s: State, k: Bytes)
    requires Ok(g) && CountersOk(g, s) && k in s.live
    ensures var r := s.core.disk[s.live[k]];
            RawSize(r) <= s.core.cnt.used && TotalSize(g, r) <= s.core.cnt.total && 0 < s.core.cnt.keyNr
  {
    SumPick(Raws(s), k);
    SumPick(Totals(g, s), k);
    assert s.live.Keys == s.live.Keys - {k} + {k};
  }

  lemma InstallKeepsCounters(g: Geometry, s: State, p: Addr)
    requires Ok(g) && CountersOk(g, s) && InFlightAt(s, p)
    ensures CountersOk(g, Install(g, s, p))
  {
    var t := Install(g, s, p);
    var r := s.core.disk[p];
    MovesRaws(s, t, r.key, p);
    MovesTotals(g, s, t, r.key, p);
    MovesCount(s, t, r.key, p);
  }

  lemma RelocateKeepsCounters(g: Geometry, s: State, key: Bytes, seg: nat)
    requires Ok(g) && Enabled(g, s, Relocate(key, seg)) && Frontier(s.core, seg) !in s.core.disk
    requires CountersOk(g, s)
    ensures CountersOk(g, Apply(g, s, Relocate(key, seg)))
  {
    var t := Apply(g, s, Relocate(key, seg));
    MovesRaws(s, t, key, Frontier(s.core, seg));
    MovesTotals(g, s, t, key, Frontier(s.core, seg));
    MovesCount(s, t, key, Frontier(s.core, seg));
  }

  lemma SameRaws(s: State, t: State)
    requires Backed(s) && t.live == s.live
    requires forall k :: k in s.live ==> s.live[k] in t.core.disk && t.core.disk[s.live[k]] == s.core.disk[s.live[k]]
    ensures Backed(t) && Raws(t) == Raws(s)
  {
  }

  lemma SameTotals(g: Geometry, s: State, t: State)
    requires Ok(g) && Backed(s) && Backed(t) && t.live == s.live
    requires forall k :: k in s.live ==> t.core.disk[s.live[k]] == s.core.disk[s.live[k]]
    ensures Totals(g, t) == Totals(g, s)
  {
  }

  lemma SameKeepsCounters(g: Geometry, s: State, t: State)
    requires Ok(g) && CountersOk(g, s) && t.live == s.live && t.core.cnt == s.core.cnt
    requires forall k :: k in s.live ==> s.live[k] in t.core.disk && t.core.disk[s.live[k]] == s.core.disk[s.live[k]]
    ensures CountersOk(g, t)
  {
    SameRaws(s, t);
    SameTotals(g, s, t);
  }

  lemma WriteKeepsCounters(g: Geometry, s: State, p: Addr, key: Bytes, val: Bytes)
    requires Ok(g) && Inv(g, s) && CountersOk(g, s) && Enabled(g, s, Write(p, key, val))
    ensures CountersOk(g, Apply(g, s, Write(p, key, val)))
  {
    assert Logged(g, s, p);
    SameKeepsCounters(g, s, Apply(g, s, Write(p, key, val)));
  }

  lemma StepKeepsCounters(g: Geometry, s: State, a: Action)
    requires Ok(g) && Inv(g, s) && CountersOk(g, s) && Enabled(g, s, a)
    ensures CountersOk(g, Apply(g, s, a))
  {
    match a {
      case Map(p, op) =>
        if MapOutcome(g, s, p, op).Installed? {
          InstallKeepsCounters(g, s, p);
        } else {
          SameKeepsCounters(g, s, Apply(g, s, a));
        }
      case Relocate(key, seg) =>
        FrontierIsFresh(g, s.core, seg);
        RelocateKeepsCounters(g, s, key, seg);
      case Write(p, key, val) => WriteKeepsCounters(g, s, p, key, val);
      case _ => SameKeepsCounters(g, s, Apply(g, s, a));
    }
  }

  /** What a put that takes effect does to the counters: one more key unless it replaces one, and the
      difference of the bytes of key and value and of the extents' grains. */
  lemma PutCounts(g: Geometry, s: State, p: Addr, op: Op)
    requires Ok(g) && Inv(g, s) && Enabled(g, s, Map(p, op)) && MapOutcome(g, s, p, op).Installed?
    ensures var c, d, r := s.core, Apply(g, s, Map(p, op)).core, s.core.disk[p];
            if r.key !in s.live then
              && d.cnt.keyNr == c.cnt.keyNr + 1 && d.cnt.used == c.cnt.used + |r.key| + |r.val|
              && p in c.size && d.cnt.total == c.cnt.total + g.grainSize * c.size[p]
            else
              var was := s.live[r.key];
              && was in c.size && was in c.disk && p in c.size && d.cnt.keyNr == c.cnt.keyNr
              && d.cnt.used == c.cnt.used + |r.val| - |c.disk[was].val|
              && d.cnt.total == c.cnt.total + g.grainSize * c.size[p] - g.grainSize * c.size[was]
  {
    assert Logged(g, s, p);
    if s.core.disk[p].key in s.live {
      assert Mapped(s, s.core.disk[p].key);
      assert Logged(g, s, s.live[s.core.disk[p].key]);
    }
  }

  // ---------------------------------------------------------------- invalidations

  /** Retiring extent `p`, alive so far, with its allocated size. */
  lemma RetireKeepsInval(s: State, t: State, p: Addr, n: nat)
    requires InvalOk(s) && p in s.phase && !Dead(s.phase[p]) && n == s.core.size[p]
    requires t.core.inval == s.core.inval + multiset{(p, n)} && t.phase.Keys == t.core.size.Keys
    requires p in t.phase && Dead(t.phase[p]) && t.core.size[p] == n
    requires forall q :: q != p ==>
               && (q in s.phase ==>
                     q in t.phase && Dead(t.phase[q]) == Dead(s.phase[q]) && t.core.size[q] == s.core.size[q])
               && (q !in s.phase && q in t.phase ==> !Dead(t.phase[q]))
    ensures InvalOk(t)
  {
  }

  lemma SameKeepsInval(s: State, t: State)
    requires InvalOk(s) && t.core.inval == s.core.inval && t.phase.Keys == t.core.size.Keys
    requires forall q :: q in s.phase ==>
               q in t.phase && Dead(t.phase[q]) == Dead(s.phase[q]) && t.core.size[q] == s.core.size[q]
    requires forall q :: q !in s.phase && q in t.phase ==> !Dead(t.phase[q])
    ensures InvalOk(t)
  {
  }

  lemma MapKeepsInval(g: Geometry, s: State, p: Addr, op: Op)
    requires Ok(g) && Inv(g, s) && InvalOk(s) && Enabled(g, s, Map(p, op))
    ensures InvalOk(Apply(g, s, Map(p, op)))
  {
    var t := Apply(g, s, Map(p, op));
    assert Logged(g, s, p);
    if MapOutcome(g, s, p, op).Installed? {
      var k := s.core.disk[p].key;
      if k in s.live {
        var was := s.live[k];
        assert Mapped(s, k);
        assert Logged(g, s, was);
        RetireKeepsInval(s, t, was, s.core.size[was]);
      } else {
        SameKeepsInval(s, t);
      }
    } else {
      RetireKeepsInval(s, t, p, s.core.size[p]);
    }
  }

  lemma RelocateKeepsInval(g: Geometry, s: State, key: Bytes, seg: nat)
    requires Ok(g) && Inv(g, s) && InvalOk(s) && Enabled(g, s, Relocate(key, seg))
    ensures InvalOk(Apply(g, s, Relocate(key, seg)))
  {
    var t := Apply(g, s, Relocate(key, seg));
    var was := s.live[key];
    FrontierIsFresh(g, s.core, seg);
    assert Mapped(s, key);
    assert Logged(g, s, was);
    RetireKeepsInval(s, t, was, s.core.size[was]);
  }

  lemma FailKeepsInval(g: Geometry, s: State, p: Addr)
    requires Ok(g) && InvalOk(s) && Enabled(g, s, IoFail(p))
    ensures InvalOk(Apply(g, s, IoFail(p)))
  {
    RetireKeepsInval(s, Apply(g, s, IoFail(p)), p, s.core.size[p]);
  }

  lemma RefuseKeepsInval(g: Geometry, s: State, p: Addr)
    requires Ok(g) && Inv(g, s) && InvalOk(s) && Enabled(g, s, Refuse(p))
    ensures InvalOk(Apply(g, s, Refuse(p)))
  {
    assert Logged(g, s, p);
    RetireKeepsInval(s, Apply(g, s, Refuse(p)), p, s.core.size[p]);
  }

  lemma ReserveKeepsInval(g: Geometry, s: State, seg: nat, n: nat)
    requires Ok(g) && Inv(g, s) && InvalOk(s) && Enabled(g, s, Reserve(seg, n))
    ensures InvalOk(Apply(g, s, Reserve(seg, n)))
  {
    FrontierIsFresh(g, s.core, seg);
    SameKeepsInval(s, Apply(g, s, Reserve(seg, n)));
  }

  /** Actions that reserve and invalidate nothing. */
  lemma QuietKeepsInval(g: Geometry, s: State, a: Action)
    requires Ok(g) && InvalOk(s) && Enabled(g, s, a) && (a.Write? || a.Open? || a.Drain?)
    ensures InvalOk(Apply(g, s, a))
  {
    SameKeepsInval(s, Apply(g, s, a));
  }

  lemma StepKeepsInval(g: Geometry, s: State, a: Action)
    requires Ok(g) && Inv(g, s) && InvalOk(s) && Enabled(g, s, a)
    ensures InvalOk(Apply(g, s, a))
  {
    match a {
      case Map(p, op) => MapKeepsInval(g, s, p, op);
      case Relocate(key, seg) => RelocateKeepsInval(g, s, key, seg);
      case IoFail(p) => FailKeepsInval(g, s, p);
      case Refuse(p) => RefuseKeepsInval(g, s, p);
      case Reserve(seg, n) => ReserveKeepsInval(g, s, seg, n);
      case _ => QuietKeepsInval(g, s, a);
    }
  }

  // ---------------------------------------------------------------- runs

  lemma StepAccounts(g: Geometry, s: State, a: Action, t: State)
    requires Ok(g) && Inv(g, s) && CountersOk(g, s) && InvalOk(s) && Enabled(g, s, a) && t == Apply(g, s, a)
    ensures CountersOk(g, t) && InvalOk(t)
  {
    StepKeepsCounters(g, s, a);
    StepKeepsInval(g, s, a);
  }

  /** In every state of every run the counters count exactly the mapped keys and bytes, and
      every extent has been invalidated once with its allocated size or not at all. */
  lemma {:induction false} RunsAccount(g: Geometry, acts: seq<Action>, states: seq<State>, n: nat)
    requires Ok(g) && IsRun(g, acts, states) && n < |states|
    ensures CountersOk(g, states[n]) && InvalOk(states[n])
  {
    if n > 0 {
      RunsAccount(g, acts, states, n - 1);
      RunKeepsInv(g, acts, states, n - 1);
      StepAccounts(g, states[n - 1], acts[n - 1], states[n]);
    }
  }

  /** The counters never go below zero: whenever a put replaces a record, they hold at least
      what kv_removed takes away. */
  lemma CountersNeverUnderflow(g: Geometry, acts: seq<Action>, states: seq<State>, n: nat, p: Addr)
    requires Ok(g) && IsRun(g, acts, states) && n < |states| && InFlightAt(states[n], p)
    ensures var s := states[n]; var k := s.core.disk[p].key;
            k in s.live && s.live[k] in s.core.disk ==>
              var r := s.core.disk[s.live[k]];
              RawSize(r) <= s.core.cnt.used && TotalSize(g, r) <= s.core.cnt.total && 0 < s.core.cnt.keyNr
  {
    RunsAccount(g, acts, states, n);
    var k := states[n].core.disk[p].key;
    if k in states[n].live { SumsCover(g, states[n], k); }
  }
}
