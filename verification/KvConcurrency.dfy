/** What the threads of module KvThreads guarantee over whole runs. */
module KvConcurrency {
  import opened Extents
  import opened Octets
  import opened Hopscotch
  import opened HopTable
  import opened KvStore
  import opened KvRuns
  import opened KvRecovery
  import opened KvAccounting
  import opened KvThreads

  lemma BootStands(cfg: Config)
    requires Fits(cfg)
    ensures Sim(cfg, Boot(cfg), map[])
  {
    var t := Boot(cfg).tbl;
    forall x ensures Count(t, x) == 0 { CountEmpty(t, cfg.n, x); }
  }

  /** The key maps the tables of a run stand for, and the effects that lead from one to the next. */
  ghost predicate Traced(cfg: Config, events: seq<Event>, run: seq<Sys>, fx: seq<Effect>, lives: seq<map<Bytes, Addr>>)
    requires Fits(cfg)
  {
    && |fx| <= |events| && |run| == |events| + 1 && |lives| == |fx| + 1 && lives[0] == map[]
    && (forall i {:trigger StandsAt(cfg, run, lives, i)} :: 0 <= i <= |fx| ==> StandsAt(cfg, run, lives, i))
    && (forall i {:trigger ActsAt(cfg, events, run, fx, lives, i)} :: 0 <= i < |fx| ==>
          ActsAt(cfg, events, run, fx, lives, i))
  }

  ghost predicate StandsAt(cfg: Config, run: seq<Sys>, lives: seq<map<Bytes, Addr>>, i: nat)
    requires Fits(cfg) && i < |lives| && i < |run|
  {
    Sim(cfg, run[i], lives[i])
  }

  ghost predicate ActsAt(cfg: Config, events: seq<Event>, run: seq<Sys>, fx: seq<Effect>,
                         lives: seq<map<Bytes, Addr>>, i: nat)
    requires Fits(cfg) && i < |fx| <= |events| && i + 1 < |lives| && i + 1 < |run|
  {
    && Acts(cfg.g, At(run[i], lives[i]), fx[i], At(run[i + 1], lives[i + 1]))
    && EffectOf(cfg, run[i], lives[i], events[i], fx[i], run[i + 1])
  }

  lemma TraceExtends(cfg: Config, events: seq<Event>, run: seq<Sys>, fx: seq<Effect>,
                     lives: seq<map<Bytes, Addr>>, f: Effect, to: map<Bytes, Addr>)
    requires Fits(cfg) && Traced(cfg, events, run, fx, lives) && |fx| < |events|
    requires Follows(cfg, run[|fx|], lives[|fx|], f, run[|fx| + 1], to)
    requires EffectOf(cfg, run[|fx|], lives[|fx|], events[|fx|], f, run[|fx| + 1])
    ensures Traced(cfg, events, run, fx + [f], lives + [to])
  {
    var gx, nexts := fx + [f], lives + [to];
    forall i | 0 <= i <= |gx| ensures StandsAt(cfg, run, nexts, i) {
      assert i < |gx| ==> StandsAt(cfg, run, lives, i);
    }
    forall i | 0 <= i < |gx| ensures ActsAt(cfg, events, run, gx, nexts, i) {
      assert i < |fx| ==> ActsAt(cfg, events, run, fx, lives, i);
    }
  }

  /** In every run without a dirty displacement the table always stands for one key map, which
      changes only by actions of the store. */
  lemma {:induction false} RunIsTraced(cfg: Config, events: seq<Event>, run: seq<Sys>, n: nat)
      returns (fx: seq<Effect>, lives: seq<map<Bytes, Addr>>)
    requires Fits(cfg) && SysRun(cfg, events, run) && n <= |events| && CleanTo(cfg, events, run, n)
    ensures |fx| == n && Traced(cfg, events, run, fx, lives)
  {
    if n == 0 {
      BootStands(cfg);
      fx, lives := [], [map[]];
    } else {
      fx, lives := RunIsTraced(cfg, events, run, n - 1);
      var e := events[n - 1];
      assert StandsAt(cfg, run, lives, n - 1);
      var f, to := StepFollows(cfg, run[n - 1], lives[n - 1], e, run[n]);
      TraceExtends(cfg, events, run, fx, lives, f, to);
      fx, lives := fx + [f], lives + [to];
    }
  }

  /** The actions of a trace, without the steps that do nothing, form a run of the store. */
  lemma {:induction false} TraceIsRun(cfg: Config, events: seq<Event>, run: seq<Sys>, fx: seq<Effect>,
                                      lives: seq<map<Bytes, Addr>>, n: nat)
      returns (acts: seq<Action>, states: seq<State>)
    requires Fits(cfg) && Traced(cfg, events, run, fx, lives) && n <= |fx| && run[0] == Boot(cfg)
    ensures IsRun(cfg.g, acts, states) && states[|acts|] == At(run[n], lives[n])
  {
    if n == 0 {
      acts, states := [], [Init()];
    } else {
      acts, states := TraceIsRun(cfg, events, run, fx, lives, n - 1);
      assert ActsAt(cfg, events, run, fx, lives, n - 1);
      if fx[n - 1].Does? {
        var a, s := fx[n - 1].a, At(run[n], lives[n]);
        RunExtends(cfg.g, acts, states, a, s);
        acts, states := acts + [a], states + [s];
      }
    }
  }

  /** Every state the threads can reach, seen through the key map its table stands for, is a
      state of a run of the store, so everything proved of those runs holds of it: here that
      its extents tile their segments and that its counters and invalidations are exact. */
  lemma ThreadsRefineStore(cfg: Config, events: seq<Event>, run: seq<Sys>, n: nat)
      returns (live: map<Bytes, Addr>, acts: seq<Action>, states: seq<State>)
    requires Fits(cfg) && SysRun(cfg, events, run) && n <= |events| && CleanTo(cfg, events, run, n)
    ensures Agree(cfg, run[n].tbl, At(run[n], live))
    ensures IsRun(cfg.g, acts, states) && states[|acts|] == At(run[n], live)
    ensures CountersOk(cfg.g, At(run[n], live)) && InvalOk(At(run[n], live))
  {
    var fx, lives := RunIsTraced(cfg, events, run, n);
    live := lives[n];
    assert StandsAt(cfg, run, lives, n);
    acts, states := TraceIsRun(cfg, events, run, fx, lives, n);
    RunsAccount(cfg.g, acts, states, |acts|);
  }

  /** The table stands for some key map. */
  ghost predicate Stands(cfg: Config, c: Sys) requires Fits(cfg) {
    exists live :: Agree(cfg, c.tbl, At(c, live))
  }

  lemma {:induction false} FirstDirty(cfg: Config, events: seq<Event>, run: seq<Sys>, n: nat) returns (i: nat)
    requires Fits(cfg) && |run| == |events| + 1 && n <= |events| && !CleanTo(cfg, events, run, n)
    ensures i < n && CleanTo(cfg, events, run, i) && LeavesHole(cfg, run[i], events[i])
  {
    if CleanTo(cfg, events, run, n - 1) {
      i := n - 1;
    } else {
      i := FirstDirty(cfg, events, run, n - 1);
    }
  }

  /** The table stands for a key map in every state of a run if and only if no step ended in a dirty
      displacement. */
  lemma CleanIsExact(cfg: Config, events: seq<Event>, run: seq<Sys>)
    requires Fits(cfg) && SysRun(cfg, events, run)
    ensures Clean(cfg, events, run) <==> forall n :: 0 <= n < |run| ==> Stands(cfg, run[n])
  {
    if Clean(cfg, events, run) {
      forall n | 0 <= n < |run| ensures Stands(cfg, run[n]) {
        var live, acts, states := ThreadsRefineStore(cfg, events, run, n);
      }
    } else {
      var i := FirstDirty(cfg, events, run, |events|);
      var fx, lives := RunIsTraced(cfg, events, run, i);
      assert StandsAt(cfg, run, lives, i);
      var e := events[i];
      HolesComeFromDisplacement(cfg, run[i], lives[i], e, run[i + 1]);
      assert !Stands(cfg, run[i + 1]);
    }
  }

  // ---------------------------------------------------------------- CREATE

  /** Step `i` is the one in which the CREATE whose record is at `p` succeeds. */
  ghost predicate Creates(events: seq<Event>, run: seq<Sys>, i: nat, p: Addr) {
    && i < |events| && |run| == |events| + 1 && IsPut(events[i]) && events[i].p == p
    && (events[i].Recheck? ==> p in run[i].puts) && OpOf(run[i], events[i]).Create?
    && p in run[i].core.disk && p in run[i].phase && run[i].phase[p].InFlight?
    && p in run[i + 1].phase && run[i + 1].phase[p].Live?
  }

  lemma ActsKeepsKeys(g: Geometry, s: State, f: Effect, u: State, k: Bytes)
    requires Ok(g) && Acts(g, s, f, u) && k in s.live
    ensures k in u.live
  {
  }

  lemma {:induction false} KeysStay(cfg: Config, events: seq<Event>, run: seq<Sys>, fx: seq<Effect>,
                                    lives: seq<map<Bytes, Addr>>, i: nat, j: nat, k: Bytes)
    requires Fits(cfg) && Traced(cfg, events, run, fx, lives) && i <= j <= |fx| && k in lives[i]
    ensures k in lives[j]
    decreases j - i
  {
    if i < j {
      KeysStay(cfg, events, run, fx, lives, i, j - 1, k);
      assert ActsAt(cfg, events, run, fx, lives, j - 1);
      ActsKeepsKeys(cfg.g, At(run[j - 1], lives[j - 1]), fx[j - 1], At(run[j], lives[j]), k);
    }
  }

  /** A CREATE succeeds only in a step at which its key is not mapped, and maps it. */
  lemma CreateMaps(cfg: Config, events: seq<Event>, run: seq<Sys>, fx: seq<Effect>,
                   lives: seq<map<Bytes, Addr>>, i: nat, p: Addr)
    requires Fits(cfg) && Traced(cfg, events, run, fx, lives) && i < |fx| && Creates(events, run, i, p)
    ensures var k := run[i].core.disk[p].key;
            k !in lives[i] && k in lives[i + 1] && lives[i + 1][k] == p
  {
    assert ActsAt(cfg, events, run, fx, lives, i);
  }

  /** Of any number of concurrent CREATEs of one key, at most one succeeds. */
  lemma CreateOnce(cfg: Config, events: seq<Event>, run: seq<Sys>, i: nat, j: nat, p: Addr, q: Addr)
    requires Fits(cfg) && SysRun(cfg, events, run) && Clean(cfg, events, run) && i < j
    requires Creates(events, run, i, p) && Creates(events, run, j, q)
    ensures run[i].core.disk[p].key != run[j].core.disk[q].key
  {
    var fx, lives := RunIsTraced(cfg, events, run, |events|);
    var k := run[i].core.disk[p].key;
    CreateMaps(cfg, events, run, fx, lives, i, p);
    CreateMaps(cfg, events, run, fx, lives, j, q);
    KeysStay(cfg, events, run, fx, lives, i + 1, j, k);
  }

  // ---------------------------------------------------------------- GET

  datatype Answer = Miss | Hit(r: Rec)

  /** A get of `key` that searched the table at moments `ms` of a run, the first of them with
      `visited` already ruled out. It reads a candidate's record at some later moment, and
      returns it unless the key differs; it never looks at the entry again. */
  ghost predicate Gets(cfg: Config, run: seq<Sys>, key: Bytes, ms: seq<nat>, visited: seq<Addr>, out: Answer)
    requires Fits(cfg)
    decreases |ms|
  {
    && |ms| > 0 && ms[0] < |run|
    && var c := run[ms[0]];
    && exists r :: IsCommon(c.tbl, cfg.fp(key), visited, r) &&
         if r.Cand? then
           exists n: nat :: ms[0] <= n < |run| && Reads(cfg, run, key, ms, visited, out, c.tbl[r.i].pba, n)
         else |ms| == 1 && out == Answer.Miss
  }

  ghost predicate Reads(cfg: Config, run: seq<Sys>, key: Bytes, ms: seq<nat>, visited: seq<Addr>, out: Answer,
                        v: Addr, n: nat)
    requires Fits(cfg) && |ms| > 0 && ms[0] <= n < |run|
    decreases |ms|, 0
  {
    && v in run[n].core.disk
    && var rec := run[n].core.disk[v];
    if rec.key == key then |ms| == 1 && out == Hit(rec)
    else |ms| > 1 && ms[0] <= ms[1] < |run| && Gets(cfg, run, key, ms[1..], visited + [v], out)
  }

  lemma {:induction false} DiskGrows(cfg: Config, events: seq<Event>, run: seq<Sys>, fx: seq<Effect>,
                                     lives: seq<map<Bytes, Addr>>, m: nat, n: nat, p: Addr)
    requires Fits(cfg) && Traced(cfg, events, run, fx, lives) && m <= n <= |fx| && p in run[m].core.disk
    ensures p in run[n].core.disk && run[n].core.disk[p] == run[m].core.disk[p]
    decreases n - m
  {
    if m < n {
      DiskGrows(cfg, events, run, fx, lives, m, n - 1, p);
      assert ActsAt(cfg, events, run, fx, lives, n - 1);
      assert StandsAt(cfg, run, lives, n - 1);
      if fx[n - 1].Does? {
        StepAgesAt(cfg.g, At(run[n - 1], lives[n - 1]), fx[n - 1].a, p);
      }
    }
  }

  /** Records ruled out by a get hold other keys. */
  ghost predicate OtherKeys(c: Sys, key: Bytes, visited: seq<Addr>) {
    forall v :: v in visited ==> v in c.core.disk && c.core.disk[v].key != key
  }

  /** What the answer means for the key map of one moment. */
  ghost predicate AnswersAt(c: Sys, live: map<Bytes, Addr>, key: Bytes, out: Answer) {
    match out
    case Miss => key !in live
    case Hit(r) => key in live && live[key] in c.core.disk && c.core.disk[live[key]] == r
  }

  lemma MissAnswers(cfg: Config, c: Sys, live: map<Bytes, Addr>, key: Bytes, visited: seq<Addr>, r: Common)
    requires Fits(cfg) && Sim(cfg, c, live) && OtherKeys(c, key, visited)
    requires IsCommon(c.tbl, cfg.fp(key), visited, r) && !r.Cand?
    ensures key !in live
  {
    AbsentIsUnmapped(cfg, c.tbl, At(c, live), key, visited, r);
  }

  /** The candidate's record, read at a later moment `n`, is the one its entry stood for. */
  lemma CandidateAnswers(cfg: Config, events: seq<Event>, run: seq<Sys>, fx: seq<Effect>,
                         lives: seq<map<Bytes, Addr>>, m: nat, n: nat, i: nat)
    requires Fits(cfg) && Traced(cfg, events, run, fx, lives) && m <= n <= |fx|
    requires i < |run[m].tbl| && run[m].tbl[i].Used?
    ensures var v := run[m].tbl[i].pba;
            && v in run[m].core.disk && v in run[n].core.disk && run[n].core.disk[v] == run[m].core.disk[v]
            && AnswersAt(run[m], lives[m], run[n].core.disk[v].key, Hit(run[n].core.disk[v]))
  {
    assert StandsAt(cfg, run, lives, m);
    EntryIsMapped(cfg, run[m].tbl, At(run[m], lives[m]), i);
    DiskGrows(cfg, events, run, fx, lives, m, n, run[m].tbl[i].pba);
  }

  lemma OtherKeysStay(cfg: Config, events: seq<Event>, run: seq<Sys>, fx: seq<Effect>,
                      lives: seq<map<Bytes, Addr>>, m: nat, n: nat, key: Bytes, visited: seq<Addr>)
    requires Fits(cfg) && Traced(cfg, events, run, fx, lives) && m <= n <= |fx| && OtherKeys(run[m], key, visited)
    ensures OtherKeys(run[n], key, visited)
  {
    forall w | w in visited ensures w in run[n].core.disk && run[n].core.disk[w].key != key {
      DiskGrows(cfg, events, run, fx, lives, m, n, w);
    }
  }

  /** What a get does with the candidate in slot `i`, which it reads at moment `n`. */
  lemma ReadAnswers(cfg: Config, events: seq<Event>, run: seq<Sys>, fx: seq<Effect>, lives: seq<map<Bytes, Addr>>,
                    key: Bytes, ms: seq<nat>, visited: seq<Addr>, out: Answer, i: nat, n: nat)
    requires Fits(cfg) && Traced(cfg, events, run, fx, lives) && |fx| == |events| && |ms| > 0 && ms[0] <= n < |run|
    requires i < |run[ms[0]].tbl| && run[ms[0]].tbl[i].Used? && OtherKeys(run[ms[0]], key, visited)
    requires Reads(cfg, run, key, ms, visited, out, run[ms[0]].tbl[i].pba, n)
    ensures |ms| == 1 ==> AnswersAt(run[ms[0]], lives[ms[0]], key, out)
    ensures |ms| > 1 ==>
      var v := run[ms[0]].tbl[i].pba;
      ms[1] < |run| && OtherKeys(run[ms[1]], key, visited + [v]) && Gets(cfg, run, key, ms[1..], visited + [v], out)
  {
    CandidateAnswers(cfg, events, run, fx, lives, ms[0], n, i);
    if |ms| > 1 {
      OtherKeysStay(cfg, events, run, fx, lives, ms[0], ms[1], key, visited + [run[ms[0]].tbl[i].pba]);
    }
  }

  lemma MissAt(cfg: Config, events: seq<Event>, run: seq<Sys>, fx: seq<Effect>, lives: seq<map<Bytes, Addr>>,
               key: Bytes, m: nat, visited: seq<Addr>, r: Common)
    requires Fits(cfg) && Traced(cfg, events, run, fx, lives) && m <= |fx| && OtherKeys(run[m], key, visited)
    requires IsCommon(run[m].tbl, cfg.fp(key), visited, r) && !r.Cand?
    ensures key !in lives[m]
  {
    assert StandsAt(cfg, run, lives, m);
    MissAnswers(cfg, run[m], lives[m], key, visited, r);
  }

  lemma {:induction false} GetFrom(cfg: Config, events: seq<Event>, run: seq<Sys>, fx: seq<Effect>,
                                   lives: seq<map<Bytes, Addr>>, key: Bytes, ms: seq<nat>, visited: seq<Addr>,
                                   out: Answer)
    requires Fits(cfg) && Traced(cfg, events, run, fx, lives) && |fx| == |events|
    requires Gets(cfg, run, key, ms, visited, out) && OtherKeys(run[ms[0]], key, visited)
    ensures var m := ms[|ms| - 1]; m < |run| && AnswersAt(run[m], lives[m], key, out)
    decreases |ms|
  {
    var c := run[ms[0]];
    var r :| IsCommon(c.tbl, cfg.fp(key), visited, r) &&
      if r.Cand? then
        exists n: nat :: ms[0] <= n < |run| && Reads(cfg, run, key, ms, visited, out, c.tbl[r.i].pba, n)
      else |ms| == 1 && out == Answer.Miss;
    if r.Cand? {
      var v := c.tbl[r.i].pba;
      var n: nat :| ms[0] <= n < |run| && Reads(cfg, run, key, ms, visited, out, v, n);
      ReadAnswers(cfg, events, run, fx, lives, key, ms, visited, out, r.i, n);
      if |ms| > 1 {
        assert ms[1..][|ms| - 2] == ms[|ms| - 1];
        GetFrom(cfg, events, run, fx, lives, key, ms[1..], visited + [v], out);
      }
    } else {
      MissAt(cfg, events, run, fx, lives, key, ms[0], visited, r);
    }
  }

  /** A get answers as of its last search of the table, although it reads the record later and
      never revalidates: its key was then unmapped, or mapped to the record it returns. */
  lemma GetIsAtomic(cfg: Config, events: seq<Event>, run: seq<Sys>, key: Bytes, ms: seq<nat>, out: Answer)
      returns (live: map<Bytes, Addr>)
    requires Fits(cfg) && SysRun(cfg, events, run) && Clean(cfg, events, run)
    requires Gets(cfg, run, key, ms, [], out)
    ensures var m := ms[|ms| - 1]; m < |run| && Sim(cfg, run[m], live) && AnswersAt(run[m], live, key, out)
  {
    var fx, lives := RunIsTraced(cfg, events, run, |events|);
    GetFrom(cfg, events, run, fx, lives, key, ms, [], out);
    live := lives[ms[|ms| - 1]];
    assert StandsAt(cfg, run, lives, ms[|ms| - 1]);
  }
}
