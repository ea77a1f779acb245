/** The big-reader lock: one counter per slot, readers touch only their own, the writer visits all
    (src/include/uDepot/rwlock.hh, brlock.hh, rwlock-pagefault.hh).

    Every access to a counter or to the write flag is one step, so the writer's passes over
    the counters, its scan included, interleave with any reader's steps. */
module BigReader {
  const BIAS: int := 0x01000000

  /** Where a reader is: outside; past its first look at the counter; holding the lock; having
      to undo a decrement; or refused. */
  datatype Reader = Outside | Looked | Holding | Undoing | Refused

  /** Where the writer is: the argument is the counter it visits next. */
  datatype Writer = Away | Entering(k: nat) | Scanning(k: nat) | Ready | Leaving(k: nat)

  /** `slot` gives the counter of each reader. */
  datatype Lock = Lock(slot: seq<nat>, cnt: seq<int>, readers: seq<Reader>, writer: Writer, flag: bool)

  datatype Event =
    | Look(t: nat) | Take(t: nat) | Undo(t: nat) | Unlock(t: nat) | Retry(t: nat)
    | Raise | Enter | StartScan | Scan | Leave | Lower

  function Fresh(slot: seq<nat>, n: nat): Lock {
    Lock(slot, seq(n, _ => BIAS), seq(|slot|, _ => Outside), Away, false)
  }

  function Set(l: Lock, t: nat, r: Reader): Lock
    requires t < |l.readers|
  {
    l.(readers := l.readers[t := r])
  }

  /** One step. A look at the counter refuses the reader when it is zero; a decrement refuses it
      unless the counter was positive. The writer's scan starts over at a counter not zero. */
  predicate Step(l: Lock, e: Event, m: Lock) {
    match e
    case Look(t) =>
      && t < |l.readers| && t < |l.slot| && l.slot[t] < |l.cnt| && l.readers[t].Outside?
      && m == Set(l, t, if l.cnt[l.slot[t]] == 0 then Refused else Looked)
    case Take(t) =>
      && t < |l.readers| && t < |l.slot| && l.slot[t] < |l.cnt| && l.readers[t].Looked?
      && var i := l.slot[t];
         m == Set(l, t, if l.cnt[i] > 0 then Holding else Undoing).(cnt := l.cnt[i := l.cnt[i] - 1])
    case Undo(t) =>
      && t < |l.readers| && t < |l.slot| && l.slot[t] < |l.cnt| && l.readers[t].Undoing?
      && m == Set(l, t, Refused).(cnt := l.cnt[l.slot[t] := l.cnt[l.slot[t]] + 1])
    case Unlock(t) =>
      && t < |l.readers| && t < |l.slot| && l.slot[t] < |l.cnt| && l.readers[t].Holding?
      && m == Set(l, t, Outside).(cnt := l.cnt[l.slot[t] := l.cnt[l.slot[t]] + 1])
    case Retry(t) => t < |l.readers| && l.readers[t].Refused? && m == Set(l, t, Outside)
    case Raise => l.writer.Away? && m == l.(flag := true, writer := Entering(0))
    case Enter =>
      && l.writer.Entering? && l.writer.k < |l.cnt|
      && m == l.(cnt := l.cnt[l.writer.k := l.cnt[l.writer.k] - BIAS], writer := Entering(l.writer.k + 1))
    case StartScan =>
      && ((l.writer.Entering? && l.writer.k == |l.cnt|) || l.writer.Scanning?) && m == l.(writer := Scanning(0))
    case Scan =>
      && l.writer.Scanning? && l.writer.k <= |l.cnt|
      && m == l.(writer := if l.writer.k == |l.cnt| then Ready
                           else if l.cnt[l.writer.k] == 0 then Scanning(l.writer.k + 1) else Scanning(0))
    case Leave =>
      && (l.writer.Ready? || l.writer.Leaving?)
      && var k := if l.writer.Ready? then 0 else l.writer.k;
      && k < |l.cnt| && m == l.(cnt := l.cnt[k := l.cnt[k] + BIAS], writer := Leaving(k + 1))
    case Lower =>
      && l.writer.Leaving? && l.writer.k == |l.cnt| && m == l.(flag := false, writer := Away)
  }

  // ---------------------------------------------------------------- what every step keeps

  predicate Uses(r: Reader) { r.Holding? || r.Undoing? }

  /** How many of the first `n` readers have decremented counter `i`. */
  function Users(l: Lock, i: nat, n: nat): nat
    requires n <= |l.readers| == |l.slot|
  {
    if n == 0 then 0 else Users(l, i, n - 1) + if l.slot[n - 1] == i && Uses(l.readers[n - 1]) then 1 else 0
  }

  /** How many of the first `n` readers share slot `i`. */
  function Sharers(slot: seq<nat>, i: nat, n: nat): nat
    requires n <= |slot|
  {
    if n == 0 then 0 else Sharers(slot, i, n - 1) + if slot[n - 1] == i then 1 else 0
  }

  /** The writer has taken its share off counter `i`. */
  predicate Marked(w: Writer, i: nat) {
    match w
    case Away => false
    case Entering(k) => i < k
    case Scanning(k) => true
    case Ready => true
    case Leaving(k) => k <= i
  }

  /** The writer has seen that nobody holds lock `i`, and has not let anybody in since. */
  predicate Drained(w: Writer, i: nat) {
    match w
    case Away => false
    case Entering(k) => false
    case Scanning(k) => i < k
    case Ready => true
    case Leaving(k) => k <= i
  }

  ghost predicate CounterOk(l: Lock, i: nat)
    requires |l.readers| == |l.slot| && i < |l.cnt|
  {
    && l.cnt[i] == (if Marked(l.writer, i) then 0 else BIAS) - Users(l, i, |l.slot|)
    && (Drained(l.writer, i) ==> forall t :: 0 <= t < |l.slot| && l.slot[t] == i ==> !l.readers[t].Holding?)
  }

  ghost predicate Inv(l: Lock) {
    && |l.readers| == |l.slot|
    && (forall t :: 0 <= t < |l.slot| ==> l.slot[t] < |l.cnt|)
    && (forall i {:trigger CounterOk(l, i)} :: 0 <= i < |l.cnt| ==> CounterOk(l, i))
    && (l.flag <==> !l.writer.Away?)
    && (l.writer.Entering? || l.writer.Scanning? || l.writer.Leaving? ==> l.writer.k <= |l.cnt|)
  }

  /** Fewer readers share a slot than the bias allows for. */
  ghost predicate Few(slot: seq<nat>) { forall i: nat :: Sharers(slot, i, |slot|) < BIAS }

  lemma {:induction false} UsersSet(l: Lock, t: nat, r: Reader, i: nat, n: nat)
    requires n <= |l.readers| == |l.slot| && t < |l.readers|
    ensures Users(Set(l, t, r), i, n) == Users(l, i, n)
            + if t < n && l.slot[t] == i then (if Uses(r) then 1 else 0) - (if Uses(l.readers[t]) then 1 else 0) else 0
  {
    if n > 0 {
      UsersSet(l, t, r, i, n - 1);
    }
  }

  lemma {:induction false} UsersSame(l: Lock, m: Lock, i: nat, n: nat)
    requires n <= |l.readers| == |l.slot| && l.readers == m.readers && l.slot == m.slot
    ensures Users(m, i, n) == Users(l, i, n)
  {
    if n > 0 {
      UsersSame(l, m, i, n - 1);
    }
  }

  lemma {:induction false} UsersFew(l: Lock, i: nat, n: nat)
    requires n <= |l.readers| == |l.slot|
    ensures Users(l, i, n) <= Sharers(l.slot, i, n)
  {
    if n > 0 {
      UsersFew(l, i, n - 1);
    }
  }

  lemma {:induction false} HolderCounts(l: Lock, i: nat, t: nat, n: nat)
    requires t < n <= |l.readers| == |l.slot| && l.slot[t] == i && Uses(l.readers[t])
    ensures 0 < Users(l, i, n)
  {
    if t < n - 1 {
      HolderCounts(l, i, t, n - 1);
    }
  }

  /** Nobody holds a lock whose marked counter is zero. */
  lemma ZeroMeansFree(l: Lock, i: nat)
    requires Inv(l) && i < |l.cnt| && Marked(l.writer, i) && l.cnt[i] == 0
    ensures forall t :: 0 <= t < |l.slot| && l.slot[t] == i ==> !l.readers[t].Holding?
  {
    assert CounterOk(l, i);
    forall t | 0 <= t < |l.slot| && l.slot[t] == i ensures !l.readers[t].Holding? {
      if l.readers[t].Holding? { HolderCounts(l, i, t, |l.slot|); }
    }
  }

  predicate ByReader(e: Event) { e.Look? || e.Take? || e.Undo? || e.Unlock? || e.Retry? }

  lemma ReaderCounts(l: Lock, m: Lock, t: nat, i: nat)
    requires t < |l.readers| == |l.slot| && |m.readers| == |l.readers|
    requires m.slot == l.slot && m.readers == l.readers[t := m.readers[t]]
    ensures Users(m, i, |l.slot|) == Users(l, i, |l.slot|)
            + if l.slot[t] != i then 0
              else (if Uses(m.readers[t]) then 1 else 0) - (if Uses(l.readers[t]) then 1 else 0)
  {
    UsersSet(l, t, m.readers[t], i, |l.slot|);
    UsersSame(Set(l, t, m.readers[t]), m, i, |l.slot|);
  }

  lemma ReaderKeeps(l: Lock, e: Event, m: Lock, i: nat)
    requires Inv(l) && Step(l, e, m) && ByReader(e) && i < |m.cnt|
    ensures CounterOk(m, i)
  {
    assert CounterOk(l, i);
    ReaderCounts(l, m, e.t, i);
  }

  lemma WriterKeeps(l: Lock, e: Event, m: Lock, i: nat)
    requires Inv(l) && Step(l, e, m) && !ByReader(e) && i < |m.cnt|
    ensures CounterOk(m, i)
  {
    assert CounterOk(l, i);
    UsersSame(l, m, i, |l.slot|);
    if e.Scan? && l.writer.k == i && l.cnt[i] == 0 {
      ZeroMeansFree(l, i);
    }
  }

  lemma StepKeeps(l: Lock, e: Event, m: Lock)
    requires Inv(l) && Step(l, e, m)
    ensures Inv(m) && m.slot == l.slot && |m.cnt| == |l.cnt|
  {
    forall i | 0 <= i < |m.cnt| ensures CounterOk(m, i) {
      if ByReader(e) { ReaderKeeps(l, e, m, i); } else { WriterKeeps(l, e, m, i); }
    }
  }

  // ---------------------------------------------------------------- runs

  ghost predicate Run(events: seq<Event>, locks: seq<Lock>) {
    && |locks| == |events| + 1
    && (exists slot, n: nat :: (forall t :: 0 <= t < |slot| ==> slot[t] < n) && locks[0] == Fresh(slot, n))
    && forall i {:trigger StepAt(events, locks, i)} :: 0 <= i < |events| ==> StepAt(events, locks, i)
  }

  predicate StepAt(events: seq<Event>, locks: seq<Lock>, i: nat)
    requires |locks| == |events| + 1 && i < |events|
  {
    Step(locks[i], events[i], locks[i + 1])
  }

  lemma {:induction false} FreshUsers(slot: seq<nat>, n: nat, i: nat, k: nat)
    requires k <= |slot|
    ensures Users(Fresh(slot, n), i, k) == 0
  {
    if k > 0 {
      FreshUsers(slot, n, i, k - 1);
    }
  }

  lemma FreshIsFine(slot: seq<nat>, n: nat)
    requires forall t :: 0 <= t < |slot| ==> slot[t] < n
    ensures Inv(Fresh(slot, n))
  {
    forall i | 0 <= i < n ensures CounterOk(Fresh(slot, n), i) {
      FreshUsers(slot, n, i, |slot|);
    }
  }

  lemma {:induction false} RunKeeps(events: seq<Event>, locks: seq<Lock>, n: nat)
    requires Run(events, locks) && n < |locks|
    ensures Inv(locks[n]) && locks[n].slot == locks[0].slot
  {
    if n == 0 {
      var slot, k: nat :| (forall t :: 0 <= t < |slot| ==> slot[t] < k) && locks[0] == Fresh(slot, k);
      FreshIsFine(slot, k);
    } else {
      RunKeeps(events, locks, n - 1);
      assert StepAt(events, locks, n - 1);
      StepKeeps(locks[n - 1], events[n - 1], locks[n]);
    }
  }

  /** From the moment the writer's scan succeeds until it leaves a lock, nobody holds that lock,
      although the scan looks at one counter at a time. */
  lemma MutualExclusion(events: seq<Event>, locks: seq<Lock>, n: nat, t: nat)
    requires Run(events, locks) && n < |locks| && t < |locks[n].readers|
    requires locks[n].writer.Ready?
          || (locks[n].writer.Leaving? && t < |locks[n].slot| && locks[n].writer.k <= locks[n].slot[t])
    ensures !locks[n].readers[t].Holding?
  {
    RunKeeps(events, locks, n);
    assert CounterOk(locks[n], locks[n].slot[t]);
  }

  /** A step that refuses a reader, at the first look or at the decrement. */
  predicate Refuses(l: Lock, e: Event, m: Lock) {
    && (e.Look? || e.Take?) && e.t < |m.readers| && (m.readers[e.t].Refused? || m.readers[e.t].Undoing?)
  }

  /** A reader is refused only in a step in which the write flag is up, provided fewer readers
      share its slot than the bias. */
  lemma RefusedUnderFlag(events: seq<Event>, locks: seq<Lock>, n: nat)
    requires Run(events, locks) && n < |events| && Few(locks[0].slot)
    requires Refuses(locks[n], events[n], locks[n + 1])
    ensures locks[n].flag
  {
    RunKeeps(events, locks, n);
    assert StepAt(events, locks, n);
    var l := locks[n];
    var i := l.slot[events[n].t];
    assert CounterOk(l, i);
    UsersFew(l, i, |l.slot|);
  }

  /** No reader has decremented counter `i`. */
  predicate NobodyAt(l: Lock, i: nat) requires |l.readers| == |l.slot| {
    forall u :: 0 <= u < |l.slot| && l.slot[u] == i ==> !Uses(l.readers[u])
  }

  /** A first look turns a reader away exactly if the writer has marked its lock and nobody is at it.
      Where somebody is, it is the decrement that finds out. */
  lemma TurnedAway(events: seq<Event>, locks: seq<Lock>, n: nat, t: nat)
    requires Run(events, locks) && n < |events| && Few(locks[0].slot) && events[n] == Look(t)
    ensures var l := locks[n];
            && t < |l.slot| == |l.readers| && t < |locks[n + 1].readers|
            && (locks[n + 1].readers[t].Refused? <==> Marked(l.writer, l.slot[t]) && NobodyAt(l, l.slot[t]))
  {
    RunKeeps(events, locks, n);
    assert StepAt(events, locks, n);
    var l := locks[n];
    var i := l.slot[t];
    assert CounterOk(l, i);
    UsersFew(l, i, |l.slot|);
    UsersNone(l, i, |l.slot|);
  }

  lemma {:induction false} UsersNone(l: Lock, i: nat, n: nat)
    requires n <= |l.readers| == |l.slot|
    ensures Users(l, i, n) == 0 <==> forall u :: 0 <= u < n && l.slot[u] == i ==> !Uses(l.readers[u])
  {
    if n > 0 {
      UsersNone(l, i, n - 1);
    }
  }

  /** A lock the writer has marked implies that the flag is up. */
  lemma MarkedUnderFlag(events: seq<Event>, locks: seq<Lock>, n: nat, i: nat)
    requires Run(events, locks) && n < |locks| && Marked(locks[n].writer, i)
    ensures locks[n].flag
  {
    RunKeeps(events, locks, n);
  }

  /** Once the writer is away and no reader is between its steps, every counter is the bias again. */
  lemma QuietIsFresh(events: seq<Event>, locks: seq<Lock>, n: nat, i: nat)
    requires Run(events, locks) && n < |locks| && i < |locks[n].cnt| && locks[n].writer.Away?
    requires forall t :: 0 <= t < |locks[n].readers| ==> !Uses(locks[n].readers[t])
    ensures locks[n].cnt[i] == 0x0100_0000
  {
    RunKeeps(events, locks, n);
    assert CounterOk(locks[n], i);
    NoUsers(locks[n], i, |locks[n].slot|);
  }

  lemma {:induction false} NoUsers(l: Lock, i: nat, n: nat)
    requires n <= |l.readers| == |l.slot| && forall t :: 0 <= t < |l.readers| ==> !Uses(l.readers[t])
    ensures Users(l, i, n) == 0
  {
    if n > 0 {
      NoUsers(l, i, n - 1);
    }
  }

  // ---------------------------------------------------------------- nobody is shut out

  /** With the flag down a reader that asks for the lock gets it, in two steps. */
  lemma ReaderGetsIn(events: seq<Event>, locks: seq<Lock>, n: nat, t: nat) returns (l: Lock, m: Lock)
    requires Run(events, locks) && n < |locks| && Few(locks[0].slot) && !locks[n].flag
    requires t < |locks[n].readers| && locks[n].readers[t].Outside?
    ensures Step(locks[n], Look(t), l) && Step(l, Take(t), m) && m.readers == locks[n].readers[t := Holding]
    ensures m.cnt == locks[n].cnt[locks[n].slot[t] := locks[n].cnt[locks[n].slot[t]] - 1] && m.writer == locks[n].writer
  {
    RunKeeps(events, locks, n);
    var i := locks[n].slot[t];
    assert CounterOk(locks[n], i);
    UsersFew(locks[n], i, |locks[n].slot|);
    l := Set(locks[n], t, Looked);
    m := Set(l, t, Holding).(cnt := l.cnt[i := l.cnt[i] - 1]);
  }

  /** Steps one after the other. */
  ghost predicate Path(events: seq<Event>, locks: seq<Lock>) {
    && |locks| == |events| + 1
    && forall i {:trigger StepAt(events, locks, i)} :: 0 <= i < |events| ==> StepAt(events, locks, i)
  }

  lemma PathFrom(l: Lock, e: Event, events: seq<Event>, locks: seq<Lock>)
    requires Path(events, locks) && Step(l, e, locks[0])
    ensures Path([e] + events, [l] + locks)
  {
    forall i | 0 <= i < |[e] + events| ensures StepAt([e] + events, [l] + locks, i) {
      assert i > 0 ==> StepAt(events, locks, i - 1);
    }
  }

  ghost predicate NobodyIn(l: Lock) { forall t :: 0 <= t < |l.readers| ==> !Uses(l.readers[t]) }

  /** Nothing but the counters and the writer's place has changed. */
  predicate SameReaders(l: Lock, m: Lock) { m.readers == l.readers && m.slot == l.slot && |m.cnt| == |l.cnt| }

  lemma {:induction false} ScanEnds(l: Lock, k: nat) returns (events: seq<Event>, locks: seq<Lock>)
    requires Inv(l) && NobodyIn(l) && l.writer == Scanning(k)
    ensures Path(events, locks) && locks[0] == l && SameReaders(l, locks[|events|]) && locks[|events|].writer.Ready?
    decreases |l.cnt| - k
  {
    if k < |l.cnt| {
      assert CounterOk(l, k);
      NoUsers(l, k, |l.slot|);
      var m := l.(writer := Scanning(k + 1));
      StepKeeps(l, Scan, m);
      events, locks := ScanEnds(m, k + 1);
      PathFrom(l, Scan, events, locks);
      events, locks := [Scan] + events, [l] + locks;
    } else {
      var m := l.(writer := Ready);
      events, locks := [Scan], [l, m];
    }
  }

  lemma {:induction false} EnterEnds(l: Lock, k: nat) returns (events: seq<Event>, locks: seq<Lock>)
    requires Inv(l) && NobodyIn(l) && l.writer == Entering(k)
    ensures Path(events, locks) && locks[0] == l && SameReaders(l, locks[|events|]) && locks[|events|].writer.Ready?
    decreases |l.cnt| - k
  {
    var e, m;
    if k < |l.cnt| {
      e, m := Enter, l.(cnt := l.cnt[k := l.cnt[k] - BIAS], writer := Entering(k + 1));
      StepKeeps(l, e, m);
      events, locks := EnterEnds(m, k + 1);
    } else {
      e, m := StartScan, l.(writer := Scanning(0));
      StepKeeps(l, e, m);
      events, locks := ScanEnds(m, 0);
    }
    PathFrom(l, e, events, locks);
    events, locks := [e] + events, [l] + locks;
  }

  /** A writer gets all locks if no reader holds one and none comes. */
  lemma WriterGetsIn(l: Lock) returns (events: seq<Event>, locks: seq<Lock>)
    requires Inv(l) && NobodyIn(l) && l.writer.Away?
    ensures Path(events, locks) && locks[0] == l && SameReaders(l, locks[|events|]) && locks[|events|].writer.Ready?
  {
    var m := l.(flag := true, writer := Entering(0));
    StepKeeps(l, Raise, m);
    events, locks := EnterEnds(m, 0);
    PathFrom(l, Raise, events, locks);
    events, locks := [Raise] + events, [l] + locks;
  }

  lemma {:induction false} LeaveEnds(l: Lock, k: nat) returns (events: seq<Event>, locks: seq<Lock>)
    requires Inv(l) && l.writer == Leaving(k)
    ensures Path(events, locks) && locks[0] == l && SameReaders(l, locks[|events|])
    ensures locks[|events|].writer.Away? && !locks[|events|].flag
    decreases |l.cnt| - k
  {
    if k < |l.cnt| {
      var m := l.(cnt := l.cnt[k := l.cnt[k] + BIAS], writer := Leaving(k + 1));
      StepKeeps(l, Leave, m);
      events, locks := LeaveEnds(m, k + 1);
      PathFrom(l, Leave, events, locks);
      events, locks := [Leave] + events, [l] + locks;
    } else {
      events, locks := [Lower], [l, l.(flag := false, writer := Away)];
    }
  }

  /** A writer that has the locks can always give them all back, whatever readers do meanwhile. */
  lemma WriterGetsOut(l: Lock) returns (events: seq<Event>, locks: seq<Lock>)
    requires Inv(l) && l.writer.Ready? && 0 < |l.cnt|
    ensures Path(events, locks) && locks[0] == l && SameReaders(l, locks[|events|])
    ensures locks[|events|].writer.Away? && !locks[|events|].flag
  {
    var m := l.(cnt := l.cnt[0 := l.cnt[0] + BIAS], writer := Leaving(1));
    StepKeeps(l, Leave, m);
    events, locks := LeaveEnds(m, 1);
    PathFrom(l, Leave, events, locks);
    events, locks := [Leave] + events, [l] + locks;
  }
}
