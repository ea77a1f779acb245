/** How refused readers sleep and are woken: on a futex over the write flag
    (src/uDepot/rwlock-pagefault.cc), or on an asynchronous object that the writer publishes
    (src/uDepot/rwlock-pagefault-trt.cc). Writers exclude each other, from the start of an
    enter to the end of the following exit. */
module Sleeping {
  import opened BigReader

  // ---------------------------------------------------------------- futex

  /** `owes`: the writer has lowered the flag and not yet woken the sleepers. */
  datatype Futex = Futex(lock: Lock, asleep: set<nat>, owes: bool)

  /** Wait: the kernel puts a refused reader to sleep if the flag is still up, else it retries;
      Disturb: a sleep is interrupted; Wake: the writer wakes all. */
  datatype FEvent = FStep(e: Event) | Wait(t: nat) | Disturb(t: nat) | Wake

  predicate FutexStep(f: Futex, e: FEvent, g: Futex) {
    match e
    case FStep(s) =>
      && (ByReader(s) ==> s.t !in f.asleep && !s.Retry?)
      && (s.Raise? ==> !f.owes)
      && Step(f.lock, s, g.lock)
      && g.asleep == f.asleep && g.owes == (f.owes || s.Lower?)
    case Wait(t) =>
      && t < |f.lock.readers| && f.lock.readers[t].Refused? && t !in f.asleep
      && if f.lock.flag then g == f.(asleep := f.asleep + {t})
         else Step(f.lock, Retry(t), g.lock) && g.asleep == f.asleep && g.owes == f.owes
    case Disturb(t) => t in f.asleep && Step(f.lock, Retry(t), g.lock) && g.asleep == f.asleep - {t} && g.owes == f.owes
    case Wake => f.owes && g == Futex(Rouse(f.lock, f.asleep), {}, false)
  }

  /** The woken readers start over. */
  function Rouse(l: Lock, asleep: set<nat>): Lock {
    l.(readers := seq(|l.readers|, t requires 0 <= t < |l.readers| =>
                        if t in asleep then Outside else l.readers[t]))
  }

  predicate StartsOver(l: Lock, t: nat) { t < |l.readers| && l.readers[t].Outside? }

  /** A sleeping reader was refused, and the flag is up or its wake-up is still owed. */
  ghost predicate FutexInv(f: Futex) {
    && Inv(f.lock)
    && (forall t :: t in f.asleep ==> t < |f.lock.readers| && f.lock.readers[t].Refused?)
    && (f.asleep != {} ==> f.lock.flag || f.owes)
    && (f.owes ==> f.lock.writer.Away?)
  }

  lemma {:induction false} RouseUsers(l: Lock, asleep: set<nat>, i: nat, n: nat)
    requires n <= |l.readers| == |l.slot| && forall t :: t in asleep ==> t < |l.readers| && l.readers[t].Refused?
    ensures Users(Rouse(l, asleep), i, n) == Users(l, i, n)
  {
    if n > 0 {
      RouseUsers(l, asleep, i, n - 1);
    }
  }

  lemma RouseKeeps(l: Lock, asleep: set<nat>)
    requires Inv(l) && forall t :: t in asleep ==> t < |l.readers| && l.readers[t].Refused?
    ensures Inv(Rouse(l, asleep))
  {
    var m := Rouse(l, asleep);
    forall i | 0 <= i < |m.cnt| ensures CounterOk(m, i) {
      assert CounterOk(l, i);
      RouseUsers(l, asleep, i, |l.slot|);
    }
  }

  lemma FutexStepKeeps(f: Futex, e: FEvent, g: Futex)
    requires FutexInv(f) && FutexStep(f, e, g)
    ensures FutexInv(g)
  {
    match e {
      case FStep(s) => StepKeeps(f.lock, s, g.lock);
      case Wait(t) => if !f.lock.flag { StepKeeps(f.lock, Retry(t), g.lock); }
      case Disturb(t) => StepKeeps(f.lock, Retry(t), g.lock);
      case Wake => RouseKeeps(f.lock, f.asleep);
    }
  }

  ghost predicate FutexRun(events: seq<FEvent>, run: seq<Futex>) {
    && |run| == |events| + 1
    && (exists slot, n: nat ::
          (forall t :: 0 <= t < |slot| ==> slot[t] < n) && run[0] == Futex(Fresh(slot, n), {}, false))
    && forall i {:trigger FutexAt(events, run, i)} :: 0 <= i < |events| ==> FutexAt(events, run, i)
  }

  predicate FutexAt(events: seq<FEvent>, run: seq<Futex>, i: nat)
    requires |run| == |events| + 1 && i < |events|
  {
    FutexStep(run[i], events[i], run[i + 1])
  }

  lemma {:induction false} FutexRunKeeps(events: seq<FEvent>, run: seq<Futex>, n: nat)
    requires FutexRun(events, run) && n < |run|
    ensures FutexInv(run[n])
  {
    if n == 0 {
      var slot, k: nat :| (forall t :: 0 <= t < |slot| ==> slot[t] < k) && run[0] == Futex(Fresh(slot, k), {}, false);
      FreshIsFine(slot, k);
    } else {
      FutexRunKeeps(events, run, n - 1);
      assert FutexAt(events, run, n - 1);
      FutexStepKeeps(run[n - 1], events[n - 1], run[n]);
    }
  }

  /** No wake-up is lost: whenever a reader sleeps, the flag is up or the writer has yet to wake
      it; so nobody sleeps while the writer is away and owes nothing, and a wake leaves nobody
      asleep. */
  lemma NoLostWakeup(events: seq<FEvent>, run: seq<Futex>, n: nat)
    requires FutexRun(events, run) && n < |run|
    ensures run[n].asleep != {} ==> run[n].lock.flag || run[n].owes
    ensures run[n].lock.writer.Away? && !run[n].owes ==> run[n].asleep == {}
    ensures n < |events| && events[n].Wake? ==>
      run[n + 1].asleep == {} && forall t :: t in run[n].asleep ==> StartsOver(run[n + 1].lock, t)
  {
    FutexRunKeeps(events, run, n);
    if n < |events| { assert FutexAt(events, run, n); }
  }

  /** A refused reader is never stuck: it goes to sleep while the flag is up, and starts over otherwise. */
  lemma RefusedWaits(events: seq<FEvent>, run: seq<Futex>, n: nat, t: nat) returns (g: Futex)
    requires FutexRun(events, run) && n < |run| && t < |run[n].lock.readers|
    requires run[n].lock.readers[t].Refused? && t !in run[n].asleep
    ensures FutexStep(run[n], Wait(t), g)
    ensures if run[n].lock.flag then t in g.asleep else StartsOver(g.lock, t)
  {
    var f := run[n];
    g := if f.lock.flag then f.(asleep := f.asleep + {t}) else f.(lock := Set(f.lock, t, Outside));
  }

  // ---------------------------------------------------------------- asynchronous object

  /** `current`: the published object; `retired`: taken back and still to be notified; `next`:
      the objects allocated so far; `waits`: the object each sleeping reader subscribed to. */
  datatype Trt = Trt(lock: Lock, current: set<nat>, retired: set<nat>, next: nat, waits: map<nat, nat>)

  datatype TEvent = TStep(e: Event) | Publish | Retract | Subscribe(t: nat) | Notify

  /** The writer publishes an object before it raises the flag, retracts it before it leaves the
      locks, and notifies its subscribers after it lowered the flag. */
  predicate TrtStep(f: Trt, e: TEvent, g: Trt) {
    match e
    case TStep(s) =>
      && (ByReader(s) ==> s.t !in f.waits && !s.Retry?)
      && (s.Raise? ==> f.current != {} && f.retired == {})
      && (s.Leave? ==> f.current == {})
      && Step(f.lock, s, g.lock)
      && g.current == f.current && g.retired == f.retired && g.next == f.next && g.waits == f.waits
    case Publish =>
      && f.lock.writer.Away? && f.current == {} && f.retired == {}
      && g == f.(current := {f.next}, next := f.next + 1)
    case Retract => f.lock.writer.Ready? && f.current != {} && g == f.(current := {}, retired := f.current)
    case Subscribe(t) =>
      && t < |f.lock.readers| && f.lock.readers[t].Refused? && t !in f.waits
      && if f.current == {} then
           Step(f.lock, Retry(t), g.lock) && g == f.(lock := g.lock)
         else exists a :: a in f.current && g == f.(waits := f.waits[t := a])
    case Notify =>
      && f.lock.writer.Away? && f.retired != {}
      && var woken := set t | t in f.waits && f.waits[t] in f.retired;
      g == f.(lock := Rouse(f.lock, woken), retired := {}, waits := f.waits - woken)
  }

  ghost predicate TrtInv(f: Trt) {
    && Inv(f.lock)
    && (forall t :: t in f.waits ==> t < |f.lock.readers| && f.lock.readers[t].Refused?)
    && (forall t :: t in f.waits ==> f.waits[t] in f.current + f.retired)
    && (forall a :: a in f.current + f.retired ==> a < f.next)
    && (f.current == {} || f.retired == {})
    && (f.lock.writer.Entering? || f.lock.writer.Scanning? ==> f.current != {})
    && (f.lock.writer.Ready? ==> f.current != {} || f.retired != {})
    && (f.lock.writer.Leaving? ==> f.current == {} && f.retired != {})
  }

  lemma TrtStepKeeps(f: Trt, e: TEvent, g: Trt)
    requires TrtInv(f) && TrtStep(f, e, g)
    ensures TrtInv(g)
  {
    match e {
      case TStep(s) => StepKeeps(f.lock, s, g.lock);
      case Publish =>
      case Retract => assert g.current + g.retired == f.current + f.retired;
      case Subscribe(t) => if f.current == {} { StepKeeps(f.lock, Retry(t), g.lock); }
      case Notify => RouseKeeps(f.lock, set t | t in f.waits && f.waits[t] in f.retired);
    }
  }

  ghost predicate TrtRun(events: seq<TEvent>, run: seq<Trt>) {
    && |run| == |events| + 1
    && (exists slot, n: nat ::
          (forall t :: 0 <= t < |slot| ==> slot[t] < n) && run[0] == Trt(Fresh(slot, n), {}, {}, 0, map[]))
    && forall i {:trigger TrtAt(events, run, i)} :: 0 <= i < |events| ==> TrtAt(events, run, i)
  }

  predicate TrtAt(events: seq<TEvent>, run: seq<Trt>, i: nat)
    requires |run| == |events| + 1 && i < |events|
  {
    TrtStep(run[i], events[i], run[i + 1])
  }

  lemma {:induction false} TrtRunKeeps(events: seq<TEvent>, run: seq<Trt>, n: nat)
    requires TrtRun(events, run) && n < |run|
    ensures TrtInv(run[n])
  {
    if n == 0 {
      var slot, k: nat :|
        (forall t :: 0 <= t < |slot| ==> slot[t] < k) && run[0] == Trt(Fresh(slot, k), {}, {}, 0, map[]);
      FreshIsFine(slot, k);
    } else {
      TrtRunKeeps(events, run, n - 1);
      assert TrtAt(events, run, n - 1);
      TrtStepKeeps(run[n - 1], events[n - 1], run[n]);
    }
  }

  /** Every sleeping reader waits for the published object or for one still to be notified, so
      none sleeps once the writer is done; and a notification leaves nobody asleep. */
  lemma NoLostNotification(events: seq<TEvent>, run: seq<Trt>, n: nat)
    requires TrtRun(events, run) && n < |run|
    ensures forall t :: t in run[n].waits ==> run[n].waits[t] in run[n].current + run[n].retired
    ensures run[n].current == {} && run[n].retired == {} ==> run[n].waits == map[]
    ensures n < |events| && events[n].Notify? ==>
      run[n + 1].waits == map[] && forall t :: t in run[n].waits ==> StartsOver(run[n + 1].lock, t)
  {
    TrtRunKeeps(events, run, n);
    if n < |events| { assert TrtAt(events, run, n); }
  }

  /** A refused reader is never stuck: it waits for the published object, and starts over if there is none. */
  lemma RefusedSubscribes(events: seq<TEvent>, run: seq<Trt>, n: nat, t: nat) returns (g: Trt)
    requires TrtRun(events, run) && n < |run| && t < |run[n].lock.readers|
    requires run[n].lock.readers[t].Refused? && t !in run[n].waits
    ensures TrtStep(run[n], Subscribe(t), g)
    ensures if run[n].current != {} then t in g.waits else StartsOver(g.lock, t)
  {
    var f := run[n];
    if f.current == {} {
      g := f.(lock := Set(f.lock, t, Outside));
    } else {
      var a :| a in f.current;
      g := f.(waits := f.waits[t := a]);
    }
  }
}
