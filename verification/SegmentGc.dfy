/** The segment allocator and the N-bin garbage collector with its two-level delay queue, in the
    variant the store uses (salsa/src/sto-ctlr/scm-seg-alloc.c, salsa/src/gc/gc-nbin.c,
    salsa/src/gc/gc-common.c).

    Each operation is one step: the spin locks of the code make the updates of a segment and
    of a queue atomic. Destaged segments that are fully valid are binned at once; others wait
    in a delay queue first. Every step keeps `Valid`. */
module SegmentGc {
  import opened Segments

  datatype Option<T> = None | Some(value: T)

  const MIN_REL_SEGMENTS: nat := 1
  const CHERRY_PICK_PERCENT: nat := 10
  const INVALID_PRIV: nat := 255

  /** A segment that joins a free queue, or a reserve that is short, overfills no reserve and leaves the delay queues
      alone. */
  lemma AddedFree(qs: Queues, p: Place, n: nat)
    requires p.FreeQ? || (p.ReserveQ? && |At(qs, p)| < MIN_REL_SEGMENTS)
    requires forall q {:trigger At(qs, ReserveQ(q))} :: |At(qs, ReserveQ(q))| <= MIN_REL_SEGMENTS
    ensures forall q {:trigger At(qs[p := At(qs, p) + [n]], ReserveQ(q))} ::
              |At(qs[p := At(qs, p) + [n]], ReserveQ(q))| <= MIN_REL_SEGMENTS
    ensures forall l {:trigger At(qs[p := At(qs, p) + [n]], WaitQ(l))} ::
              At(qs[p := At(qs, p) + [n]], WaitQ(l)) == At(qs, WaitQ(l))
  {
    forall q ensures |At(qs[p := At(qs, p) + [n]], ReserveQ(q))| <= MIN_REL_SEGMENTS {
      assert |At(qs, ReserveQ(q))| <= MIN_REL_SEGMENTS;
    }
  }

  class Gc {
    const segSize: nat
    const binNr: nat
    const levels: nat
    const thr: seq<nat>
    var segs: seq<Seg>
    var queues: Queues
    var waitNr: seq<nat>
    var validSegNr: nat
    var thin: nat

    ghost predicate Sizes() {
      0 < binNr <= segSize && 0 < levels == |thr| && forall l :: 0 <= l < levels ==> 2 <= thr[l]
    }

    /** What a segment's fields say about each other in every place. */
    ghost predicate SegOk(s: Seg)
      requires Sizes()
    {
      && s.valid <= segSize
      && (s.state.Binned? ==> s.priv == BinOf(segSize, binNr, s.valid))
      && (s.state.Waiting? ==> s.valid < segSize && s.priv == XNP_BIN_ID)
      && (s.state.Taken? ==> s.valid < segSize)
      && (s.state.Free? || s.state.FreeRel? ==> s.valid == segSize)
    }

    /** Every segment is in exactly one place, the right one. */
    ghost predicate Placed()
      reads this
    {
      && Sizes() && Partition(levels, segs, queues)
      && (forall i {:trigger segs[i]} :: 0 <= i < |segs| ==> SegOk(segs[i]))
      && (forall q {:trigger At(queues, ReserveQ(q))} :: |At(queues, ReserveQ(q))| <= MIN_REL_SEGMENTS)
    }

    /** The delay queues' counters are their lengths. */
    ghost predicate Counted()
      reads this
    {
      |waitNr| == levels && forall l {:trigger waitNr[l]} :: 0 <= l < levels ==> waitNr[l] == |At(queues, WaitQ(l))|
    }

    /** Every delay queue is below its threshold. */
    ghost predicate Bounded()
      reads this
      requires |waitNr| == |thr| == levels
    {
      forall l {:trigger waitNr[l]} :: 0 <= l < levels ==> waitNr[l] < thr[l]
    }

    /** `validSegNr` counts the segments destaged and not yet released. */
    ghost predicate Tallied()
      reads this
    {
      validSegNr == DirtyNr(segs, |segs|)
    }

    ghost predicate Valid()
      reads this
    {
      Placed() && Counted() && Bounded() && Tallied()
    }

    constructor (segSize: nat, binNr: nat, thr: seq<nat>)
      requires 0 < binNr <= segSize && 0 < |thr| && forall l :: 0 <= l < |thr| ==> 2 <= thr[l]
      ensures Valid() && segs == []
    {
      this.segSize, this.binNr, this.levels, this.thr := segSize, binNr, |thr|, thr;
      segs, queues, waitNr, validSegNr, thin := [], map[], seq(|thr|, _ => 0), 0, 0;
    }

    /** A new segment is given to free queue `q`, or to its reserve if that is short. */
    method AddSegment(q: nat)
      requires Valid()
      modifies this
      ensures Valid()
      ensures var short := old(|At(queues, ReserveQ(q))|) < MIN_REL_SEGMENTS;
              segs == old(segs) + [Seg(segSize, 0, if short then FreeRel else Free, INVALID_PRIV, q)]
      ensures var p := if old(|At(queues, ReserveQ(q))|) < MIN_REL_SEGMENTS then ReserveQ(q) else FreeQ(q);
              queues == old(queues)[p := old(At(queues, p)) + [old(|segs|)]]
    {
      var t := Seg(segSize, 0, if |At(queues, ReserveQ(q))| < MIN_REL_SEGMENTS then FreeRel else Free, INVALID_PRIV, q);
      var p := PlaceOf(levels, t);
      AddedKeeps(levels, segs, queues, t);
      DirtyPrefix(segs, [t], |segs|);
      AddedFree(queues, p, |segs|);
      queues := queues[p := At(queues, p) + [|segs|]];
      segs := segs + [t];
    }

    /** What may happen to another segment in a step: it leaves its delay queue for its bin. */
    ghost predicate Binnable(o: Seg, t: Seg)
      requires Sizes()
    {
      t == o || (o.state.Waiting? && t == o.(state := Binned, priv := BinOf(segSize, binNr, o.valid)))
    }

    /** Segments other than `s` are as they were, but for one that may have left its delay queue. */
    ghost predicate Others(was: seq<Seg>, s: nat)
      requires Sizes()
      reads this
    {
      |segs| == |was| && forall i {:trigger segs[i]} :: 0 <= i < |segs| && i != s ==> Binnable(was[i], segs[i])
    }

    /** Segment `s` takes the fields `t` and goes to the end of the queue they name. */
    method Move(s: nat, t: Seg)
      requires Placed() && s < |segs| && SegOk(t) && PlaceOf(levels, t) != PlaceOf(levels, segs[s])
      requires PlaceOf(levels, t).ReserveQ? ==> At(queues, PlaceOf(levels, t)) == []
      modifies this`segs, this`queues
      ensures Placed() && segs == old(segs)[s := t] && queues == Moved(levels, old(segs), old(queues), s, t)
    {
      MovedKeeps(levels, segs, queues, s, t);
      ghost var p, was := PlaceOf(levels, segs[s]), queues;
      assert Holds(levels, segs, At(queues, p), p);
      RemoveMembers(At(queues, p), s);
      forall q ensures |At(Moved(levels, segs, queues, s, t), ReserveQ(q))| <= MIN_REL_SEGMENTS {
        MovedAt(levels, segs, queues, s, t, ReserveQ(q));
      }
      queues := Moved(levels, segs, queues, s, t);
      segs := segs[s := t];
    }

    // ---------------------------------------------------------------- free segments

    /** A segment that is freed: in the reserve of its queue if that was empty, else in the queue. */
    function Freed(o: Seg, qs: Queues): Seg {
      Seg(segSize, 0, if At(qs, ReserveQ(o.home)) == [] then FreeRel else Free, INVALID_PRIV, o.home)
    }

    /** A segment without valid grains is reset and freed: to the reserve of its queue if that
        is short, else to the queue itself. */
    method PutFree(s: nat)
      requires Placed() && s < |segs| && segs[s].valid == 0 && !segs[s].state.Free? && !segs[s].state.FreeRel?
      modifies this`segs, this`queues
      ensures Placed()
      ensures var home := old(segs)[s].home;
              var short := old(|At(queues, ReserveQ(home))|) < MIN_REL_SEGMENTS;
              segs == old(segs)[s := Seg(segSize, 0, if short then FreeRel else Free, INVALID_PRIV, home)]
      ensures queues == Moved(levels, old(segs), old(queues), s, segs[s])
    {
      var home := segs[s].home;
      if |At(queues, ReserveQ(home))| < MIN_REL_SEGMENTS {
        Move(s, Seg(segSize, 0, FreeRel, INVALID_PRIV, home));
      } else {
        Move(s, Seg(segSize, 0, Free, INVALID_PRIV, home));
      }
    }

    /** Takes the first segment of a free queue, or of its reserve for relocation. */
    method GetFree(q: nat, reloc: bool, useThin: bool, stream: nat) returns (r: Option<nat>)
      requires Valid()
      modifies this
      ensures Valid() && validSegNr == old(validSegNr) && waitNr == old(waitNr)
      ensures var from := old(At(queues, if reloc then ReserveQ(q) else FreeQ(q)));
              if (useThin && (reloc || old(thin) == 0)) || from == [] then r == None
              else r == Some(from[0])
      ensures r.None? ==> segs == old(segs) && queues == old(queues) && thin == old(thin)
      ensures r.Some? ==>
        && thin == old(thin) - (if useThin then 1 else 0)
        && r.value < |old(segs)|
        && segs == old(segs)[r.value := old(segs)[r.value].(state := Writing, stream := stream)]
        && segs[r.value].valid == segSize && queues == Moved(levels, old(segs), old(queues), r.value, segs[r.value])
    {
      if useThin {
        if reloc || thin == 0 {
          return None;
        }
        thin := thin - 1;
      }
      var p := if reloc then ReserveQ(q) else FreeQ(q);
      if At(queues, p) == [] {
        if useThin {
          thin := thin + 1;
        }
        return None;
      }
      var s := At(queues, p)[0];
      assert Holds(levels, segs, At(queues, p), p) && s in At(queues, p);
      DirtyUpdate(segs, s, segs[s].(state := Writing, stream := stream), |segs|);
      forall l
        ensures At(Moved(levels, segs, queues, s, segs[s].(state := Writing, stream := stream)), WaitQ(l))
             == At(queues, WaitQ(l))
      {
        MovedAt(levels, segs, queues, s, segs[s].(state := Writing, stream := stream), WaitQ(l));
      }
      Move(s, segs[s].(state := Writing, stream := stream));
      r := Some(s);
    }

    /** A segment that lost its last valid grain leaves the collector. */
    method Recycle(s: nat)
      requires Placed() && Counted() && Tallied() && s < |segs| && segs[s].valid == 0
      requires segs[s].state.Binned? || segs[s].state.Taken?
      modifies this`segs, this`queues, this`validSegNr
      ensures Placed() && Counted() && Tallied()
      ensures |segs| == |old(segs)| && segs[s] == Freed(old(segs)[s], old(queues))
      ensures validSegNr == old(validSegNr) - 1 && waitNr == old(waitNr)
      ensures forall i :: 0 <= i < |segs| && i != s ==> segs[i] == old(segs)[i]
    {
      ghost var was, qs := segs, queues;
      PutFree(s);
      DirtyUpdate(was, s, segs[s], |was|);
      forall l ensures At(queues, WaitQ(l)) == At(qs, WaitQ(l)) {
        MovedAt(levels, was, qs, s, segs[s], WaitQ(l));
      }
      DirtyBound(was, s, |was|);
      validSegNr := validSegNr - 1;
    }

    // ---------------------------------------------------------------- bins

    /** A segment's fields change, but not its place. */
    method Adjust(s: nat, t: Seg)
      requires Placed() && s < |segs| && SegOk(t) && PlaceOf(levels, t) == PlaceOf(levels, segs[s])
      modifies this`segs
      ensures Placed() && segs == old(segs)[s := t]
    {
      MovedKeeps(levels, segs, queues, s, t);
      segs := segs[s := t];
    }

    /** Segment `s`, with the collector before and after, gets `valid` valid grains and the bin
        that goes with them. */
    method Rebin(s: nat, valid: nat)
      requires Valid() && s < |segs| && (segs[s].state.Taken? || segs[s].state.Binned?) && valid <= segSize
      modifies this`segs, this`queues
      ensures Valid()
      ensures var bin := BinOf(segSize, binNr, valid);
              segs == old(segs)[s := old(segs)[s].(valid := valid, state := Binned, priv := bin)]
    {
      var t := segs[s].(valid := valid, state := Binned, priv := BinOf(segSize, binNr, valid));
      ghost var was, qs := segs, queues;
      DirtyUpdate(segs, s, t, |segs|);
      if PlaceOf(levels, t) == PlaceOf(levels, segs[s]) {
        Adjust(s, t);
      } else {
        Move(s, t);
        forall l ensures At(queues, WaitQ(l)) == At(qs, WaitQ(l)) {
          MovedAt(levels, was, qs, s, t, WaitQ(l));
        }
      }
    }

    // ---------------------------------------------------------------- the delay queues

    /** The oldest segment of a delay queue is binned. */
    method BinOldest(l: nat)
      requires Placed() && l < levels && At(queues, WaitQ(l)) != []
      modifies this`segs, this`queues
      ensures Placed() && DirtyNr(segs, |segs|) == old(DirtyNr(segs, |segs|))
      ensures At(queues, WaitQ(l)) == old(At(queues, WaitQ(l)))[1..]
      ensures forall m: nat :: m != l ==> At(queues, WaitQ(m)) == old(At(queues, WaitQ(m)))
      ensures var p := old(At(queues, WaitQ(l)))[0];
              && p < |old(segs)|
              && var bin := BinOf(segSize, binNr, old(segs)[p].valid);
                 segs == old(segs)[p := old(segs)[p].(state := Binned, priv := bin)]
    {
      var p := At(queues, WaitQ(l))[0];
      assert Holds(levels, segs, At(queues, WaitQ(l)), WaitQ(l)) && p in At(queues, WaitQ(l));
      var t := segs[p].(state := Binned, priv := BinOf(segSize, binNr, segs[p].valid));
      ghost var was, qs := segs, queues;
      DirtyUpdate(segs, p, t, |segs|);
      Move(p, t);
      PoppedAt(levels, was, qs, p, t, l, l);
      forall m: nat | m != l ensures At(queues, WaitQ(m)) == At(qs, WaitQ(m)) {
        PoppedAt(levels, was, qs, p, t, l, m);
      }
    }

    /** The oldest segment leaves its delay queue, which counts one less. */
    method PopOne(l: nat)
      requires Placed() && Counted() && Tallied() && l < levels && At(queues, WaitQ(l)) != []
      modifies this`segs, this`queues, this`waitNr
      ensures Placed() && Counted() && Tallied()
      ensures waitNr == old(waitNr)[l := old(waitNr)[l] - 1]
      ensures At(queues, WaitQ(l)) == old(At(queues, WaitQ(l)))[1..]
      ensures forall m: nat :: m != l ==> At(queues, WaitQ(m)) == old(At(queues, WaitQ(m)))
      ensures var p := old(At(queues, WaitQ(l)))[0];
              && p < |old(segs)|
              && var bin := BinOf(segSize, binNr, old(segs)[p].valid);
                 segs == old(segs)[p := old(segs)[p].(state := Binned, priv := bin)]
    {
      BinOldest(l);
      waitNr := waitNr[l := waitNr[l] - 1];
    }

    /** A segment joins its delay queue. */
    method PushOne(s: nat, valid: nat)
      requires Placed() && Counted() && s < |segs| && !segs[s].state.Waiting? && valid < segSize
      modifies this`segs, this`queues, this`waitNr
      ensures Placed() && Counted()
      ensures var l := Level(levels, old(segs)[s].stream);
              && l < levels && waitNr == old(waitNr)[l := old(waitNr)[l] + 1]
              && At(queues, WaitQ(l)) == old(At(queues, WaitQ(l))) + [s]
      ensures segs == old(segs)[s := old(segs)[s].(valid := valid, state := Waiting, priv := XNP_BIN_ID)]
    {
      var l := Level(levels, segs[s].stream);
      var t := segs[s].(valid := valid, state := Waiting, priv := XNP_BIN_ID);
      ghost var was, qs := segs, queues;
      Move(s, t);
      waitNr := waitNr[l := waitNr[l] + 1];
      forall m ensures At(queues, WaitQ(m)) == if m == l then At(qs, WaitQ(m)) + [s] else At(qs, WaitQ(m)) {
        MovedAt(levels, was, qs, s, t, WaitQ(m));
      }
    }

    /** A segment joins its delay queue, and if that reaches its threshold the oldest one leaves
        it, which is never the one that just came. */
    method PushPop(s: nat, valid: nat)
      requires Placed() && Counted() && Bounded() && s < |segs| && !segs[s].state.Waiting? && valid < segSize
      requires validSegNr == DirtyNr(segs, |segs|) + 1 - Dirty(segs[s])
      modifies this`segs, this`queues, this`waitNr
      ensures Valid() && |segs| == |old(segs)|
      ensures segs[s] == old(segs)[s].(valid := valid, state := Waiting, priv := XNP_BIN_ID)
      ensures var l := Level(levels, segs[s].stream);
              var q := old(At(queues, WaitQ(l))) + [s];
              if |q| < thr[l] then
                At(queues, WaitQ(l)) == q && forall i :: 0 <= i < |segs| && i != s ==> segs[i] == old(segs)[i]
              else
                && At(queues, WaitQ(l)) == q[1..] && q[0] != s && q[0] < |segs|
                && segs[q[0]] == old(segs)[q[0]].(state := Binned, priv := BinOf(segSize, binNr, old(segs)[q[0]].valid))
                && forall i :: 0 <= i < |segs| && i != s && i != q[0] ==> segs[i] == old(segs)[i]
    {
      var l := Level(levels, segs[s].stream);
      ghost var was, qs := segs, queues;
      assert Holds(levels, segs, At(queues, WaitQ(l)), WaitQ(l));
      PushOne(s, valid);
      DirtyUpdate(was, s, segs[s], |was|);
      if thr[l] <= waitNr[l] {
        assert At(queues, WaitQ(l))[0] == At(qs, WaitQ(l))[0];
        assert At(qs, WaitQ(l))[0] in At(qs, WaitQ(l));
        PopOne(l);
      }
    }

    // ---------------------------------------------------------------- steps

    /** A written segment comes to the collector. */
    method Destage(s: nat)
      requires Valid() && s < |segs| && segs[s].state.Writing?
      modifies this
      ensures Valid() && Others(old(segs), s)
      ensures var v := old(segs)[s].valid;
              if v == 0 then segs[s] == Freed(old(segs)[s], old(queues))
              else if v == segSize then segs[s] == old(segs)[s].(state := Binned, priv := binNr)
              else segs[s] == old(segs)[s].(state := Waiting, priv := XNP_BIN_ID)
      ensures validSegNr == old(validSegNr) + if old(segs)[s].valid == 0 then 0 else 1
    {
      validSegNr := validSegNr + 1;
      var v := segs[s].valid;
      if v == 0 {
        FreeWritten(s);
        validSegNr := validSegNr - 1;
      } else if v == segSize {
        BinWritten(s);
      } else {
        PushPop(s, v);
      }
    }

    /** A segment without valid grains is freed as it is destaged. */
    method FreeWritten(s: nat)
      requires Placed() && Counted() && Bounded() && s < |segs| && segs[s].state.Writing? && segs[s].valid == 0
      modifies this`segs, this`queues
      ensures Placed() && Counted() && Bounded() && Others(old(segs), s)
      ensures segs[s] == Freed(old(segs)[s], old(queues)) && DirtyNr(segs, |segs|) == old(DirtyNr(segs, |segs|))
    {
      ghost var was, qs := segs, queues;
      PutFree(s);
      DirtyUpdate(was, s, segs[s], |was|);
      forall l ensures At(queues, WaitQ(l)) == At(qs, WaitQ(l)) {
        MovedAt(levels, was, qs, s, segs[s], WaitQ(l));
      }
    }

    /** A fully valid segment is binned as it is destaged. */
    method BinWritten(s: nat)
      requires Placed() && Counted() && Bounded() && s < |segs| && segs[s].state.Writing? && segs[s].valid == segSize
      requires validSegNr == DirtyNr(segs, |segs|) + 1
      modifies this`segs, this`queues
      ensures Valid() && segs == old(segs)[s := old(segs)[s].(state := Binned, priv := binNr)]
    {
      var t := segs[s].(state := Binned, priv := binNr);
      ghost var was, qs := segs, queues;
      DirtyUpdate(segs, s, t, |segs|);
      Move(s, t);
      forall l ensures At(queues, WaitQ(l)) == At(qs, WaitQ(l)) {
        MovedAt(levels, was, qs, s, t, WaitQ(l));
      }
    }

    /** Below this many valid grains a waiting segment need not wait any longer. */
    function CherryPickThreshold(): (r: nat)
      ensures 10 * r <= segSize < 10 * (r + 1)
    {
      segSize * CHERRY_PICK_PERCENT / 100
    }

    /** Grains of a segment in use are invalidated. */
    method Invalidate(s: nat, n: nat)
      requires Valid() && s < |segs| && n <= segs[s].valid && !segs[s].state.Free? && !segs[s].state.FreeRel?
      modifies this
      ensures Valid() && Others(old(segs), s)
      ensures var o, v := old(segs)[s], old(segs)[s].valid - n;
              if o.state.Binned? then
                if v == 0 then segs[s] == Freed(o, old(queues))
                else if v == segSize - 1 then segs[s] == o.(valid := v, state := Waiting, priv := XNP_BIN_ID)
                else segs[s] == o.(valid := v, priv := BinOf(segSize, binNr, v))
              else if o.state.Waiting? && v < CherryPickThreshold() then
                if v == 0 then segs[s] == Freed(o, old(queues))
                else segs[s] == o.(valid := v, state := Binned, priv := BinOf(segSize, binNr, v))
              else segs[s] == o.(valid := v)
    {
      var v := segs[s].valid - n;
      var l := Level(levels, segs[s].stream);
      assert Holds(levels, segs, At(queues, WaitQ(l)), WaitQ(l));
      if v < CherryPickThreshold() && segs[s].priv == XNP_BIN_ID && s in At(queues, WaitQ(l)) {
        CherryPick(s, v);
      } else if !segs[s].state.Binned? {
        SetValid(s, v);
      } else if v == 0 {
        RecycleBinned(s);
      } else if v == segSize - 1 {
        PushPop(s, v);
      } else {
        Rebin(s, v);
      }
    }

    /** The collector's own relocations invalidate grains of the segment it works on, and a failed
        one those it had reserved elsewhere. */
    method SetValid(s: nat, v: nat)
      requires Valid() && s < |segs| && v <= segs[s].valid
      requires segs[s].state.Writing? || segs[s].state.Waiting? || segs[s].state.Taken?
      modifies this`segs
      ensures Valid() && segs == old(segs)[s := old(segs)[s].(valid := v)]
    {
      DirtyUpdate(segs, s, segs[s].(valid := v), |segs|);
      Adjust(s, segs[s].(valid := v));
    }

    /** The last valid grains of a binned segment are gone: it is freed without relocation. */
    method RecycleBinned(s: nat)
      requires Valid() && s < |segs| && segs[s].state.Binned?
      modifies this
      ensures Valid() && Others(old(segs), s) && segs[s] == Freed(old(segs)[s], old(queues))
    {
      ghost var was, qs := segs, queues;
      var t := segs[s].(valid := 0, state := Taken);
      DirtyUpdate(segs, s, t, |segs|);
      Move(s, t);
      MovedAt(levels, was, qs, s, t, ReserveQ(t.home));
      forall l ensures At(queues, WaitQ(l)) == At(qs, WaitQ(l)) {
        MovedAt(levels, was, qs, s, t, WaitQ(l));
      }
      Recycle(s);
    }

    /** A waiting segment is taken from the middle of its delay queue. */
    method Leave(s: nat, valid: nat)
      requires Valid() && s < |segs| && segs[s].state.Waiting? && valid < segSize
      modifies this`segs, this`queues, this`waitNr
      ensures Valid() && segs == old(segs)[s := old(segs)[s].(valid := valid, state := Taken)]
      ensures At(queues, WaitQ(Level(levels, segs[s].stream))) ==
          Remove(old(At(queues, WaitQ(Level(levels, segs[s].stream)))), s)
      ensures At(queues, ReserveQ(segs[s].home)) == old(At(queues, ReserveQ(segs[s].home)))
    {
      var l := Level(levels, segs[s].stream);
      var t := segs[s].(valid := valid, state := Taken);
      ghost var was, qs := segs, queues;
      assert Holds(levels, segs, At(queues, WaitQ(l)), WaitQ(l));
      RemoveLength(At(queues, WaitQ(l)), s);
      DirtyUpdate(segs, s, t, |segs|);
      Move(s, t);
      MovedAt(levels, was, qs, s, t, ReserveQ(t.home));
      waitNr := waitNr[l := waitNr[l] - 1];
      forall m ensures At(queues, WaitQ(m)) == if m == l then Remove(At(qs, WaitQ(m)), s) else At(qs, WaitQ(m)) {
        MovedAt(levels, was, qs, s, t, WaitQ(m));
      }
    }

    method CherryPick(s: nat, v: nat)
      requires Valid() && s < |segs| && segs[s].state.Waiting? && v < segSize
      modifies this
      ensures Valid() && Others(old(segs), s)
      ensures if v == 0 then segs[s] == Freed(old(segs)[s], old(queues))
              else segs[s] == old(segs)[s].(valid := v, state := Binned, priv := BinOf(segSize, binNr, v))
    {
      Leave(s, v);
      if v == 0 {
        Recycle(s);
      } else {
        Rebin(s, v);
      }
    }

    /** The first nonempty bin, the full segments' bin aside. */
    method FindBin() returns (b: nat)
      requires Sizes()
      ensures b <= binNr && (b < binNr ==> At(queues, Place.Bin(b)) != [])
      ensures forall c: nat :: c < b ==> At(queues, Place.Bin(c)) == []
    {
      b := 0;
      while b < binNr && At(queues, Place.Bin(b)) == []
        invariant b <= binNr
        invariant forall c: nat :: c < b ==> At(queues, Place.Bin(c)) == []
      {
        b := b + 1;
      }
    }

    /** The collector takes a victim, the oldest of the first bin that has one. It is never fully
        valid, and exceeds no binned segment by a bin's share of the segment size. With nothing binned but full
        segments, the oldest waiting segment is binned instead. */
    method Select() returns (r: Option<nat>, ghost popped: nat)
      requires Valid()
      modifies this
      ensures Valid() && |segs| == |old(segs)|
      ensures r.Some? ==>
        && r.value < |segs| && old(segs)[r.value].state.Binned?
        && segs == old(segs)[r.value := old(segs)[r.value].(state := Taken)] && segs[r.value].valid < segSize
        && forall i {:trigger old(segs)[i]} :: 0 <= i < |segs| && old(segs)[i].state.Binned? ==>
             (segs[r.value].valid - old(segs)[i].valid) * binNr < segSize
      ensures r.Some? ==>
        && var bin := old(segs)[r.value].priv;
        && old(At(queues, Place.Bin(bin))) != [] && r.value == old(At(queues, Place.Bin(bin)))[0]
        && forall c: nat :: c < bin ==> old(At(queues, Place.Bin(c))) == []
      ensures r.None? ==>
        && (forall i {:trigger old(segs)[i]} :: 0 <= i < |segs| && old(segs)[i].state.Binned? ==>
              old(segs)[i].valid == segSize)
        && Others(old(segs), |old(segs)|)
        && popped <= levels && (forall m :: 0 <= m < popped ==> old(At(queues, WaitQ(m))) == [])
        && (popped < levels ==>
              && old(At(queues, WaitQ(popped))) != []
              && At(queues, WaitQ(popped)) == old(At(queues, WaitQ(popped)))[1..])
    {
      var b := FindBin();
      if b == binNr {
        NothingBinned(b);
        popped := TryPopOne();
        return None, popped;
      }
      var s := At(queues, Place.Bin(b))[0];
      VictimIsGood(b, s);
      TakeBinned(s);
      r, popped := Some(s), 0;
    }

    lemma NothingBinned(b: nat)
      requires Placed() && b == binNr && forall c: nat :: c < b ==> At(queues, Place.Bin(c)) == []
      ensures forall i {:trigger segs[i]} :: 0 <= i < |segs| && segs[i].state.Binned? ==> segs[i].valid == segSize
    {
      forall i | 0 <= i < |segs| && segs[i].state.Binned? ensures segs[i].valid == segSize {
        BinOfBounds(segSize, binNr, segs[i].valid);
        assert Holds(levels, segs, At(queues, Place.Bin(segs[i].priv)), Place.Bin(segs[i].priv));
      }
    }

    lemma VictimIsGood(b: nat, s: nat)
      requires Placed() && b < binNr && At(queues, Place.Bin(b)) != [] && s == At(queues, Place.Bin(b))[0]
      requires forall c: nat :: c < b ==> At(queues, Place.Bin(c)) == []
      ensures s < |segs| && segs[s].state.Binned? && segs[s].valid < segSize
      ensures forall i {:trigger segs[i]} :: 0 <= i < |segs| && segs[i].state.Binned? ==>
                (segs[s].valid - segs[i].valid) * binNr < segSize
      ensures segs[s].priv == b
    {
      assert Holds(levels, segs, At(queues, Place.Bin(b)), Place.Bin(b)) && s in At(queues, Place.Bin(b));
      BinOfBounds(segSize, binNr, segs[s].valid);
      forall i | 0 <= i < |segs| && segs[i].state.Binned?
        ensures (segs[s].valid - segs[i].valid) * binNr < segSize
      {
        assert Holds(levels, segs, At(queues, Place.Bin(segs[i].priv)), Place.Bin(segs[i].priv));
        BinOfMonotone(segSize, binNr, segs[s].valid, segs[i].valid);
      }
    }

    method TakeBinned(s: nat)
      requires Valid() && s < |segs| && segs[s].state.Binned? && segs[s].valid < segSize
      modifies this`segs, this`queues
      ensures Valid() && segs == old(segs)[s := old(segs)[s].(state := Taken)]
    {
      ghost var was, qs := segs, queues;
      var t := segs[s].(state := Taken);
      DirtyUpdate(segs, s, t, |segs|);
      Move(s, t);
      forall l ensures At(queues, WaitQ(l)) == At(qs, WaitQ(l)) {
        MovedAt(levels, was, qs, s, t, WaitQ(l));
      }
    }

    /** The oldest segment of the first delay queue that has one is binned. */
    method TryPopOne() returns (l: nat)
      requires Valid()
      modifies this
      ensures Valid() && Others(old(segs), |old(segs)|) && (l == levels ==> segs == old(segs))
      ensures l <= levels && forall m :: 0 <= m < l ==> old(At(queues, WaitQ(m))) == []
      ensures l < levels ==>
        old(At(queues, WaitQ(l))) != [] && At(queues, WaitQ(l)) == old(At(queues, WaitQ(l)))[1..]
    {
      l := 0;
      while l < levels && At(queues, WaitQ(l)) == []
        invariant l <= levels && forall m :: 0 <= m < l ==> At(queues, WaitQ(m)) == []
      {
        l := l + 1;
      }
      if l < levels {
        PopOne(l);
      }
    }

    /** The relocation of a segment succeeded: nothing in it is valid, and it is freed. */
    method Relocated(s: nat)
      requires Valid() && s < |segs| && segs[s].state.Taken? && segs[s].valid == 0
      modifies this
      ensures Valid() && Others(old(segs), s) && segs[s] == Freed(old(segs)[s], old(queues))
      ensures validSegNr == old(validSegNr) - 1
    {
      Recycle(s);
    }

    /** The relocation failed: the segment goes back to the bin of what is left in it. */
    method RelocationFailed(s: nat)
      requires Valid() && s < |segs| && segs[s].state.Taken?
      modifies this
      ensures Valid()
      ensures segs == old(segs)[s := old(segs)[s].(state := Binned, priv := BinOf(segSize, binNr, old(segs)[s].valid))]
    {
      Rebin(s, segs[s].valid);
    }
  }
}
