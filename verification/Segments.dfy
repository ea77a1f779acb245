/** Where segments are: the places of the allocator and of the garbage collector, as one family
    of queues (salsa/src/sto-ctlr/scm-seg-alloc.c, salsa/src/gc/gc-nbin.c). */
module Segments {
  import opened Arith

  /** State field of a segment; `Taken` is the collector's, whose code calls it invalid. */
  datatype State = Free | FreeRel | Writing | Binned | Waiting | Taken

  /** valid grains, stream, state, private field (the bin), and the queue it is returned to. */
  datatype Seg = Seg(valid: nat, stream: nat, state: State, priv: nat, home: nat)

  datatype Place = FreeQ(q: nat) | ReserveQ(q: nat) | Bin(b: nat) | WaitQ(level: nat) | Collector | Writer

  const XNP_BIN_ID: nat := 253

  function Level(levels: nat, stream: nat): (l: nat)
    ensures 0 < levels ==> l < levels && l <= stream && (l == stream || l == levels - 1)
  {
    if stream < levels then stream else if levels == 0 then 0 else levels - 1
  }

  /** The queue in which a segment's own fields say it is. */
  function PlaceOf(levels: nat, s: Seg): Place {
    match s.state
    case Free => FreeQ(s.home)
    case FreeRel => ReserveQ(s.home)
    case Writing => Writer
    case Binned => Bin(s.priv)
    case Waiting => WaitQ(Level(levels, s.stream))
    case Taken => Collector
  }

  type Queues = map<Place, seq<nat>>

  function At(qs: Queues, p: Place): seq<nat> { if p in qs then qs[p] else [] }

  ghost predicate NoDup(q: seq<nat>) { forall i, j :: 0 <= i < j < |q| ==> q[i] != q[j] }

  function IndexOf(q: seq<nat>, x: nat, from: nat): (i: nat)
    requires from <= |q| && x in q[from..]
    ensures from <= i < |q| && q[i] == x
    decreases |q| - from
  {
    if q[from] == x then from else IndexOf(q, x, from + 1)
  }

  /** `q` without `x`, the others in order. */
  function Remove(q: seq<nat>, x: nat): seq<nat> {
    if x in q then
      assert q[0..] == q;
      var i := IndexOf(q, x, 0); q[..i] + q[i + 1..]
    else q
  }

  lemma RemoveMembers(q: seq<nat>, x: nat)
    requires NoDup(q)
    ensures NoDup(Remove(q, x)) && forall y :: y in Remove(q, x) <==> y in q && y != x
  {
    if x in q {
      assert q[0..] == q;
      var i := IndexOf(q, x, 0);
      var r := q[..i] + q[i + 1..];
      assert forall j :: 0 <= j < |r| ==> r[j] == if j < i then q[j] else q[j + 1];
      forall y | y in q && y != x ensures y in r {
        var j :| 0 <= j < |q| && q[j] == y;
        assert r[if j < i then j else j - 1] == y;
      }
    }
  }

  lemma RemoveLength(q: seq<nat>, x: nat)
    requires x in q
    ensures |Remove(q, x)| == |q| - 1
  {
  }

  /** Removing the first element leaves the rest in order. */
  lemma RemoveFirst(q: seq<nat>)
    requires q != []
    ensures Remove(q, q[0]) == q[1..]
  {
    assert q[0..] == q;
    assert IndexOf(q, q[0], 0) == 0;
  }

  lemma NoDupPush(q: seq<nat>, x: nat)
    requires NoDup(q) && x !in q
    ensures NoDup(q + [x])
  {
    assert forall i :: 0 <= i < |q| ==> q[i] in q;
  }

  /** A queue holds exactly the segments whose fields place them there, each once. */
  ghost predicate Holds(levels: nat, segs: seq<Seg>, q: seq<nat>, p: Place) {
    && NoDup(q)
    && forall s: nat :: s in q <==> s < |segs| && PlaceOf(levels, segs[s]) == p
  }

  /** Every segment is in exactly one queue, the one its fields name. */
  ghost predicate Partition(levels: nat, segs: seq<Seg>, qs: Queues) {
    forall p {:trigger At(qs, p)} :: Holds(levels, segs, At(qs, p), p)
  }

  /** Segment `s` becomes `t` and moves to the end of the queue that `t` names. */
  function Moved(levels: nat, segs: seq<Seg>, qs: Queues, s: nat, t: Seg): Queues
    requires s < |segs|
  {
    var from, to := PlaceOf(levels, segs[s]), PlaceOf(levels, t);
    if from == to then qs else qs[from := Remove(At(qs, from), s)][to := At(qs, to) + [s]]
  }

  lemma MovedHolds(levels: nat, segs: seq<Seg>, qs: Queues, s: nat, t: Seg, p: Place)
    requires s < |segs| && Partition(levels, segs, qs)
    ensures Holds(levels, segs[s := t], At(Moved(levels, segs, qs, s, t), p), p)
  {
    var from, to := PlaceOf(levels, segs[s]), PlaceOf(levels, t);
    assert Holds(levels, segs, At(qs, p), p);
    assert Holds(levels, segs, At(qs, from), from) && Holds(levels, segs, At(qs, to), to);
    RemoveMembers(At(qs, from), s);
    if from != to { NoDupPush(At(qs, to), s); }
  }

  lemma MovedKeeps(levels: nat, segs: seq<Seg>, qs: Queues, s: nat, t: Seg)
    requires s < |segs| && Partition(levels, segs, qs)
    ensures Partition(levels, segs[s := t], Moved(levels, segs, qs, s, t))
  {
    forall p ensures Holds(levels, segs[s := t], At(Moved(levels, segs, qs, s, t), p), p) {
      MovedHolds(levels, segs, qs, s, t, p);
    }
  }

  lemma MovedAt(levels: nat, segs: seq<Seg>, qs: Queues, s: nat, t: Seg, p: Place)
    requires s < |segs| && PlaceOf(levels, segs[s]) != PlaceOf(levels, t)
    ensures At(Moved(levels, segs, qs, s, t), p) ==
            if p == PlaceOf(levels, t) then At(qs, p) + [s]
            else if p == PlaceOf(levels, segs[s]) then Remove(At(qs, p), s)
            else At(qs, p)
  {
  }

  /** The first of a delay queue leaves it. */
  lemma PoppedAt(levels: nat, segs: seq<Seg>, qs: Queues, p: nat, t: Seg, l: nat, m: nat)
    requires p < |segs| && PlaceOf(levels, segs[p]) == WaitQ(l) && !PlaceOf(levels, t).WaitQ?
    requires At(qs, WaitQ(l)) != [] && At(qs, WaitQ(l))[0] == p
    ensures At(Moved(levels, segs, qs, p, t), WaitQ(m)) == if m == l then At(qs, WaitQ(m))[1..] else At(qs, WaitQ(m))
  {
    MovedAt(levels, segs, qs, p, t, WaitQ(m));
    RemoveFirst(At(qs, WaitQ(l)));
  }

  /** A new segment joins the queue its fields name. */
  lemma AddedKeeps(levels: nat, segs: seq<Seg>, qs: Queues, t: Seg)
    requires Partition(levels, segs, qs)
    ensures var p := PlaceOf(levels, t); Partition(levels, segs + [t], qs[p := At(qs, p) + [|segs|]])
  {
    var to := PlaceOf(levels, t);
    var rs := qs[to := At(qs, to) + [|segs|]];
    assert Holds(levels, segs, At(qs, to), to);
    NoDupPush(At(qs, to), |segs|);
    forall p ensures Holds(levels, segs + [t], At(rs, p), p) {
      assert Holds(levels, segs, At(qs, p), p);
    }
  }

  /** How many segments are with the garbage collector: binned, waiting, or being relocated. */
  function Dirty(s: Seg): nat { if s.state.Binned? || s.state.Waiting? || s.state.Taken? then 1 else 0 }

  function DirtyNr(segs: seq<Seg>, n: nat): nat
    requires n <= |segs|
  {
    if n == 0 then 0 else DirtyNr(segs, n - 1) + Dirty(segs[n - 1])
  }

  lemma {:induction false} DirtyUpdate(segs: seq<Seg>, s: nat, t: Seg, n: nat)
    requires s < |segs| && n <= |segs|
    ensures DirtyNr(segs[s := t], n) == DirtyNr(segs, n) + if s < n then Dirty(t) - Dirty(segs[s]) else 0
  {
    if n > 0 {
      DirtyUpdate(segs, s, t, n - 1);
    }
  }

  lemma {:induction false} DirtyPrefix(segs: seq<Seg>, more: seq<Seg>, n: nat)
    requires n <= |segs|
    ensures DirtyNr(segs + more, n) == DirtyNr(segs, n)
  {
    if n > 0 {
      DirtyPrefix(segs, more, n - 1);
    }
  }

  lemma {:induction false} DirtyBound(segs: seq<Seg>, s: nat, n: nat)
    requires s < n <= |segs|
    ensures Dirty(segs[s]) <= DirtyNr(segs, n)
  {
    if s < n - 1 {
      DirtyBound(segs, s, n - 1);
    }
  }

  // ---------------------------------------------------------------- bins

  /** Valid grains per bin: the segment size over the number of bins, rounded up. */
  function BinDiv(segSize: nat, binNr: nat): nat
    requires 0 < binNr <= segSize
  {
    if segSize % binNr == 0 then segSize / binNr else segSize / binNr + 1
  }

  lemma BinDivBounds(segSize: nat, binNr: nat)
    requires 0 < binNr <= segSize
    ensures 0 < BinDiv(segSize, binNr) && segSize <= BinDiv(segSize, binNr) * binNr
    ensures (BinDiv(segSize, binNr) - 1) * binNr < segSize
  {
    var q := segSize / binNr;
    Divided(segSize, binNr);
    assert (q + 1) * binNr == q * binNr + binNr && (q - 1) * binNr == q * binNr - binNr;
  }

  lemma BinDivPositive(segSize: nat, binNr: nat)
    requires 0 < binNr <= segSize
    ensures 0 < BinDiv(segSize, binNr)
  {
    BinDivBounds(segSize, binNr);
  }

  /** The bin of a segment: full ones have a bin of their own behind the others. */
  function BinOf(segSize: nat, binNr: nat, valid: nat): nat
    requires 0 < binNr <= segSize
  {
    BinDivPositive(segSize, binNr);
    if valid == segSize then binNr else Div(valid, BinDiv(segSize, binNr))
  }

  function Div(a: nat, d: nat): nat
    requires 0 < d
  {
    a / d
  }

  /** Full segments alone are in the last bin. The others hold `BinDiv` counts of valid grains each, a
      share of the segment size rounded up. */
  lemma BinOfBounds(segSize: nat, binNr: nat, valid: nat)
    requires 0 < binNr <= segSize && valid <= segSize
    ensures var b, d := BinOf(segSize, binNr, valid), BinDiv(segSize, binNr);
            && b <= binNr && (b == binNr <==> valid == segSize)
            && (b < binNr ==> b * d <= valid < b * d + d && b * segSize <= valid * binNr)
            && (b < binNr ==> valid * binNr < (b + 1) * (segSize + binNr))
  {
    BinDivBounds(segSize, binNr);
    if valid < segSize {
      QuotientBounds(valid, BinDiv(segSize, binNr), segSize, binNr);
      InShares(BinOf(segSize, binNr, valid), BinDiv(segSize, binNr), segSize, binNr, valid);
    }
  }

  lemma InShares(b: nat, d: nat, segSize: nat, binNr: nat, valid: nat)
    requires 0 < binNr && b * d <= valid < b * d + d && segSize <= d * binNr && (d - 1) * binNr < segSize
    ensures b * segSize <= valid * binNr < (b + 1) * (segSize + binNr)
  {
    MulMonotone(b * d, valid, binNr);
    MulMonotone(valid + 1, b * d + d, binNr);
    Scaled(b, segSize, d * binNr);
    Scaled(b + 1, d * binNr, segSize + binNr);
    assert (d - 1) * binNr == d * binNr - binNr;
    assert b * (d * binNr) == (b * d) * binNr && (b + 1) * (d * binNr) == (b * d + d) * binNr;
    assert (valid + 1) * binNr == valid * binNr + binNr;
  }

  lemma Scaled(a: nat, x: int, y: int)
    requires x <= y
    ensures a * x <= a * y
  {
    MulMonotone(0, a, y - x);
    assert a * (y - x) == a * y - a * x;
  }

  lemma QuotientBounds(valid: nat, d: nat, segSize: nat, binNr: nat)
    requires 0 < d && valid < segSize <= d * binNr
    ensures Div(valid, d) < binNr && Div(valid, d) * d <= valid < Div(valid, d) * d + d
  {
    var b := Div(valid, d);
    Divided(valid, d);
    if binNr <= b {
      MulMonotone(binNr, b, d);
    }
  }

  lemma BinOfMonotone(segSize: nat, binNr: nat, v: nat, w: nat)
    requires 0 < binNr <= segSize && v <= segSize && w <= segSize
    requires BinOf(segSize, binNr, v) <= BinOf(segSize, binNr, w) && v < segSize
    ensures (v - w) * binNr < segSize
  {
    var d := BinDiv(segSize, binNr);
    BinDivBounds(segSize, binNr);
    BinOfBounds(segSize, binNr, v);
    BinOfBounds(segSize, binNr, w);
    MulMonotone(BinOf(segSize, binNr, v), BinOf(segSize, binNr, w), d);
    MulMonotone(v - w, d - 1, binNr);
  }
}
