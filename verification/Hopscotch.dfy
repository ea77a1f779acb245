/** The hopscotch hash table that maps key fingerprints to extents
    (src/include/uDepot/lsa/udepot-map.hh).

    A slot is a packed word: offset from the home bucket, key tag, size in grains, extent
    address. A key's fingerprint is its tag together with its home slot, so a slot's
    fingerprint follows from its contents and its position. A size of zero marks a
    tombstone.

    The table is a class over an array with the source's loops. Each loop is proved
    against a predicate or a function on the array's contents, and what the table
    promises is proved about those. */
module Hopscotch {
  import opened Arith
  import opened Extents

  const BUCKET: nat := 32
  const DISPLACE: nat := 64
  const MAX_SIZE: nat := 2047

  datatype Entry = Unused | Used(off: nat, tag: nat, size: nat, pba: Addr)
  datatype Fp = Fp(tag: nat, home: nat)
  datatype Item = Item(tag: nat, home: int, size: nat, pba: Addr)

  /** Outcome of a lookup by fingerprint: a matching slot, a slot to insert into, or no room. */
  datatype Lookup = Found(i: nat) | NoData(i: nat) | NoSpace

  predicate Live(e: Entry) { e.Used? && e.size > 0 }
  predicate Free(e: Entry) { e.Unused? || e.size == 0 }

  /** Every occupied slot lies in the bucket of its home slot. */
  predicate WellFormed(t: seq<Entry>) {
    forall i :: 0 <= i < |t| && t[i].Used? ==> t[i].off < BUCKET && t[i].off <= i
  }

  /** Every live slot does. */
  predicate Lively(t: seq<Entry>) {
    forall i :: 0 <= i < |t| && Live(t[i]) ==> t[i].off < BUCKET && t[i].off <= i
  }

  predicate NoTombstones(t: seq<Entry>) {
    forall i :: 0 <= i < |t| && t[i].Used? ==> t[i].size > 0
  }

  predicate InTable(t: seq<Entry>, home: nat) { home + BUCKET <= |t| }

  predicate Matches(t: seq<Entry>, fp: Fp, i: nat) {
    i < |t| && fp.home <= i < fp.home + BUCKET && Live(t[i]) && t[i].tag == fp.tag && t[i].off == i - fp.home
  }

  /** No unused slot lies between a used slot and its home. */
  ghost predicate NoHole(t: seq<Entry>) {
    forall i, j :: 0 <= i < |t| && t[i].Used? && i - t[i].off <= j < i && 0 <= j ==> t[j].Used?
  }

  /** As NoHole, for every slot except `f`. */
  ghost predicate NoHoleBut(t: seq<Entry>, f: nat) {
    forall i, j :: 0 <= i < |t| && t[i].Used? && i - t[i].off <= j < i && 0 <= j && j != f ==> t[j].Used?
  }

  /** Slot `i` is behind the hole at `f`: the scan from its home meets `f` first. */
  predicate Behind(t: seq<Entry>, i: nat, f: nat) {
    i < |t| && t[i].Used? && i - t[i].off <= f < i && t[f].Unused?
  }

  function Holds(e: Entry, i: nat, x: Item): nat {
    if e.Used? && Item(e.tag, i - e.off, e.size, e.pba) == x then 1 else 0
  }

  /** How many of the first `n` slots hold `x`. */
  function CountUpTo(t: seq<Entry>, n: nat, x: Item): nat
    requires n <= |t|
  {
    if n == 0 then 0 else CountUpTo(t, n - 1, x) + Holds(t[n - 1], n - 1, x)
  }

  /** What the table holds, independent of which slot holds what: the multiplicity of an item. */
  function Count(t: seq<Entry>, x: Item): nat { CountUpTo(t, |t|, x) }

  /** Both tables hold the same items, with the same multiplicities. */
  ghost predicate SameContents(t: seq<Entry>, u: seq<Entry>) {
    forall x :: Count(t, x) == Count(u, x)
  }

  /** Both tables hold the same live items, with the same multiplicities. */
  ghost predicate SameLive(t: seq<Entry>, u: seq<Entry>) {
    forall x: Item {:trigger Count(u, x)} :: 0 < x.size ==> Count(t, x) == Count(u, x)
  }

  lemma {:induction false} CountUpdateUpTo(t: seq<Entry>, i: nat, e: Entry, n: nat, x: Item)
    requires i < |t| && n <= |t|
    ensures CountUpTo(t[i := e], n, x)
         == CountUpTo(t, n, x) + (if i < n then Holds(e, i, x) - Holds(t[i], i, x) else 0)
  {
    if n > 0 {
      CountUpdateUpTo(t, i, e, n - 1, x);
    }
  }

  lemma CountUpdate(t: seq<Entry>, i: nat, e: Entry, x: Item)
    requires i < |t|
    ensures Count(t[i := e], x) == Count(t, x) + Holds(e, i, x) - Holds(t[i], i, x)
  {
    CountUpdateUpTo(t, i, e, |t|, x);
  }

  // ---------------------------------------------------------------- lookups

  /** What a lookup by fingerprint reports: the first match before the first unused slot,
      else the slot to insert into, else that the bucket is full. */
  ghost predicate IsLookup(t: seq<Entry>, fp: Fp, r: Lookup) {
    && InTable(t, fp.home)
    && match r
       case Found(i) =>
         && Matches(t, fp, i)
         && forall j :: fp.home <= j < i ==> t[j].Used? && !Matches(t, fp, j)
       case NoData(i) =>
         && Missing(t, fp)
         && fp.home <= i < fp.home + BUCKET
         && Free(t[i])
         && (forall j :: fp.home <= j < i ==> t[j].Used?)
         && (t[i].Used? ==> forall j :: i < j < fp.home + BUCKET ==> Live(t[j]))
       case NoSpace =>
         && Missing(t, fp)
         && forall j :: fp.home <= j < fp.home + BUCKET ==> Live(t[j])
  }

  /** No match precedes the first unused slot of the bucket. */
  ghost predicate Missing(t: seq<Entry>, fp: Fp)
    requires InTable(t, fp.home)
  {
    forall j :: fp.home <= j < fp.home + BUCKET && Matches(t, fp, j) ==>
      exists k :: fp.home <= k < j && t[k].Unused?
  }

  /** Without holes a lookup answers exactly: it misses only fingerprints the bucket does not hold. */
  lemma LookupComplete(t: seq<Entry>, fp: Fp, r: Lookup)
    requires NoHole(t) && IsLookup(t, fp, r)
    ensures r.Found? <==> exists i :: Matches(t, fp, i)
  {
  }

  /** A hole makes the entries behind it invisible: the lookup never returns them. */
  lemma HoleHides(t: seq<Entry>, i: nat, f: nat, r: Lookup)
    requires WellFormed(t) && Behind(t, i, f)
    requires IsLookup(t, Fp(t[i].tag, i - t[i].off), r)
    ensures r != Found(i)
    ensures r.Found? ==> r.i < f
  {
  }

  /** The first slot in `[i, last)` that can take an entry, or `last`. */
  function FreeFrom(t: seq<Entry>, i: nat, last: nat): (r: nat)
    requires i <= last <= |t|
    ensures i <= r <= last
    ensures forall j :: i <= j < r ==> Live(t[j])
    ensures r < last ==> Free(t[r])
    decreases last - i
  {
    if i == last || Free(t[i]) then i else FreeFrom(t, i + 1, last)
  }

  // ---------------------------------------------------------------- displacement

  /** What a displacement attempt leaves: the table and, on success, the slot it freed. */
  datatype Shift = Shift(t: seq<Entry>, slot: Lookup)

  predicate AllUsed(t: seq<Entry>, lo: nat, hi: nat) {
    hi <= |t| && forall j :: lo <= j < hi ==> t[j].Used?
  }

  predicate AllLive(t: seq<Entry>, lo: nat, hi: nat) {
    hi <= |t| && forall j :: lo <= j < hi ==> Live(t[j])
  }

  /** The entry of slot `p` and the free slot `v` of its own bucket are exchanged. A deleted entry
      that was in `v` keeps its offset. */
  function Move(t: seq<Entry>, p: nat, v: nat): seq<Entry>
    requires p < |t| && v < |t| && t[p].Used? && t[p].off <= p && p - t[p].off <= v
  {
    t[p := t[v]][v := t[p].(off := v - (p - t[p].off))]
  }

  /** The displacement loop stands at candidate `p`, for the free slot `f`. */
  ghost predicate Ready(t: seq<Entry>, first: nat, p: nat, f: nat) {
    Lively(t) && first <= p <= f && f + BUCKET <= |t| && AllLive(t, first, f)
  }

  /** One round of the loop: it ends, or goes on. */
  datatype Round = Ends(r: Shift) | GoesOn(t: seq<Entry>, p: nat, f: nat)

  function RoundOf(t: seq<Entry>, first: nat, p: nat, f: nat): (x: Round)
    requires Ready(t, first, p, f)
    ensures x.GoesOn? ==> Ready(x.t, first, x.p, x.f) && |x.t| == |t| && (x.f < f || (x.f == f && p < x.p))
  {
    if p == f then Ends(Shift(t, NoSpace))
    else
      var home := p - t[p].off;
      var v := FreeFrom(t, home, home + BUCKET);
      if v == home + BUCKET then GoesOn(t, p + 1, f)
      else
        var u := Move(t, p, v);
        if p - first < BUCKET then Ends(Shift(u, NoData(p)))
        else GoesOn(u, Max(first, p - BUCKET + 1), p)
  }

  /** Displacement backwards. */
  function ShiftFrom(t: seq<Entry>, first: nat, p: nat, f: nat): Shift
    requires Ready(t, first, p, f)
    decreases f, f - p
  {
    match RoundOf(t, first, p, f)
    case Ends(r) => r
    case GoesOn(u, q, h) => ShiftFrom(u, first, q, h)
  }

  function ShiftLast(n: nat, home: nat): int { Min(home + BUCKET * DISPLACE, n - BUCKET - 1) }

  /** try_shift on a full bucket: find a free slot beyond it and displace it towards `home`. */
  function TryShift(t: seq<Entry>, home: nat): Shift
    requires Lively(t) && AllLive(t, home, home + BUCKET)
  {
    var last := ShiftLast(|t|, home);
    if last <= home + BUCKET then Shift(t, NoSpace)
    else
      var f := FreeFrom(t, home + BUCKET, last);
      if f == last then Shift(t, NoSpace) else ShiftFrom(t, home, f - BUCKET + 1, f)
  }

  /** What holds of tables without deleted entries. */
  ghost predicate Undeleted(t: seq<Entry>) { WellFormed(t) && NoTombstones(t) }

  lemma MoveKeeps(t: seq<Entry>, p: nat, v: nat)
    requires Lively(t) && p < |t| && v < |t| && Live(t[p]) && Free(t[v]) && p - t[p].off <= v < p - t[p].off + BUCKET
    ensures var u := Move(t, p, v);
            && |u| == |t| && Lively(u) && SameLive(t, u)
            && (Undeleted(t) ==> Undeleted(u) && SameContents(t, u))
  {
    var e := t[p].(off := v - (p - t[p].off));
    forall x: Item
      ensures 0 < x.size || NoTombstones(t) ==> Count(t, x) == Count(Move(t, p, v), x)
    {
      CountUpdate(t, p, t[v], x);
      CountUpdate(t[p := t[v]], v, e, x);
    }
  }

  /** What a displacement that starts from `t` may leave: the same live entries, each in its
      bucket, and, on success, a free slot of the bucket with no free slot before it. Without
      deleted entries, the very same entries. */
  ghost predicate Displaced(t: seq<Entry>, first: nat, r: Shift) {
    && |r.t| == |t| && Lively(r.t) && SameLive(t, r.t) && !r.slot.Found?
    && (Undeleted(t) ==> Undeleted(r.t) && SameContents(t, r.t))
    && (r.slot.NoData? ==>
          && first <= r.slot.i < first + BUCKET && r.slot.i < |r.t| && Free(r.t[r.slot.i])
          && AllLive(r.t, first, r.slot.i))
  }

  /** The table after a round. */
  function TableOf(x: Round): seq<Entry> { if x.Ends? then x.r.t else x.t }

  lemma RoundKeeps(t: seq<Entry>, first: nat, p: nat, f: nat)
    requires Ready(t, first, p, f)
    ensures var x := RoundOf(t, first, p, f); var u := TableOf(x);
            && |u| == |t| && SameLive(t, u) && (Undeleted(t) ==> Undeleted(u) && SameContents(t, u))
            && (x.Ends? ==> Displaced(t, first, x.r))
  {
    if p < f {
      var home := p - t[p].off;
      var v := FreeFrom(t, home, home + BUCKET);
      if v < home + BUCKET {
        MoveKeeps(t, p, v);
      }
    }
  }

  lemma DisplacedFurther(t: seq<Entry>, u: seq<Entry>, first: nat, r: Shift)
    requires |u| == |t| && SameLive(t, u) && (Undeleted(t) ==> Undeleted(u) && SameContents(t, u))
    requires Displaced(u, first, r)
    ensures Displaced(t, first, r)
  {
  }

  /** Displacement never loses, adds or changes a live entry, whether it succeeds or not. */
  lemma {:induction false} ShiftFromKeeps(t: seq<Entry>, first: nat, p: nat, f: nat)
    requires Ready(t, first, p, f)
    ensures Displaced(t, first, ShiftFrom(t, first, p, f))
    decreases f, f - p
  {
    RoundKeeps(t, first, p, f);
    var x := RoundOf(t, first, p, f);
    if x.GoesOn? {
      ShiftFromKeeps(x.t, first, x.p, x.f);
      DisplacedFurther(t, x.t, first, ShiftFrom(x.t, first, x.p, x.f));
    }
  }

  lemma TryShiftKeeps(t: seq<Entry>, home: nat)
    requires Lively(t) && AllLive(t, home, home + BUCKET)
    ensures Displaced(t, home, TryShift(t, home))
  {
    var last := ShiftLast(|t|, home);
    if last > home + BUCKET {
      var f := FreeFrom(t, home + BUCKET, last);
      if f < last {
        ShiftFromKeeps(t, home, f - BUCKET + 1, f);
      }
    }
  }

  // ---------------------------------------------------------------- when displacement fails

  /** The entry of slot `q` has nowhere else to go: its bucket has no free slot. */
  ghost predicate Pinned(t: seq<Entry>, q: nat) {
    && q < |t| && t[q].Used? && t[q].off <= q
    && forall j :: q - t[q].off <= j < q - t[q].off + 32 && j < |t| ==> Live(t[j])
  }

  /** Slot `f`, outside the bucket of `home`, is the first free one from `home` on, and none of the
      31 entries before it, as far as `home`, can move. */
  ghost predicate Jammed(t: seq<Entry>, home: nat, f: nat) {
    && home + 32 <= f < |t| && Free(t[f]) && AllLive(t, home, f)
    && forall q {:trigger Pinned(t, q)} :: home <= q < f && f - 32 < q ==> Pinned(t, q)
  }

  /** What the displacement loop has found out when it stands at candidate `p`. */
  ghost predicate PinnedTo(t: seq<Entry>, first: nat, p: nat, f: nat) {
    forall q {:trigger Pinned(t, q)} :: first <= q < p && f - 32 < q ==> Pinned(t, q)
  }

  /** The lowest of those 31 entries that can move, `q`, exchanges places with the first free slot of
      its bucket: the free slot is now at `q`. */
  ghost predicate Hop(t: seq<Entry>, home: nat, f: nat, u: seq<Entry>, q: nat) {
    && home <= q < f < |t| && f - 32 < q && AllLive(t, home, f) && Free(t[f]) && PinnedTo(t, home, q, f)
    && t[q].Used? && t[q].off <= q
    && exists v: nat :: Exchanged(t, q, v, u)
  }

  ghost predicate Exchanged(t: seq<Entry>, q: nat, v: nat, u: seq<Entry>)
    requires q < |t| && t[q].Used? && t[q].off <= q
  {
    var home := q - t[q].off;
    && home <= v < home + 32 && v < |t| && Free(t[v]) && AllLive(t, home, v)
    && |u| == |t| && u[q] == t[v] && u[v] == t[q].(off := v - home)
    && forall i :: 0 <= i < |t| && i != q && i != v ==> u[i] == t[i]
  }

  /** Free slots brought nearer one hop after the other, from `fs[0]` in `ts[0]`: until one is in the
      bucket of `home`, or can be brought no nearer. */
  ghost predicate Hops(ts: seq<seq<Entry>>, fs: seq<nat>, home: nat, r: Shift) {
    && 0 < |ts| == |fs|
    && (forall i {:trigger HopAt(ts, fs, home, i)} :: 0 <= i < |ts| - 1 ==> HopAt(ts, fs, home, i))
    && var t, f := ts[|ts| - 1], fs[|fs| - 1];
    && r.t == t
    && if f < home + 32 then r.slot == NoData(f) else r.slot == NoSpace && Jammed(t, home, f)
  }

  ghost predicate HopAt(ts: seq<seq<Entry>>, fs: seq<nat>, home: nat, i: nat)
    requires i + 1 < |ts| == |fs|
  {
    home + 32 <= fs[i] && Hop(ts[i], home, fs[i], ts[i + 1], fs[i + 1])
  }

  lemma RoundHops(t: seq<Entry>, first: nat, p: nat, f: nat)
    requires Ready(t, first, p, f) && first + 32 <= f && Free(t[f]) && PinnedTo(t, first, p, f) && f - 32 < p
    ensures match RoundOf(t, first, p, f)
            case Ends(r) =>
              if r.slot.NoData? then r.slot.i < first + 32 && Hop(t, first, f, r.t, r.slot.i)
              else r == Shift(t, NoSpace) && Jammed(t, first, f)
            case GoesOn(u, q, g) =>
              && first + 32 <= g && Free(u[g]) && PinnedTo(u, first, q, g) && g - 32 < q
              && if u == t && g == f then true else Hop(t, first, f, u, g)
  {
    if p < f {
      var home := p - t[p].off;
      var v := FreeFrom(t, home, home + BUCKET);
      if v < home + BUCKET {
        assert Exchanged(t, p, v, Move(t, p, v));
      }
    }
  }

  lemma HopsBefore(ts: seq<seq<Entry>>, fs: seq<nat>, home: nat, r: Shift, t: seq<Entry>, f: nat)
    requires Hops(ts, fs, home, r) && home + 32 <= f && Hop(t, home, f, ts[0], fs[0])
    ensures Hops([t] + ts, [f] + fs, home, r)
  {
    var us, gs := [t] + ts, [f] + fs;
    forall i | 0 <= i < |us| - 1 ensures HopAt(us, gs, home, i) {
      assert i > 0 ==> HopAt(ts, fs, home, i - 1);
    }
  }

  lemma {:induction false} ShiftFromHops(t: seq<Entry>, first: nat, p: nat, f: nat)
      returns (ts: seq<seq<Entry>>, fs: seq<nat>)
    requires Ready(t, first, p, f) && first + 32 <= f && Free(t[f]) && PinnedTo(t, first, p, f) && f - 32 < p
    ensures Hops(ts, fs, first, ShiftFrom(t, first, p, f)) && ts[0] == t && fs[0] == f
    decreases f, f - p
  {
    RoundHops(t, first, p, f);
    var x := RoundOf(t, first, p, f);
    if x.GoesOn? {
      ts, fs := ShiftFromHops(x.t, first, x.p, x.f);
      if x.t != t || x.f != f {
        HopsBefore(ts, fs, first, ShiftFrom(x.t, first, x.p, x.f), t, f);
        ts, fs := [t] + ts, [f] + fs;
      }
    } else if x.r.slot.NoData? {
      HopsBefore([x.r.t], [x.r.slot.i], first, x.r, t, f);
      ts, fs := [t] + [x.r.t], [f] + [x.r.slot.i];
    } else {
      ts, fs := [t], [f];
    }
  }

  /** No slot beyond the bucket of `home` is free, as far as a displacement looks. */
  ghost predicate Crammed(t: seq<Entry>, home: nat) {
    forall i :: home + 32 <= i < home + 2048 && i < |t| - 33 ==> Live(t[i])
  }

  /** The slot a displacement starts from. */
  ghost predicate Nearest(t: seq<Entry>, home: nat, f: nat) {
    home + 32 <= f < home + 2048 && f < |t| - 33 && Free(t[f]) && AllLive(t, home, f)
  }

  lemma FirstInReach(t: seq<Entry>, home: nat) returns (f: nat)
    requires Lively(t) && AllLive(t, home, home + 32)
    ensures Crammed(t, home) ==> TryShift(t, home) == Shift(t, NoSpace)
    ensures !Crammed(t, home) ==> Nearest(t, home, f) && TryShift(t, home) == ShiftFrom(t, home, f - 31, f)
  {
    f := 0;
    var last := ShiftLast(|t|, home);
    if last > home + BUCKET {
      f := FreeFrom(t, home + BUCKET, last);
    }
  }

  lemma HopsFrom(t: seq<Entry>, home: nat, f: nat, r: Shift) returns (ts: seq<seq<Entry>>, fs: seq<nat>)
    requires Lively(t) && AllLive(t, home, home + 32) && Nearest(t, home, f) && r == ShiftFrom(t, home, f - 31, f)
    ensures Hops(ts, fs, home, r) && ts[0] == t && fs[0] == f
  {
    ts, fs := ShiftFromHops(t, home, f - 31, f);
  }

  /** Displacement, said without its loop. Without a free slot in reach it does nothing. Otherwise it
      brings the first one nearer, hop by hop, and fails only when no hop is left. */
  lemma TryShiftHops(t: seq<Entry>, home: nat) returns (ts: seq<seq<Entry>>, fs: seq<nat>)
    requires Lively(t) && AllLive(t, home, home + 32)
    ensures Crammed(t, home) ==> TryShift(t, home) == Shift(t, NoSpace)
    ensures !Crammed(t, home) ==>
              Hops(ts, fs, home, TryShift(t, home)) && ts[0] == t && Nearest(t, home, fs[0])
  {
    var f := FirstInReach(t, home);
    ts, fs := [], [];
    if !Crammed(t, home) {
      ts, fs := HopsFrom(t, home, f, TryShift(t, home));
    }
  }

  /** It fails only where it must: no slot in reach is free, or the first free one is outside the
      bucket and none of the 31 entries before it has a free slot in its own bucket. */
  lemma TryShiftFails(t: seq<Entry>, home: nat)
    requires Lively(t) && AllLive(t, home, home + 32) && TryShift(t, home).slot.NoSpace?
    ensures Crammed(t, home) || exists f :: Jammed(TryShift(t, home).t, home, f)
  {
    var ts, fs := TryShiftHops(t, home);
  }

  /** In a table whose only hole is `f`, a candidate can move only into `f`. */
  lemma VictimIsFree(t: seq<Entry>, first: nat, p: nat, f: nat)
    requires first <= p < f && f + BUCKET <= |t| && AllUsed(t, first, f) && t[f].Unused?
    requires WellFormed(t) && NoTombstones(t) && NoHoleBut(t, f)
    ensures var home := p - t[p].off;
            FreeFrom(t, home, home + BUCKET) == if f < home + BUCKET then f else home + BUCKET
  {
    var home := p - t[p].off;
    var v := FreeFrom(t, home, home + BUCKET);
    assert forall j :: home <= j < f ==> t[j].Used?;
  }

  lemma MoveNoHole(t: seq<Entry>, first: nat, p: nat, f: nat)
    requires first <= p < f && f + BUCKET <= |t| && AllUsed(t, first, f) && t[f].Unused?
    requires WellFormed(t) && NoTombstones(t) && NoHoleBut(t, f) && f < p - t[p].off + BUCKET
    ensures var u := Move(t, p, f); NoHoleBut(u, p) && u[p].Unused? && AllUsed(u, first, p) && Behind(u, f, p)
  {
  }

  /** What is left where the table had no hole but the one that was displaced. */
  ghost predicate Holes(t: seq<Entry>, r: Shift, i: nat, h: nat) {
    && (r.slot.NoData? ==> NoHoleBut(r.t, r.slot.i) && Behind(r.t, i, r.slot.i))
    && (r.slot.NoSpace? ==> r.t == t || Behind(r.t, i, h))
  }

  /** A table without deleted entries whose only hole is the free slot `f`. */
  ghost predicate OneHole(t: seq<Entry>, first: nat, f: nat) {
    Undeleted(t) && f < |t| && AllUsed(t, first, f) && t[f].Unused? && NoHoleBut(t, f)
  }

  lemma RoundHoles(t: seq<Entry>, first: nat, p: nat, f: nat) returns (i: nat, h: nat)
    requires Ready(t, first, p, f) && OneHole(t, first, f)
    ensures match RoundOf(t, first, p, f)
            case Ends(r) => Holes(t, r, i, h)
            case GoesOn(u, q, g) => OneHole(u, first, g) && (u == t || Behind(u, i, h))
  {
    i, h := f, p;
    if p < f {
      VictimIsFree(t, first, p, f);
      if f < p - t[p].off + BUCKET {
        MoveKeeps(t, p, f);
        MoveNoHole(t, first, p, f);
      }
    }
  }

  /** Where the table had no other hole: on success the freed slot is the only hole, and a
      failure either left the table alone or left an entry behind a hole. */
  lemma {:induction false} ShiftFromHoles(t: seq<Entry>, first: nat, p: nat, f: nat) returns (i: nat, h: nat)
    requires Ready(t, first, p, f) && OneHole(t, first, f)
    ensures Holes(t, ShiftFrom(t, first, p, f), i, h)
    decreases f, f - p
  {
    i, h := RoundHoles(t, first, p, f);
    var x := RoundOf(t, first, p, f);
    if x.GoesOn? {
      var i', h' := ShiftFromHoles(x.t, first, x.p, x.f);
      if x.t == t || ShiftFrom(x.t, first, x.p, x.f).t != x.t {
        i, h := i', h';
      }
    }
  }

  lemma HolesMean(t: seq<Entry>, r: Shift, i: nat, h: nat)
    requires NoHole(t) && Holes(t, r, i, h)
    ensures r.slot.NoData? ==> NoHoleBut(r.t, r.slot.i) && !NoHole(r.t)
    ensures r.slot.NoSpace? ==> (NoHole(r.t) <==> r.t == t)
  {
  }

  lemma ShiftedHoles(t: seq<Entry>, home: nat, f: nat, r: Shift)
    requires WellFormed(t) && NoTombstones(t) && NoHole(t)
    requires r == Shift(t, NoSpace) || (Nearest(t, home, f) && r == ShiftFrom(t, home, f - 31, f))
    ensures r.slot.NoData? ==> NoHoleBut(r.t, r.slot.i) && !NoHole(r.t)
    ensures r.slot.NoSpace? ==> (NoHole(r.t) <==> r.t == t)
  {
    if r != Shift(t, NoSpace) {
      var i, h := ShiftFromHoles(t, home, f - BUCKET + 1, f);
      HolesMean(t, r, i, h);
    }
  }

  /** Displacement in a table without holes. The freed slot is then the only hole, and it does
      hide an entry until it is filled. A failed displacement leaves no hole if and only if
      it left the table as it was. */
  lemma TryShiftHoles(t: seq<Entry>, home: nat)
    requires WellFormed(t) && NoTombstones(t) && NoHole(t) && AllUsed(t, home, home + BUCKET)
    ensures var r := TryShift(t, home);
            && (r.slot.NoData? ==> NoHoleBut(r.t, r.slot.i) && !NoHole(r.t))
            && (r.slot.NoSpace? ==> (NoHole(r.t) <==> r.t == t))
  {
    var f := FirstInReach(t, home);
    ShiftedHoles(t, home, f, TryShift(t, home));
  }

  // ---------------------------------------------------------------- with deleted entries

  /** No unused slot lies between a live slot and its home. */
  ghost predicate LiveNoHole(t: seq<Entry>) {
    forall i, j :: 0 <= i < |t| && Live(t[i]) && i - t[i].off <= j < i && 0 <= j ==> t[j].Used?
  }

  ghost predicate SameUnused(t: seq<Entry>, u: seq<Entry>) {
    |t| == |u| && forall i :: 0 <= i < |t| ==> (t[i].Unused? <==> u[i].Unused?)
  }

  predicate LiveBehind(t: seq<Entry>, i: nat, h: nat) { Behind(t, i, h) && Live(t[i]) }

  /** Nothing is hidden, and the unused slots are those of `t0`. */
  ghost predicate Unbroken(t0: seq<Entry>, t: seq<Entry>) { LiveNoHole(t) && SameUnused(t0, t) }

  predicate Spent(t0: seq<Entry>, t: seq<Entry>, w: nat) { w < |t| && w < |t0| && t0[w].Unused? && t[w].Used? }

  /** Something is hidden behind a slot from `f` on, and an unused slot there was used up. */
  ghost predicate Broken(t0: seq<Entry>, t: seq<Entry>, f: nat) {
    && (exists i: nat, h: nat :: f <= h && LiveBehind(t, i, h))
    && (exists w: nat :: f <= w && Spent(t0, t, w))
  }

  lemma MoveBreaks(t0: seq<Entry>, t: seq<Entry>, first: nat, p: nat, f: nat, v: nat)
    requires Lively(t) && first <= p < f && f + BUCKET <= |t| == |t0| && AllLive(t, first, f)
    requires p - t[p].off <= v < p - t[p].off + BUCKET && Free(t[v]) && AllLive(t, p - t[p].off, v)
    requires Unbroken(t0, t)
    ensures var u := Move(t, p, v); Unbroken(t0, u) || Broken(t0, u, p)
  {
    var u := Move(t, p, v);
    if t[v].Unused? {
      assert p < v && LiveBehind(u, v, p) && Spent(t0, u, v);
    }
  }

  lemma MoveStaysBroken(t0: seq<Entry>, t: seq<Entry>, first: nat, p: nat, f: nat, v: nat)
    requires Lively(t) && first <= p < f && f + BUCKET <= |t| == |t0| && AllLive(t, first, f)
    requires p - t[p].off <= v < p - t[p].off + BUCKET && Free(t[v]) && AllLive(t, p - t[p].off, v)
    requires Broken(t0, t, f)
    ensures Broken(t0, Move(t, p, v), p)
  {
    var u := Move(t, p, v);
    var i: nat, h: nat :| f <= h && LiveBehind(t, i, h);
    var w: nat :| f <= w && Spent(t0, t, w);
    assert Spent(t0, u, w);
    if v == h {
      assert LiveBehind(u, v, p);
    } else {
      assert LiveBehind(u, i, h);
    }
  }

  /** Either nothing is hidden and no unused slot was used up, or both happened from `f` on. */
  ghost predicate Either(t0: seq<Entry>, t: seq<Entry>, f: nat) { Unbroken(t0, t) || Broken(t0, t, f) }

  lemma MoveEither(t0: seq<Entry>, t: seq<Entry>, first: nat, p: nat, f: nat, v: nat)
    requires Lively(t) && first <= p < f && f + BUCKET <= |t| == |t0| && AllLive(t, first, f)
    requires v == FreeFrom(t, p - t[p].off, p - t[p].off + BUCKET) < p - t[p].off + BUCKET
    requires Either(t0, t, f)
    ensures Either(t0, Move(t, p, v), p)
  {
    if Unbroken(t0, t) {
      MoveBreaks(t0, t, first, p, f, v);
    } else {
      MoveStaysBroken(t0, t, first, p, f, v);
    }
  }

  lemma EitherFrom(t0: seq<Entry>, t: seq<Entry>, f: nat, g: nat)
    requires Either(t0, t, f) && g <= f
    ensures Either(t0, t, g)
  {
    if !Unbroken(t0, t) {
      var i: nat, h: nat :| f <= h && LiveBehind(t, i, h);
      var w: nat :| f <= w && Spent(t0, t, w);
    }
  }

  lemma RoundBreaks(t0: seq<Entry>, t: seq<Entry>, first: nat, p: nat, f: nat)
    requires Ready(t, first, p, f) && |t| == |t0| && Either(t0, t, f)
    ensures match RoundOf(t, first, p, f)
            case Ends(r) => Either(t0, r.t, first)
            case GoesOn(u, q, h) => Either(t0, u, h)
  {
    EitherFrom(t0, t, f, first);
    if p < f {
      var home := p - t[p].off;
      var v := FreeFrom(t, home, home + BUCKET);
      if v < home + BUCKET {
        MoveEither(t0, t, first, p, f, v);
        EitherFrom(t0, Move(t, p, v), p, first);
      }
    }
  }

  lemma {:induction false} ShiftFromBreaks(t0: seq<Entry>, t: seq<Entry>, first: nat, p: nat, f: nat)
    requires Ready(t, first, p, f) && |t| == |t0| && Either(t0, t, f)
    ensures Either(t0, ShiftFrom(t, first, p, f).t, first)
    decreases f, f - p
  {
    RoundBreaks(t0, t, first, p, f);
    var x := RoundOf(t, first, p, f);
    if x.GoesOn? {
      ShiftFromBreaks(t0, x.t, first, x.p, x.f);
    }
  }

  lemma EitherWay(t0: seq<Entry>, t: seq<Entry>, f: nat)
    requires Either(t0, t, f)
    ensures LiveNoHole(t) <==> SameUnused(t0, t)
  {
  }

  lemma ShiftedBreaks(t: seq<Entry>, home: nat, f: nat, r: Shift)
    requires Lively(t) && LiveNoHole(t)
    requires r == Shift(t, NoSpace) || (Nearest(t, home, f) && r == ShiftFrom(t, home, f - 31, f))
    ensures Either(t, r.t, home)
  {
    if r != Shift(t, NoSpace) {
      ShiftFromBreaks(t, t, home, f - BUCKET + 1, f);
    }
  }

  /** Whether it succeeds or not, and with deleted entries about, displacement hides an entry if and
      only if it used up a slot that had been unused. */
  lemma TryShiftBreaks(t: seq<Entry>, home: nat)
    requires Lively(t) && AllLive(t, home, home + BUCKET) && LiveNoHole(t)
    ensures LiveNoHole(TryShift(t, home).t) <==> SameUnused(t, TryShift(t, home).t)
  {
    var f := FirstInReach(t, home);
    var r := TryShift(t, home);
    ShiftedBreaks(t, home, f, r);
    EitherWay(t, r.t, home);
  }

  /** Filling the only hole of a table, in a bucket used up to it, leaves no hole. */
  lemma FillNoHole(t: seq<Entry>, i: nat, home: nat, e: Entry)
    requires i < |t| && home <= i && NoHoleBut(t, i) && AllUsed(t, home, i)
    requires e.Used? && e.off == i - home
    ensures NoHole(t[i := e])
  {
  }

  /** Replacing a used entry by one of the same home leaves no hole. */
  lemma ReplaceNoHole(t: seq<Entry>, i: nat, e: Entry)
    requires i < |t| && NoHole(t) && t[i].Used? && e.Used? && e.off == t[i].off
    ensures NoHole(t[i := e])
  {
  }

  /** A table of 128 homes. A bucket with 32 entries of one home, one more whose home is the next
      slot, and entries at their own home up to slot 63: the free slot 64 can be displaced once,
      to slot 33, and no further. */
  function Crowded(): seq<Entry> {
    seq(160, i => if 0 <= i < BUCKET then Used(i, i, 1, Addr(0, i))
                  else if i == BUCKET then Used(BUCKET - 1, 0, 1, Addr(0, i))
                  else if 0 <= i < 2 * BUCKET then Used(0, 0, 1, Addr(0, i))
                  else Unused)
  }

  lemma {:induction false} Stuck(t: seq<Entry>, first: nat, p: nat, f: nat)
    requires Ready(t, first, p, f)
    requires forall q :: p <= q < f ==> AllLive(t, q - t[q].off, q - t[q].off + BUCKET)
    ensures ShiftFrom(t, first, p, f) == Shift(t, NoSpace)
    decreases f - p
  {
    if p < f {
      Stuck(t, first, p + 1, f);
    }
  }

  lemma FreeFromIs(t: seq<Entry>, i: nat, last: nat, r: nat)
    requires i <= r < last <= |t| && Free(t[r]) && forall j :: i <= j < r ==> Live(t[j])
    ensures FreeFrom(t, i, last) == r
  {
  }

  lemma CrowdedIsSound()
    ensures var t := Crowded(); WellFormed(t) && NoTombstones(t) && NoHole(t) && AllUsed(t, 0, 2 * BUCKET)
  {
  }

  lemma TryShiftIs(t: seq<Entry>, home: nat, f: nat)
    requires Lively(t) && AllLive(t, home, home + BUCKET)
    requires home + BUCKET <= f < ShiftLast(|t|, home) && FreeFrom(t, home + BUCKET, ShiftLast(|t|, home)) == f
    ensures TryShift(t, home) == ShiftFrom(t, home, f - BUCKET + 1, f)
  {
  }

  lemma CrowdedStuck()
    requires var t := Crowded(); Lively(t) && AllUsed(t, 0, 2 * BUCKET)
    ensures var u := Move(Crowded(), 33, 64);
            Ready(u, 0, 2, 33) && ShiftFrom(u, 0, 2, 33) == Shift(u, NoSpace)
  {
    var t := Crowded();
    MoveKeeps(t, 33, 64);
    var u := Move(t, 33, 64);
    assert forall q :: 0 <= q < 33 ==> u[q] == t[q];
    Stuck(u, 0, 2, 33);
  }

  lemma CrowdedRound()
    requires var t := Crowded(); Lively(t) && AllUsed(t, 0, 2 * BUCKET)
    ensures var t := Crowded(); Ready(t, 0, 33, 64) && RoundOf(t, 0, 33, 64) == GoesOn(Move(t, 33, 64), 2, 33)
  {
    FreeFromIs(Crowded(), 33, 65, 64);
  }

  lemma CrowdedShift()
    requires var t := Crowded(); Lively(t) && AllUsed(t, 0, 2 * BUCKET)
    ensures TryShift(Crowded(), 0) == Shift(Move(Crowded(), 33, 64), NoSpace)
  {
    var t := Crowded();
    FreeFromIs(t, BUCKET, 127, 64);
    TryShiftIs(t, 0, 64);
    CrowdedRound();
    CrowdedStuck();
  }

  lemma CrowdedFinds()
    ensures IsLookup(Crowded(), Fp(0, 33), Found(33))
  {
    assert Matches(Crowded(), Fp(0, 33), 33);
  }

  lemma CrowdedLoses()
    requires Lively(Crowded())
    ensures IsLookup(Move(Crowded(), 33, 64), Fp(0, 33), NoData(33))
  {
    assert Move(Crowded(), 33, 64)[33] == Unused;
  }

  /** A failed displacement can hide an entry that was not involved: in `Crowded` the entry
      homed at slot 33 is found before the attempt and reported absent after it. */
  lemma DisplacementCanHide()
    ensures var t := Crowded();
            && WellFormed(t) && NoTombstones(t) && NoHole(t) && AllUsed(t, 0, BUCKET)
            && var r := TryShift(t, 0);
            && r.slot == NoSpace
            && IsLookup(t, Fp(0, 33), Found(33))
            && IsLookup(r.t, Fp(0, 33), NoData(33))
  {
    CrowdedIsSound();
    CrowdedShift();
    CrowdedFinds();
    CrowdedLoses();
  }
}
