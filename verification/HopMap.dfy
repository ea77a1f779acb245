/** The table operations in place, with the source's loops (src/include/uDepot/lsa/udepot-map.hh),
    the candidate search of lookup_common (src/uDepot/udepot-lsa.cc), and the copy of one entry
    that a directory grow makes (src/uDepot/lsa/udepot-directory-map.cc). */
module HopTable {
  import opened Arith
  import opened Extents
  import opened Hopscotch

  /** What lookup_common reports: the result of a failed lookup, the next candidate not
      visited yet, or that every candidate was visited. */
  datatype Common = Miss(l: Lookup) | Cand(i: nat) | Exhausted

  ghost predicate IsCommon(t: seq<Entry>, fp: Fp, visited: seq<Addr>, r: Common) {
    && InTable(t, fp.home)
    && match r
       case Miss(l) => !l.Found? && IsLookup(t, fp, l)
       case Cand(i) =>
         && Matches(t, fp, i) && t[i].pba !in visited
         && forall j: nat :: j < i && Matches(t, fp, j) ==> t[j].pba in visited
       case Exhausted =>
         && (exists i :: Matches(t, fp, i))
         && forall j: nat :: Matches(t, fp, j) ==> t[j].pba in visited
  }

  /** The outcome of copying one entry into a grown table. */
  datatype Copy = Copied | Full | Overwrote

  class HopMap {
    var ht: array<Entry>

    constructor (n: nat)
      ensures fresh(ht) && ht.Length == n && ht[..] == seq(n, _ => Unused)
    {
      ht := new Entry[n](_ => Unused);
      new;
      assert ht[..] == seq(n, _ => Unused);
    }

    method Lookup(fp: Fp) returns (r: Lookup)
      requires InTable(ht[..], fp.home)
      ensures IsLookup(ht[..], fp, r)
    {
      var last := fp.home + BUCKET;
      var p := fp.home;
      while p < last && ht[p].Used?
        invariant fp.home <= p <= last
        invariant forall j :: fp.home <= j < p ==> ht[j].Used? && !Matches(ht[..], fp, j)
      {
        if Live(ht[p]) && ht[p].tag == fp.tag && ht[p].off == p - fp.home {
          return Found(p);
        }
        p := p + 1;
      }
      r := NoSpace;
      var q := fp.home;
      while q < last
        invariant fp.home <= q <= last
        invariant forall j :: fp.home <= j < q ==> ht[j].Used?
        invariant r.NoSpace? ==> forall j :: fp.home <= j < q ==> Live(ht[j])
        invariant !r.Found?
        invariant r.NoData? ==>
          && fp.home <= r.i < q && Free(ht[r.i])
          && forall j :: r.i < j < q ==> Live(ht[j])
      {
        if ht[q].Unused? {
          return NoData(q);
        } else if Free(ht[q]) {
          r := NoData(q);
        }
        q := q + 1;
      }
    }

    method NextFree(home: nat) returns (r: Lookup)
      requires InTable(ht[..], home)
      ensures var f := FreeFrom(ht[..], home, home + BUCKET);
              r == if f < home + BUCKET then NoData(f) else NoSpace
    {
      var p := home;
      while p < home + BUCKET
        invariant home <= p <= home + BUCKET
        invariant FreeFrom(ht[..], home, home + BUCKET) == FreeFrom(ht[..], p, home + BUCKET)
      {
        if Free(ht[p]) {
          return NoData(p);
        }
        p := p + 1;
      }
      r := NoSpace;
    }

    /** The next match after slot `i`; unlike a lookup it does not stop at an unused slot. */
    method Next(i: nat, fp: Fp) returns (j: nat, found: bool)
      requires InTable(ht[..], fp.home) && fp.home <= i < fp.home + BUCKET
      ensures found ==> i < j && Matches(ht[..], fp, j) && forall k :: i < k < j ==> !Matches(ht[..], fp, k)
      ensures !found ==> forall k :: i < k < fp.home + BUCKET ==> !Matches(ht[..], fp, k)
    {
      j := i + 1;
      while j < fp.home + BUCKET
        invariant i < j <= fp.home + BUCKET
        invariant forall k :: i < k < j ==> !Matches(ht[..], fp, k)
      {
        if Live(ht[j]) && ht[j].tag == fp.tag && ht[j].off == j - fp.home {
          return j, true;
        }
        j := j + 1;
      }
      found := false;
    }

    /** The slot of the bucket that holds extent `pba`, for GC and for revalidation. */
    method LookupPba(home: nat, pba: Addr) returns (i: nat, found: bool)
      requires InTable(ht[..], home)
      ensures found ==> home <= i < home + BUCKET && ht[i].Used? && ht[i].pba == pba
      ensures !found ==> forall k :: home <= k < home + BUCKET && ht[k].Used? ==> ht[k].pba != pba
    {
      i := home;
      while i < home + BUCKET
        invariant home <= i <= home + BUCKET
        invariant forall k :: home <= k < i && ht[k].Used? ==> ht[k].pba != pba
      {
        if ht[i].Used? && ht[i].pba == pba {
          return i, true;
        }
        i := i + 1;
      }
      found := false;
    }

    method LookupCommon(fp: Fp, visited: seq<Addr>) returns (r: Common)
      requires InTable(ht[..], fp.home)
      ensures IsCommon(ht[..], fp, visited, r)
    {
      var l := Lookup(fp);
      if !l.Found? {
        return Miss(l);
      }
      var i, found := l.i, true;
      while found
        invariant found ==> Matches(ht[..], fp, i)
        invariant found ==> forall j: nat :: j < i && Matches(ht[..], fp, j) ==> ht[j].pba in visited
        invariant !found ==> forall j: nat :: Matches(ht[..], fp, j) ==> ht[j].pba in visited
        decreases found, fp.home + BUCKET - i
      {
        if ht[i].pba !in visited {
          return Cand(i);
        }
        var j, more := Next(i, fp);
        forall k: nat | Matches(ht[..], fp, k) && (more ==> k < j) ensures ht[k].pba in visited {
          assert k <= i || i < k;
        }
        i, found := j, more;
      }
      r := Exhausted;
    }

    method Insert(i: nat, fp: Fp, size: nat, pba: Addr)
      requires i < ht.Length && fp.home <= i && Free(ht[i])
      modifies ht
      ensures ht[..] == old(ht[..])[i := Used(i - fp.home, fp.tag, Min(size, MAX_SIZE), pba)]
    {
      ht[i] := Used(i - fp.home, fp.tag, Min(size, MAX_SIZE), pba);
    }

    /** The first free slot beyond the bucket that displacement may reach, or `last`. */
    method FindFree(home: nat, last: nat) returns (f: nat)
      requires home + BUCKET < last <= ht.Length
      ensures f == FreeFrom(ht[..], home + BUCKET, last)
    {
      f := home + BUCKET;
      while f < last && !Free(ht[f])
        invariant home + BUCKET <= f <= last
        invariant FreeFrom(ht[..], home + BUCKET, last) == FreeFrom(ht[..], f, last)
      {
        f := f + 1;
      }
    }

    /** Moves the entry of slot `p` to the first free slot of its bucket, if there is one. */
    method TryShiftOne(p: nat) returns (v: Lookup)
      requires Lively(ht[..]) && p < ht.Length && Live(ht[p]) && InTable(ht[..], p - ht[p].off)
      modifies ht
      ensures v == var own := old(p - ht[p].off); var f := old(FreeFrom(ht[..], own, own + BUCKET));
                   if f < own + BUCKET then NoData(f) else NoSpace
      ensures v.NoSpace? ==> ht[..] == old(ht[..])
      ensures v.NoData? ==> ht[..] == Move(old(ht[..]), p, v.i)
    {
      var own := p - ht[p].off;
      v := NextFree(own);
      if v.NoData? {
        var moved := ht[p];
        ht[p] := ht[v.i];
        ht[v.i] := moved.(off := v.i - own);
      }
    }

    /** One round of displacing the free slot `f` towards `home`, with candidate `p`. */
    method ShiftOnce(home: nat, p: nat, f: nat) returns (done: bool, p': nat, f': nat)
      requires Ready(ht[..], home, p, f) && p < f
      modifies ht
      ensures RoundOf(old(ht[..]), home, p, f) ==
              if done then Ends(Shift(ht[..], NoData(p))) else GoesOn(ht[..], p', f')
    {
      ghost var t := ht[..];
      var v := TryShiftOne(p);
      if v.NoSpace? {
        assert ht[..] == t;
        return false, p + 1, f;
      }
      assert ht[..] == Move(t, p, v.i);
      if p - home < BUCKET {
        return true, p, f;
      }
      return false, Max(home, p - BUCKET + 1), p;
    }

    /** Displaces the free slot `f0` towards `home`. */
    method ShiftBack(home: nat, p0: nat, f0: nat, ghost goal: Shift) returns (r: Lookup)
      requires Ready(ht[..], home, p0, f0) && goal == ShiftFrom(ht[..], home, p0, f0)
      modifies ht
      ensures Shift(ht[..], r) == goal
    {
      var p, f := p0, f0;
      while p < f
        invariant Ready(ht[..], home, p, f) && ShiftFrom(ht[..], home, p, f) == goal
        decreases f, f - p
      {
        var done, p', f' := ShiftOnce(home, p, f);
        if done {
          return NoData(p);
        }
        p, f := p', f';
      }
      r := NoSpace;
    }

    method TryShift(home: nat) returns (r: Lookup)
      requires Lively(ht[..]) && AllLive(ht[..], home, home + BUCKET)
      modifies ht
      ensures Shift(ht[..], r) == Hopscotch.TryShift(old(ht[..]), home)
    {
      ghost var goal := Hopscotch.TryShift(ht[..], home);
      var near, f := FindNear(home, goal);
      if !near {
        return NoSpace;
      }
      r := ShiftBack(home, f - BUCKET + 1, f, goal);
    }

    /** The free slot to start from, if there is one. */
    method FindNear(home: nat, ghost goal: Shift) returns (near: bool, f: nat)
      requires Lively(ht[..]) && AllLive(ht[..], home, home + BUCKET) && goal == Hopscotch.TryShift(ht[..], home)
      ensures near ==>
                && BUCKET <= f && Ready(ht[..], home, f - BUCKET + 1, f)
                && goal == ShiftFrom(ht[..], home, f - BUCKET + 1, f)
      ensures !near ==> goal == Shift(ht[..], NoSpace)
    {
      var last := ShiftLast(ht.Length, home);
      near, f := false, 0;
      if home + BUCKET < last {
        f := FindFree(home, last);
        near := f < last;
        if near { TryShiftIs(ht[..], home, f); }
      }
    }

    /** One step of a directory grow: the entry of another table, which may be marked deleted, goes
        into this one. As long as the bucket has room it takes the first unused slot of the
        bucket or one before it. When the bucket is full and already holds the fingerprint, the
        matching entry is overwritten; when it is full and does not, others are displaced. */
    method CopyEntry(fp: Fp, size: nat, pba: Addr) returns (r: Copy)
      requires InTable(ht[..], fp.home) && size <= MAX_SIZE && WellFormed(ht[..]) && NoHole(ht[..])
      requires HasRoom(ht[..], fp.home) || (NoTombstones(ht[..]) && 0 < size)
      modifies ht
      ensures WellFormed(ht[..]) && (!r.Full? ==> NoHole(ht[..]))
      ensures r.Copied? ==> Gains(old(ht[..]), ht[..], Item(fp.tag, fp.home, size, pba))
      ensures old(HasRoom(ht[..], fp.home)) ==> r.Copied? && FillsEarly(old(ht[..]), ht[..], fp.home)
      ensures r.Full? ==> SameContents(ht[..], old(ht[..]))
      ensures r.Overwrote? <==> !old(HasRoom(ht[..], fp.home)) && old(exists i :: Matches(ht[..], fp, i))
      ensures r.Overwrote? ==>
        exists i: nat ::
          Matches(old(ht[..]), fp, i) && ht[..] == old(ht[..])[i := Used(i - fp.home, fp.tag, size, pba)]
    {
      ghost var t := ht[..];
      var l := Lookup(fp);
      LookupComplete(t, fp, l);
      match l {
        case NoSpace =>
          r := CopyDisplacing(fp, size, pba);
        case NoData(i) =>
          PlaceKeeps(t, i, fp, size, pba);
          Insert(i, fp, size, pba);
          r := Copied;
        case Found(m) =>
          r := CopyBeside(fp, size, pba, m);
      }
    }

    method CopyDisplacing(fp: Fp, size: nat, pba: Addr) returns (r: Copy)
      requires AllUsed(ht[..], fp.home, fp.home + BUCKET) && 0 < size <= MAX_SIZE
      requires WellFormed(ht[..]) && NoTombstones(ht[..]) && NoHole(ht[..])
      modifies ht
      ensures WellFormed(ht[..]) && !r.Overwrote?
      ensures r.Copied? ==> NoHole(ht[..]) && Gains(old(ht[..]), ht[..], Item(fp.tag, fp.home, size, pba))
      ensures r.Full? ==> SameContents(ht[..], old(ht[..]))
    {
      ghost var d := Hopscotch.TryShift(ht[..], fp.home);
      ShiftPlaces(ht[..], d, fp, size, pba);
      var s := TryShift(fp.home);
      assert ht[..] == d.t && s == d.slot;
      if s.NoSpace? {
        return Full;
      }
      Insert(s.i, fp, size, pba);
      assert ht[..] == d.t[s.i := Used(s.i - fp.home, fp.tag, Min(size, MAX_SIZE), pba)];
      r := Copied;
    }

    method CopyBeside(fp: Fp, size: nat, pba: Addr, m: nat) returns (r: Copy)
      requires InTable(ht[..], fp.home) && size <= MAX_SIZE && Matches(ht[..], fp, m)
      requires WellFormed(ht[..]) && NoHole(ht[..])
      modifies ht
      ensures WellFormed(ht[..]) && NoHole(ht[..])
      ensures r == if old(HasRoom(ht[..], fp.home)) then Copied else Overwrote
      ensures r.Copied? ==>
        && Gains(old(ht[..]), ht[..], Item(fp.tag, fp.home, size, pba)) && FillsEarly(old(ht[..]), ht[..], fp.home)
      ensures r.Overwrote? ==> ht[..] == old(ht[..])[m := Used(m - fp.home, fp.tag, size, pba)]
    {
      var n := NextFree(fp.home);
      if n.NoData? {
        PlaceKeeps(ht[..], n.i, fp, size, pba);
        Insert(n.i, fp, size, pba);
        return Copied;
      }
      ReplaceNoHole(ht[..], m, Used(m - fp.home, fp.tag, size, pba));
      ht[m] := Used(m - fp.home, fp.tag, size, pba);
      r := Overwrote;
    }
  }

  /** An entry placed in the slot that a displacement freed. */
  lemma ShiftPlaces(t: seq<Entry>, r: Shift, fp: Fp, size: nat, pba: Addr)
    requires WellFormed(t) && NoTombstones(t) && NoHole(t) && AllUsed(t, fp.home, fp.home + BUCKET)
    requires 0 < size <= MAX_SIZE && r == TryShift(t, fp.home)
    ensures !r.slot.Found? && |r.t| == |t| && WellFormed(r.t) && SameContents(r.t, t)
    ensures r.slot.NoData? ==>
      && fp.home <= r.slot.i < |r.t| && Free(r.t[r.slot.i])
      && var u := r.t[r.slot.i := Used(r.slot.i - fp.home, fp.tag, Min(size, MAX_SIZE), pba)];
      WellFormed(u) && NoHole(u) && Gains(t, u, Item(fp.tag, fp.home, size, pba))
  {
    TryShiftKeeps(t, fp.home);
    TryShiftHoles(t, fp.home);
    if r.slot.NoData? { PlaceKeeps(r.t, r.slot.i, fp, size, pba); }
  }

  /** A slot of the bucket can take an entry. */
  predicate HasRoom(t: seq<Entry>, home: nat) requires InTable(t, home) {
    FreeFrom(t, home, home + BUCKET) < home + BUCKET
  }

  /** Every live item of `t` is in `u` as often, and `x`, if it is live, once more. */
  ghost predicate Gains(t: seq<Entry>, u: seq<Entry>, x: Item) {
    forall y: Item {:trigger Count(u, y)} :: 0 < y.size ==> Count(u, y) == Count(t, y) + if y == x then 1 else 0
  }

  /** `u` is `t` with one slot filled, and no unused slot of `t` lies between the home and that one. */
  ghost predicate FillsEarly(t: seq<Entry>, u: seq<Entry>, home: nat) {
    && |u| == |t|
    && exists i: nat :: home <= i < |t| && AllUsed(t, home, i) && u[i].Used? && u == t[i := u[i]]
  }

  /** Filling a free slot of a bucket that is used up to it adds one item and leaves no hole. */
  lemma PlaceKeeps(t: seq<Entry>, i: nat, fp: Fp, size: nat, pba: Addr)
    requires WellFormed(t) && NoHoleBut(t, i) && size <= MAX_SIZE
    requires fp.home <= i < fp.home + BUCKET <= |t| && Free(t[i]) && AllUsed(t, fp.home, i)
    ensures var u := t[i := Used(i - fp.home, fp.tag, Min(size, MAX_SIZE), pba)];
            && WellFormed(u) && NoHole(u) && (NoTombstones(t) && 0 < size ==> NoTombstones(u))
            && Gains(t, u, Item(fp.tag, fp.home, size, pba)) && FillsEarly(t, u, fp.home)
            && forall x :: t[i].Unused? ==>
                 Count(u, x) == Count(t, x) + if x == Item(fp.tag, fp.home, size, pba) then 1 else 0
  {
    var e := Used(i - fp.home, fp.tag, Min(size, MAX_SIZE), pba);
    FillNoHole(t, i, fp.home, e);
    forall x ensures Count(t[i := e], x) == Count(t, x) + Holds(e, i, x) - Holds(t[i], i, x) {
      CountUpdate(t, i, e, x);
    }
  }

  lemma {:induction false} CountEmpty(t: seq<Entry>, n: nat, x: Item)
    requires n <= |t| && forall i :: 0 <= i < n ==> t[i].Unused?
    ensures CountUpTo(t, n, x) == 0
  {
    if n > 0 {
      CountEmpty(t, n - 1, x);
    }
  }

  ghost predicate Sound(t: seq<Entry>) {
    WellFormed(t) && NoTombstones(t) && NoHole(t)
  }
}
