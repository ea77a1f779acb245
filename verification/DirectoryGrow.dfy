/** The copy that a directory grow makes (src/uDepot/lsa/udepot-directory-map.cc): every table is
    copied into the two that replace it, chosen by one more bit of the fingerprint. The copy has
    cases for a full bucket, in which it displaces entries, overwrites one, or fails. That it
    never gets there, and so never loses an entry, is proved here. */
module DirectoryGrow {
  import opened Arith
  import opened Extents
  import opened Hopscotch
  import opened HopTable

  // ---------------------------------------------------------------- which table

  function Pow2(k: nat): (r: nat)
    ensures 0 < r
  {
    if k == 0 then 1 else 2 * Pow2(k - 1)
  }

  /** The table of a directory with 2^k tables for a fingerprint of `bits` bits: its top `k` bits. */
  function DirIndex(h: nat, bits: nat, k: nat): nat requires k <= bits {
    var p, low := Pow2(bits - k), h % Pow2(bits);
    DivPositive(h, Pow2(bits));
    DivPositive(low, p);
    low / p
  }

  /** Which fingerprints go to a table: those that start with its number. */
  lemma DirIndexIs(h: nat, bits: nat, k: nat)
    requires k <= bits
    ensures var i, p := DirIndex(h, bits, k), Pow2(bits - k);
            i * p <= h % Pow2(bits) < (i + 1) * p && i < Pow2(k) && Pow2(k) * p == Pow2(bits)
  {
    var i, p, low := DirIndex(h, bits, k), Pow2(bits - k), h % Pow2(bits);
    Divided(h, Pow2(bits));
    Divided(low, p);
    assert (i + 1) * p == i * p + p;
    Pow2Sum(k, bits - k);
    if Pow2(k) <= i { MulMonotone(Pow2(k), i, p); }
  }

  lemma {:induction false} Pow2Sum(j: nat, k: nat)
    ensures Pow2(j) * Pow2(k) == Pow2(j + k)
  {
    if j > 0 {
      Pow2Sum(j - 1, k);
      Twice(Pow2(j - 1), Pow2(k));
      assert Pow2(j + k) == 2 * Pow2(j - 1 + k);
    }
  }

  lemma Twice(a: nat, b: nat)
    ensures (2 * a) * b == 2 * (a * b)
  {
  }

  /** What was in table `i` goes to table 2i or 2i + 1, so no two tables are copied into one. */
  lemma DirSplits(h: nat, bits: nat, k: nat)
    requires k < bits
    ensures DirIndex(h, bits, k) == DirIndex(h, bits, k + 1) / 2
  {
    var p, q, low := Pow2(bits - k - 1), DirIndex(h, bits, k + 1), h % Pow2(bits);
    assert Pow2(bits - k) == 2 * p;
    Divided(low, p);
    Divided(q, 2);
    Halve(q / 2, q % 2, p);
    DivModUnique(low, 2 * p, q / 2, (q % 2) * p + low % p);
  }

  lemma Halve(a: int, b: int, p: int)
    requires 0 <= b < 2 && 0 < p
    ensures (2 * a + b) * p == a * (2 * p) + b * p && 0 <= b * p <= p
  {
    assert a * (2 * p) == (2 * a) * p;
    if b == 1 {
      assert (2 * a + 1) * p == (2 * a) * p + p;
    }
  }

  // ---------------------------------------------------------------- one table into two

  function FpAt(t: seq<Entry>, i: nat): Fp requires i < |t| && t[i].Used? && t[i].off <= i {
    Fp(t[i].tag, i - t[i].off)
  }

  /** A table fit to be copied: homes inside the table. Holes and deleted entries do not matter. */
  ghost predicate Copyable(t: seq<Entry>) {
    && WellFormed(t)
    && forall i :: 0 <= i < |t| && t[i].Used? ==> t[i].size <= MAX_SIZE && InTable(t, i - t[i].off)
  }

  /** How often `x` is among the first `n` slots of `src`, if its fingerprint selects `side`. */
  function Sided(src: seq<Entry>, n: nat, x: Item, high: Fp -> bool, side: bool): nat
    requires n <= |src|
  {
    if 0 <= x.home && high(Fp(x.tag, x.home)) == side then CountUpTo(src, n, x) else 0
  }

  /** Nothing is in slot `p` or behind it. */
  predicate EmptyFrom(t: seq<Entry>, p: nat) { forall i :: p <= i < |t| ==> t[i].Unused? }

  /** `t` holds exactly the live entries of the first `n` slots that select `side`, without holes,
      and none of them further back than it was. */
  ghost predicate Holding(t: seq<Entry>, src: seq<Entry>, n: nat, high: Fp -> bool, side: bool)
    requires n <= |src|
  {
    && |t| == |src| && WellFormed(t) && NoHole(t) && EmptyFrom(t, n)
    && forall x: Item {:trigger Count(t, x)} :: 0 < x.size ==> Count(t, x) == Sided(src, n, x, high, side)
  }

  /** As long as the slot an entry had is free, its bucket has room, and it goes there or before. */
  lemma SlotIsRoom(t: seq<Entry>, home: nat, p: nat)
    requires InTable(t, home) && home <= p < home + BUCKET && EmptyFrom(t, p)
    ensures HasRoom(t, home)
  {
    assert t[p].Unused?;
  }

  lemma FillsBefore(t: seq<Entry>, u: seq<Entry>, home: nat, p: nat)
    requires FillsEarly(t, u, home) && home <= p < |t| && EmptyFrom(t, p)
    ensures EmptyFrom(u, p + 1)
  {
    var i: nat :| home <= i < |t| && AllUsed(t, home, i) && u[i].Used? && u == t[i := u[i]];
    assert t[p].Unused?;
  }

  lemma HoldingAdds(t: seq<Entry>, u: seq<Entry>, src: seq<Entry>, n: nat, high: Fp -> bool, side: bool)
    requires n < |src| && WellFormed(src) && src[n].Used? && Holding(t, src, n, high, side)
    requires high(FpAt(src, n)) == side && |u| == |t| && WellFormed(u) && NoHole(u) && EmptyFrom(u, n + 1)
    requires Gains(t, u, Item(src[n].tag, n - src[n].off, src[n].size, src[n].pba))
    ensures Holding(u, src, n + 1, high, side)
  {
    forall x: Item | 0 < x.size ensures Count(u, x) == Sided(src, n + 1, x, high, side) {
      assert Count(t, x) == Sided(src, n, x, high, side);
    }
  }

  lemma HoldingSkips(t: seq<Entry>, src: seq<Entry>, n: nat, high: Fp -> bool, side: bool)
    requires n < |src| && WellFormed(src) && Holding(t, src, n, high, side)
    requires src[n].Used? ==> high(FpAt(src, n)) != side
    ensures Holding(t, src, n + 1, high, side)
  {
    forall x: Item | 0 < x.size ensures Count(t, x) == Sided(src, n + 1, x, high, side) {
      assert Count(t, x) == Sided(src, n, x, high, side);
    }
  }

  /** Slot `p` of `src` goes into `to`, the table its fingerprint selects. The bucket always has
      room: nothing was copied to slot `p` or behind it yet. */
  method CopySlot(src: HopMap, p: nat, to: HopMap, high: Fp -> bool, side: bool) returns (r: Copy)
    requires src.ht != to.ht && p < src.ht.Length && Copyable(src.ht[..])
    requires Holding(to.ht[..], src.ht[..], p, high, side)
    requires src.ht[p].Used? && high(FpAt(src.ht[..], p)) == side
    modifies to.ht
    ensures r.Copied? && Holding(to.ht[..], old(src.ht[..]), p + 1, high, side)
  {
    ghost var s, t := src.ht[..], to.ht[..];
    var e := src.ht[p];
    SlotIsRoom(t, p - e.off, p);
    r := to.CopyEntry(Fp(e.tag, p - e.off), e.size, e.pba);
    FillsBefore(t, to.ht[..], p - e.off, p);
    HoldingAdds(t, to.ht[..], s, p, high, side);
  }

  /** One round: slot `p` is copied if it is used. */
  method GrowSlot(src: HopMap, p: nat, lo: HopMap, hi: HopMap, high: Fp -> bool) returns (ok: bool)
    requires src.ht != lo.ht && src.ht != hi.ht && lo.ht != hi.ht && p < src.ht.Length && Copyable(src.ht[..])
    requires Holding(lo.ht[..], src.ht[..], p, high, false) && Holding(hi.ht[..], src.ht[..], p, high, true)
    modifies lo.ht, hi.ht
    ensures ok && Holding(lo.ht[..], old(src.ht[..]), p + 1, high, false)
    ensures Holding(hi.ht[..], old(src.ht[..]), p + 1, high, true)
  {
    ghost var s, l, h := src.ht[..], lo.ht[..], hi.ht[..];
    var r := Copied;
    if src.ht[p].Used? {
      if high(Fp(src.ht[p].tag, p - src.ht[p].off)) {
        HoldingSkips(l, s, p, high, false);
        r := CopySlot(src, p, hi, high, true);
        assert lo.ht[..] == l;
      } else {
        HoldingSkips(h, s, p, high, true);
        r := CopySlot(src, p, lo, high, false);
        assert hi.ht[..] == h;
      }
    } else {
      HoldingSkips(l, s, p, high, false);
      HoldingSkips(h, s, p, high, true);
    }
    ok := !r.Full?;
  }

  lemma EmptyHolds(t: seq<Entry>, src: seq<Entry>, high: Fp -> bool, side: bool)
    requires |t| == |src| && EmptyFrom(t, 0)
    ensures Holding(t, src, 0, high, side)
  {
    forall x ensures Count(t, x) == 0 {
      CountEmpty(t, |t|, x);
    }
  }

  /** A grow always succeeds, and the two tables hold exactly the live entries of the old one, each
      in the table its fingerprint selects, and without holes: every one of them is found again,
      even if a hole of the old table had hidden it. */
  method Grow(src: HopMap, lo: HopMap, hi: HopMap, high: Fp -> bool) returns (ok: bool)
    requires Copyable(src.ht[..])
    requires src.ht != lo.ht && src.ht != hi.ht && lo.ht != hi.ht
    requires lo.ht.Length == src.ht.Length == hi.ht.Length && EmptyFrom(lo.ht[..], 0) && EmptyFrom(hi.ht[..], 0)
    modifies lo.ht, hi.ht
    ensures ok && Holding(lo.ht[..], src.ht[..], src.ht.Length, high, false)
    ensures Holding(hi.ht[..], src.ht[..], src.ht.Length, high, true)
  {
    ghost var s := src.ht[..];
    EmptyHolds(lo.ht[..], s, high, false);
    EmptyHolds(hi.ht[..], s, high, true);
    ok := true;
    var p := 0;
    while p < src.ht.Length
      invariant 0 <= p <= src.ht.Length && ok && src.ht[..] == s
      invariant Holding(lo.ht[..], s, p, high, false) && Holding(hi.ht[..], s, p, high, true)
    {
      ok := GrowSlot(src, p, lo, hi, high);
      if !ok {
        return;
      }
      p := p + 1;
    }
  }
}
