/** Dividing and mapping capacity: ranges scaled to a new length, addresses mapped through the
    ranges of several devices, and queues given to streams
    (salsa/src/sto-ctlr/scm-dev-properties.c, salsa/src/sto-ctlr/scm-seg-queues.c). */
module Capacity {
  import opened Arith

  function Prefix(s: seq<nat>, n: nat): nat
    requires n <= |s|
  {
    if n == 0 then 0 else Prefix(s, n - 1) + s[n - 1]
  }

  lemma {:induction false} PrefixSame(s: seq<nat>, t: seq<nat>, n: nat)
    requires n <= |s| && n <= |t| && forall i :: 0 <= i < n ==> s[i] == t[i]
    ensures Prefix(s, n) == Prefix(t, n)
  {
    if n > 0 {
      PrefixSame(s, t, n - 1);
    }
  }

  lemma PrefixPush(s: seq<nat>, x: nat)
    ensures Prefix(s + [x], |s| + 1) == Prefix(s, |s|) + x
  {
    PrefixSame(s + [x], s, |s|);
  }

  // ---------------------------------------------------------------- scaling

  /** A range's share of the new length, rounded up. */
  function Share(len: nat, newLen: nat, total: nat): int
    requires 0 < total
  {
    (newLen * len + total - 1) / total
  }

  lemma ShareBounds(len: nat, newLen: nat, total: nat)
    requires 0 < total
    ensures 0 <= Share(len, newLen, total) && newLen * len <= Share(len, newLen, total) * total
    ensures Share(len, newLen, total) * total < newLen * len + total
  {
    MulMonotone(0, newLen, len);
    Divided(newLen * len + total - 1, total);
    DivPositive(newLen * len + total - 1, total);
  }

  const MOD64: nat := 0x1_0000_0000_0000_0000

  /** The share as the code computes it, in 64 bits: product and sum may wrap. */
  function Share64(len: nat, newLen: nat, total: nat): (r: nat)
    requires 0 < total
  {
    var n := (newLen * len + total - 1) % MOD64;
    DivPositive(n, total);
    n / total
  }

  /** Neither the total nor any of the shares is computed with a wrap. */
  predicate NoWrap(ranges: seq<nat>, newLen: nat) {
    var total := Prefix(ranges, |ranges|);
    total < MOD64 && forall i :: 0 <= i < |ranges| ==> newLen * ranges[i] + total - 1 < MOD64
  }

  /** The first `n` shares together. */
  function Shares(ranges: seq<nat>, newLen: nat, total: nat, n: nat): nat
    requires 0 < total && n <= |ranges|
  {
    if n == 0 then 0 else Shares(ranges, newLen, total, n - 1) + Share64(ranges[n - 1], newLen, total)
  }

  lemma Share64Is(len: nat, newLen: nat, total: nat)
    requires 0 < total && newLen * len + total - 1 < MOD64
    ensures Share64(len, newLen, total) == Share(len, newLen, total)
  {
    MulMonotone(0, newLen, len);
    ModSmall(newLen * len + total - 1, MOD64);
  }

  /** Without a wrap the first `n` shares are enough for their part of the new length. */
  lemma {:induction false} SharesCover(ranges: seq<nat>, newLen: nat, total: nat, n: nat)
    requires 0 < total == Prefix(ranges, |ranges|) && NoWrap(ranges, newLen) && n <= |ranges|
    ensures newLen * Prefix(ranges, n) <= Shares(ranges, newLen, total, n) * total
  {
    if n > 0 {
      SharesCover(ranges, newLen, total, n - 1);
      Share64Is(ranges[n - 1], newLen, total);
      ShareBounds(ranges[n - 1], newLen, total);
      Sums(newLen, Prefix(ranges, n - 1), ranges[n - 1]);
      Sums(total, Shares(ranges, newLen, total, n - 1), Share64(ranges[n - 1], newLen, total));
    }
  }

  lemma Sums(x: int, a: int, b: int)
    ensures x * (a + b) == x * a + x * b && (a + b) * x == a * x + b * x
  {
  }

  /** Without a wrap the shares reach the new length. */
  lemma SharesReach(ranges: seq<nat>, newLen: nat, total: nat)
    requires 0 < total == Prefix(ranges, |ranges|) && NoWrap(ranges, newLen)
    ensures newLen <= Shares(ranges, newLen, total, |ranges|)
  {
    SharesCover(ranges, newLen, total, |ranges|);
    var s := Shares(ranges, newLen, total, |ranges|);
    if s < newLen {
      MulMonotone(s + 1, newLen, total);
      Sums(total, s, 1);
    }
  }

  /** Part `i` is the range's share, or what is left if that is less. */
  predicate PartOk(ranges: seq<nat>, parts: seq<nat>, newLen: nat, total: nat, i: nat)
    requires 0 < total && i < |parts| && i < |ranges|
  {
    parts[i] == Min(Share64(ranges[i], newLen, total), newLen - Prefix(parts, i))
  }

  /** The first parts are as they should be, and add up to the shares or to the new length. */
  ghost predicate PartsOk(ranges: seq<nat>, parts: seq<nat>, newLen: nat, total: nat)
    requires 0 < total && |parts| <= |ranges|
  {
    && Prefix(parts, |parts|) == Min(newLen, Shares(ranges, newLen, total, |parts|))
    && forall i {:trigger PartOk(ranges, parts, newLen, total, i)} ::
         0 <= i < |parts| ==> PartOk(ranges, parts, newLen, total, i)
  }

  /** Part `i` is to the new length as the range to all of them, rounded up, or it is all that is left. */
  ghost predicate InProportion(ranges: seq<nat>, parts: seq<nat>, newLen: nat, i: nat)
    requires i < |parts| && i < |ranges|
  {
    var total := Prefix(ranges, |ranges|);
    && (parts[i] - 1) * total < newLen * ranges[i]
    && (newLen * ranges[i] <= parts[i] * total || parts[i] == newLen - Prefix(parts, i))
  }

  lemma PartIsInProportion(ranges: seq<nat>, parts: seq<nat>, newLen: nat, i: nat)
    requires i < |parts| && i < |ranges| && 0 < Prefix(ranges, |ranges|) && NoWrap(ranges, newLen)
    requires PartOk(ranges, parts, newLen, Prefix(ranges, |ranges|), i)
    ensures InProportion(ranges, parts, newLen, i)
  {
    var total := Prefix(ranges, |ranges|);
    var share := Share(ranges[i], newLen, total);
    Share64Is(ranges[i], newLen, total);
    ShareBounds(ranges[i], newLen, total);
    var part: int := parts[i];
    MulMonotone(part, share, total);
    Sums(total, part - 1, 1);
  }

  /** Divides `newLen` among ranges in proportion to their lengths: every part is the range's share
      rounded up, until what is left is less. The parts add up to exactly `newLen` if and only if
      the shares reach it, which they do when nothing wraps. */
  method Scale(ranges: seq<nat>, newLen: nat) returns (parts: seq<nat>)
    requires ranges == [] || 0 < Prefix(ranges, |ranges|) % MOD64
    ensures |parts| == |ranges|
    ensures ranges != [] ==> PartsOk(ranges, parts, newLen, Prefix(ranges, |ranges|) % MOD64)
    ensures ranges != [] && NoWrap(ranges, newLen) ==>
      Prefix(parts, |parts|) == newLen && forall i :: 0 <= i < |parts| ==> InProportion(ranges, parts, newLen, i)
  {
    parts := [];
    if ranges == [] {
      return;
    }
    var size := Size(ranges);
    var total := size % MOD64;
    var rem: nat := newLen;
    for i := 0 to |ranges|
      invariant |parts| == i && Prefix(parts, i) + rem == newLen && PartsOk(ranges, parts, newLen, total)
    {
      var part := Min(Share64(ranges[i], newLen, total), rem);
      PartsGrow(ranges, parts, newLen, total, part);
      parts, rem := parts + [part], rem - part;
    }
    if NoWrap(ranges, newLen) {
      ModSmall(size, MOD64);
      SharesReach(ranges, newLen, total);
      forall i | 0 <= i < |parts| ensures InProportion(ranges, parts, newLen, i) {
        assert PartOk(ranges, parts, newLen, total, i);
        PartIsInProportion(ranges, parts, newLen, i);
      }
    }
  }

  lemma PartsGrow(ranges: seq<nat>, parts: seq<nat>, newLen: nat, total: nat, part: nat)
    requires 0 < total && |parts| < |ranges| && PartsOk(ranges, parts, newLen, total)
    requires part == Min(Share64(ranges[|parts|], newLen, total), newLen - Prefix(parts, |parts|))
    ensures Prefix(parts + [part], |parts| + 1) == Prefix(parts, |parts|) + part
    ensures PartsOk(ranges, parts + [part], newLen, total)
  {
    var more := parts + [part];
    PrefixPush(parts, part);
    forall j | 0 <= j < |more| ensures PartOk(ranges, more, newLen, total, j) {
      PrefixSame(more, parts, j);
      assert j < |parts| ==> PartOk(ranges, parts, newLen, total, j);
    }
  }

  /** The parts of a range of 2^40 bytes do not add up to a length of 2^24. */
  lemma ScaleCanWrap(parts: seq<nat>)
    requires |parts| == 1 && PartsOk([0x100_0000_0000], parts, 0x100_0000, 0x100_0000_0000)
    ensures parts == [0] && Prefix(parts, 1) != 0x100_0000
  {
    assert PartOk([0x100_0000_0000], parts, 0x100_0000, 0x100_0000_0000, 0);
    assert Prefix(parts, 1) == Prefix(parts, 0) + parts[0];
  }

  method Size(ranges: seq<nat>) returns (n: nat)
    ensures n == Prefix(ranges, |ranges|)
  {
    n := 0;
    for i := 0 to |ranges|
      invariant n == Prefix(ranges, i)
    {
      n := n + ranges[i];
    }
  }

  // ---------------------------------------------------------------- ranges of devices

  datatype Range = Range(len: nat, dev: nat)

  /** The length of the first `i` ranges. */
  function Start(rs: seq<Range>, i: nat): nat
    requires i <= |rs|
  {
    if i == 0 then 0 else Start(rs, i - 1) + rs[i - 1].len
  }

  lemma {:induction false} StartMonotone(rs: seq<Range>, i: nat, j: nat)
    requires i <= j <= |rs|
    ensures Start(rs, i) <= Start(rs, j)
    decreases j - i
  {
    if i < j {
      StartMonotone(rs, i, j - 1);
    }
  }

  /** Offset `off` lies in range `i`. */
  ghost predicate InRange(rs: seq<Range>, off: nat, i: nat) { i < |rs| && Start(rs, i) <= off < Start(rs, i + 1) }

  /** The range of an offset, or none if it is beyond all. */
  method Find(rs: seq<Range>, off: nat) returns (i: nat)
    ensures i <= |rs| && (i < |rs| <==> off < Start(rs, |rs|))
    ensures i < |rs| ==> InRange(rs, off, i)
  {
    i := 0;
    var len := 0;
    while i < |rs|
      invariant i <= |rs| && len == Start(rs, i) && len <= off
    {
      if off < len + rs[i].len {
        StartMonotone(rs, i + 1, |rs|);
        return;
      }
      len := len + rs[i].len;
      i := i + 1;
    }
  }

  lemma RangeIsUnique(rs: seq<Range>, off: nat, i: nat, j: nat)
    requires InRange(rs, off, i) && InRange(rs, off, j)
    ensures i == j
  {
    if i < j { StartMonotone(rs, i + 1, j); } else if j < i { StartMonotone(rs, j + 1, i); }
  }

  datatype Pba = Pba(dev: nat, addr: nat)

  /** Where range `i` starts on its device, counting only the ranges directly before it. */
  function Base(rs: seq<Range>, i: nat): nat
    requires i < |rs|
  {
    if i == 0 || rs[i].dev != rs[i - 1].dev then 0 else Base(rs, i - 1) + rs[i - 1].len
  }

  /** The device and address of an offset, found in one pass over the ranges. */
  method LinearMap(rs: seq<Range>, off: nat) returns (found: bool, r: Pba)
    ensures found <==> off < Start(rs, |rs|)
    ensures found ==> exists i: nat :: InRange(rs, off, i) && r == Pba(rs[i].dev, Base(rs, i) + off - Start(rs, i))
  {
    var rem, i := off, 0;
    r := Pba(0, 0);
    while i < |rs|
      invariant 0 <= i <= |rs| && Start(rs, i) <= off && rem == off - Start(rs, i)
      invariant i > 0 ==> r == Pba(rs[i - 1].dev, Base(rs, i - 1))
    {
      if i == 0 || rs[i].dev != r.dev {
        r := Pba(rs[i].dev, 0);
      } else {
        r := Pba(r.dev, r.addr + rs[i - 1].len);
      }
      if rem < rs[i].len {
        StartMonotone(rs, i + 1, |rs|);
        assert InRange(rs, off, i);
        return true, Pba(r.dev, r.addr + rem);
      }
      rem := rem - rs[i].len;
      i := i + 1;
    }
    found := false;
  }

  /** The map as a relation. */
  ghost predicate MapsTo(rs: seq<Range>, off: nat, r: Pba) {
    exists i: nat :: InRange(rs, off, i) && r == Pba(rs[i].dev, Base(rs, i) + off - Start(rs, i))
  }

  /** The ranges of every device are consecutive. */
  ghost predicate Consecutive(rs: seq<Range>) {
    forall i, j, k :: 0 <= i < j < k < |rs| && rs[i].dev == rs[k].dev ==> rs[j].dev == rs[i].dev
  }

  ghost predicate Injective(rs: seq<Range>) {
    forall x, y, r {:trigger MapsTo(rs, x, r), MapsTo(rs, y, r)} :: MapsTo(rs, x, r) && MapsTo(rs, y, r) ==> x == y
  }

  /** Within a run of ranges of one device, addresses follow offsets. */
  lemma {:induction false} BaseInRun(rs: seq<Range>, i: nat, j: nat)
    requires i <= j < |rs| && forall k :: i <= k <= j ==> rs[k].dev == rs[i].dev
    ensures Base(rs, j) == Base(rs, i) + Start(rs, j) - Start(rs, i)
    decreases j - i
  {
    if i < j {
      BaseInRun(rs, i, j - 1);
    }
  }

  lemma ConsecutiveIsInjective(rs: seq<Range>, x: nat, y: nat, r: Pba)
    requires Consecutive(rs) && MapsTo(rs, x, r) && MapsTo(rs, y, r)
    ensures x == y
  {
    var i: nat :| InRange(rs, x, i) && r == Pba(rs[i].dev, Base(rs, i) + x - Start(rs, i));
    var j: nat :| InRange(rs, y, j) && r == Pba(rs[j].dev, Base(rs, j) + y - Start(rs, j));
    if i <= j { SameDevice(rs, i, j); } else { SameDevice(rs, j, i); }
  }

  lemma SameDevice(rs: seq<Range>, i: nat, j: nat)
    requires Consecutive(rs) && i <= j < |rs| && rs[i].dev == rs[j].dev
    ensures Base(rs, j) == Base(rs, i) + Start(rs, j) - Start(rs, i)
  {
    BaseInRun(rs, i, j);
  }

  /** The first range of the run that `i` belongs to. */
  lemma {:induction false} RunStart(rs: seq<Range>, i: nat) returns (s: nat)
    requires i < |rs|
    ensures s <= i && Base(rs, s) == 0 && forall k :: s <= k <= i ==> rs[k].dev == rs[i].dev
    decreases i
  {
    if i == 0 || rs[i].dev != rs[i - 1].dev {
      s := i;
    } else {
      s := RunStart(rs, i - 1);
    }
  }

  /** The run that `i` belongs to starts at address zero of its device. */
  lemma RunMaps(rs: seq<Range>, i: nat) returns (s: nat)
    requires i < |rs| && forall m :: 0 <= m < |rs| ==> 0 < rs[m].len
    ensures s <= i && MapsTo(rs, Start(rs, s), Pba(rs[i].dev, 0)) && forall k :: s <= k <= i ==> rs[k].dev == rs[i].dev
  {
    s := RunStart(rs, i);
    assert InRange(rs, Start(rs, s), s);
  }

  /** A device whose ranges are apart gets two offsets at its address zero. */
  lemma ApartIsNotInjective(rs: seq<Range>, i: nat, j: nat, k: nat)
    requires i < j < k < |rs| && rs[i].dev == rs[k].dev && rs[j].dev != rs[i].dev
    requires forall m :: 0 <= m < |rs| ==> 0 < rs[m].len
    ensures !Injective(rs)
  {
    var s := RunMaps(rs, i);
    var t := RunMaps(rs, k);
    StartsApart(rs, s, t);
    TwoOffsets(rs, Start(rs, s), Start(rs, t), Pba(rs[i].dev, 0));
  }

  lemma StartsApart(rs: seq<Range>, s: nat, t: nat)
    requires s < t <= |rs| && 0 < rs[s].len
    ensures Start(rs, s) < Start(rs, t)
  {
    assert Start(rs, s) < Start(rs, s + 1);
    StartMonotone(rs, s + 1, t);
  }

  lemma TwoOffsets(rs: seq<Range>, x: nat, y: nat, r: Pba)
    requires MapsTo(rs, x, r) && MapsTo(rs, y, r) && x != y
    ensures !Injective(rs)
  {
  }

  /** For ranges that are not empty, the map is injective exactly when every device's ranges are
      consecutive, and its device is always that of the range Find locates. */
  lemma LinearMapIsInjective(rs: seq<Range>)
    requires forall m :: 0 <= m < |rs| ==> 0 < rs[m].len
    ensures Injective(rs) <==> Consecutive(rs)
  {
    if Consecutive(rs) {
      forall x, y, r | MapsTo(rs, x, r) && MapsTo(rs, y, r) ensures x == y {
        ConsecutiveIsInjective(rs, x, y, r);
      }
    } else {
      var i, j, k :| 0 <= i < j < k < |rs| && rs[i].dev == rs[k].dev && rs[j].dev != rs[i].dev;
      ApartIsNotInjective(rs, i, j, k);
    }
  }

  lemma DeviceIsFound(rs: seq<Range>, off: nat, r: Pba, i: nat)
    requires MapsTo(rs, off, r) && InRange(rs, off, i)
    ensures r.dev == rs[i].dev
  {
    var j: nat :| InRange(rs, off, j) && r == Pba(rs[j].dev, Base(rs, j) + off - Start(rs, j));
    RangeIsUnique(rs, off, i, j);
  }
}
