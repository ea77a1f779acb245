/** Striping a flat device over several (src/uDepot/io/trt-spdk-array.cc, src/uDepot/io/spdk.cc):
    blocks go round the devices, in the second layout starting one device further in every
    stripe. */
module Striping {
  import opened Arith
  import opened Octets

  datatype Layout = Plain | Rotated

  /** Block size, number of devices, and the size of each. */
  datatype Array = Array(blk: nat, n: nat, size: nat, layout: Layout)

  ghost predicate Ok(a: Array) { 0 < a.blk && 0 < a.n && exists k: nat :: a.size == k * a.blk }

  /** A position: which device, and where on it. */
  datatype Pos = Pos(dev: nat, off: nat)

  /** A logical offset as stripe, block in the stripe, and byte in the block. */
  datatype Parts = Parts(stripe: nat, chunk: nat, byte: nat)

  /** The code divides by the product of block size and device number to get the stripe. */
  function PartsOf(a: Array, off: nat): (p: Parts)
    requires 0 < a.blk && 0 < a.n
    ensures p.chunk < a.n && p.byte < a.blk
  {
    StripeByProduct(a.blk, a.n, off);
    Parts(off / (a.blk * a.n), (off / a.blk) % a.n, off % a.blk)
  }

  /** That is the number of blocks before it, divided by the device number. */
  lemma StripeByProduct(blk: nat, n: nat, off: nat)
    requires 0 < blk && 0 < n
    ensures 0 < blk * n && off / (blk * n) == off / blk / n && 0 <= off / blk && 0 <= off / (blk * n)
    ensures 0 <= off / blk % n < n && 0 <= off % blk < blk
  {
    DivPositive(off, blk);
    var q, r := off / blk, off % blk;
    DivPositive(q, n);
    var s, c := q / n, q % n;
    Divided(off, blk);
    Divided(q, n);
    MulMonotone(1, n, blk);
    MulMonotone(c, n - 1, blk);
    assert (s * n + c) * blk == s * (blk * n) + c * blk;
    assert (n - 1) * blk == blk * n - blk;
    DivModUnique(off, blk * n, s, c * blk + r);
  }

  function OffsetOf(a: Array, p: Parts): nat { (p.stripe * a.n + p.chunk) * a.blk + p.byte }

  function DeviceOf(a: Array, p: Parts): nat
    requires 0 < a.n
  {
    match a.layout
    case Plain => p.chunk
    case Rotated => (p.chunk + p.stripe) % a.n
  }

  /** Where the code puts logical offset `off`: its device and its offset there. */
  function Locate(a: Array, off: nat): Pos
    requires 0 < a.blk && 0 < a.n
  {
    var p := PartsOf(a, off);
    Pos(DeviceOf(a, p), p.stripe * a.blk + p.byte)
  }

  lemma PartsRoundTrip(a: Array, off: nat)
    requires 0 < a.blk && 0 < a.n
    ensures OffsetOf(a, PartsOf(a, off)) == off
  {
    StripeByProduct(a.blk, a.n, off);
    Divided(off, a.blk);
    Divided(off / a.blk, a.n);
  }

  lemma PartsUnique(a: Array, p: Parts)
    requires 0 < a.blk && 0 < a.n && p.chunk < a.n && p.byte < a.blk
    ensures PartsOf(a, OffsetOf(a, p)) == p
  {
    StripeByProduct(a.blk, a.n, OffsetOf(a, p));
    DivModUnique(OffsetOf(a, p), a.blk, p.stripe * a.n + p.chunk, p.byte);
    DivModUnique(p.stripe * a.n + p.chunk, a.n, p.stripe, p.chunk);
  }

  // ---------------------------------------------------------------- one place each

  /** The chunk of stripe `s` that is on device `d`. */
  function ChunkOn(a: Array, d: nat, s: nat): (c: nat)
    requires 0 < a.n && d < a.n
    ensures c < a.n
  {
    match a.layout
    case Plain => d
    case Rotated => (d - s) % a.n
  }

  lemma ModAddSub(c: int, s: int, n: int)
    requires 0 < n
    ensures ((c + s) % n - s) % n == c % n
  {
    Divided(c + s, n);
    Divided(c, n);
    var q, r := (c + s) / n, c / n;
    assert (c + s) % n - s == c - q * n;
    assert (r - q) * n == r * n - q * n;
    DivModUnique((c + s) % n - s, n, r - q, c % n);
  }

  lemma ChunkOnDevice(a: Array, p: Parts)
    requires 0 < a.n && p.chunk < a.n
    ensures DeviceOf(a, p) < a.n && ChunkOn(a, DeviceOf(a, p), p.stripe) == p.chunk
  {
    if a.layout.Rotated? {
      ModAddSub(p.chunk, p.stripe, a.n);
      ModSmall(p.chunk, a.n);
    }
  }

  lemma DeviceOfChunk(a: Array, d: nat, s: nat, byte: nat)
    requires 0 < a.n && d < a.n
    ensures DeviceOf(a, Parts(s, ChunkOn(a, d, s), byte)) == d
  {
    if a.layout.Rotated? {
      var back: int := s;
      ModAddSub(d, -back, a.n);
      ModSmall(d, a.n);
    }
  }

  /** The logical offset at a position. */
  function Logical(a: Array, pos: Pos): nat
    requires 0 < a.blk && 0 < a.n && pos.dev < a.n
  {
    DivPositive(pos.off, a.blk);
    OffsetOf(a, Parts(pos.off / a.blk, ChunkOn(a, pos.dev, pos.off / a.blk), pos.off % a.blk))
  }

  /** Every logical offset has its own position. */
  lemma LocateIsInjective(a: Array, off: nat)
    requires 0 < a.blk && 0 < a.n
    ensures Locate(a, off).dev < a.n && Logical(a, Locate(a, off)) == off
  {
    var p := PartsOf(a, off);
    ChunkOnDevice(a, p);
    DivModUnique(p.stripe * a.blk + p.byte, a.blk, p.stripe, p.byte);
    PartsRoundTrip(a, off);
  }

  /** Every position is that of a logical offset. */
  lemma LocateIsSurjective(a: Array, pos: Pos)
    requires 0 < a.blk && 0 < a.n && pos.dev < a.n
    ensures Locate(a, Logical(a, pos)) == pos
  {
    DivPositive(pos.off, a.blk);
    var s, byte := pos.off / a.blk, pos.off % a.blk;
    var p := Parts(s, ChunkOn(a, pos.dev, s), byte);
    PartsUnique(a, p);
    DeviceOfChunk(a, pos.dev, s, byte);
    Divided(pos.off, a.blk);
  }

  /** The logical range is exactly what the devices hold. */
  lemma LocateInRange(a: Array, off: nat)
    requires Ok(a)
    ensures off < a.n * a.size <==> Locate(a, off).off < a.size
  {
    var k: nat :| a.size == k * a.blk;
    var p := PartsOf(a, off);
    PartsRoundTrip(a, off);
    StripesBelow(a, p, k);
  }

  lemma StripesBelow(a: Array, p: Parts, k: nat)
    requires 0 < a.blk && 0 < a.n && p.chunk < a.n && p.byte < a.blk && a.size == k * a.blk
    ensures OffsetOf(a, p) < a.n * a.size <==> p.stripe < k
    ensures p.stripe * a.blk + p.byte < a.size <==> p.stripe < k
  {
    BelowMultiple(p.stripe, p.byte, a.blk, k);
    BelowMultiple(p.stripe, p.chunk, a.n, k);
    BelowMultiple(p.stripe * a.n + p.chunk, p.byte, a.blk, k * a.n);
    assert k * a.n * a.blk == a.n * (k * a.blk);
  }

  lemma BelowMultiple(q: nat, r: nat, d: nat, k: nat)
    requires r < d
    ensures q * d + r < k * d <==> q < k
  {
    assert (q + 1) * d == q * d + d;
    if q < k { MulMonotone(q + 1, k, d); } else { MulMonotone(k, q, d); }
  }

  // ---------------------------------------------------------------- which device

  lemma StripeFurther(s: nat, n: nat, c: nat, blk: nat)
    ensures ((s + 1) * n + c) * blk == (s * n + c) * blk + blk * n && (s + 1) * blk == s * blk + blk
    ensures (s * n + (c + 1)) * blk == (s * n + c) * blk + blk
  {
    assert (s + 1) * n == s * n + n;
    assert (s * n + c + n) * blk == (s * n + c) * blk + n * blk;
  }

  /** The first block is at the start of the first device. A stripe further on is a block further on
      the same device, or on the next one in the rotated layout, and the next block of a stripe is
      at the same place of the next device. */
  lemma LocateSteps(a: Array, off: nat)
    requires 0 < a.blk && 0 < a.n
    ensures Locate(a, 0) == Pos(0, 0)
    ensures var p, q := Locate(a, off), Locate(a, off + a.blk * a.n);
            q.off == p.off + a.blk && q.dev == if a.layout.Rotated? then (p.dev + 1) % a.n else p.dev
    ensures (off / a.blk) % a.n < a.n - 1 ==>
              Locate(a, off + a.blk) == Pos((Locate(a, off).dev + 1) % a.n, Locate(a, off).off)
  {
    FirstBlock(a);
    NextStripe(a, off);
    NextBlock(a, off);
  }

  lemma FirstBlock(a: Array)
    requires 0 < a.blk && 0 < a.n
    ensures Locate(a, 0) == Pos(0, 0)
  {
    PartsUnique(a, Parts(0, 0, 0));
    ModSmall(0, a.n);
  }

  lemma NextParts(a: Array, off: nat)
    requires 0 < a.blk && 0 < a.n
    ensures var p := PartsOf(a, off); PartsOf(a, off + a.blk * a.n) == p.(stripe := p.stripe + 1)
  {
    var p := PartsOf(a, off);
    PartsRoundTrip(a, off);
    StripeFurther(p.stripe, a.n, p.chunk, a.blk);
    PartsUnique(a, p.(stripe := p.stripe + 1));
  }

  lemma NextStripe(a: Array, off: nat)
    requires 0 < a.blk && 0 < a.n
    ensures var p, q := Locate(a, off), Locate(a, off + a.blk * a.n);
            q.off == p.off + a.blk && q.dev == if a.layout.Rotated? then (p.dev + 1) % a.n else p.dev
  {
    var p := PartsOf(a, off);
    NextParts(a, off);
    StripeFurther(p.stripe, a.n, p.chunk, a.blk);
    ModAdd(p.chunk + p.stripe, 1, a.n);
  }

  lemma NextBlock(a: Array, off: nat)
    requires 0 < a.blk && 0 < a.n
    ensures (off / a.blk) % a.n < a.n - 1 ==>
              Locate(a, off + a.blk) == Pos((Locate(a, off).dev + 1) % a.n, Locate(a, off).off)
  {
    var p := PartsOf(a, off);
    if p.chunk < a.n - 1 {
      var q := p.(chunk := p.chunk + 1);
      PartsRoundTrip(a, off);
      StripeFurther(p.stripe, a.n, p.chunk, a.blk);
      PartsUnique(a, q);
      ModSmall(p.chunk + 1, a.n);
      ModAdd(p.chunk + p.stripe, 1, a.n);
    }
  }

  // ---------------------------------------------------------------- reading and writing

  /** The rest of a block is contiguous on its device. */
  lemma SameBlock(a: Array, off: nat, j: nat)
    requires 0 < a.blk && 0 < a.n && j < a.blk - PartsOf(a, off).byte
    ensures Locate(a, off + j) == Pos(Locate(a, off).dev, Locate(a, off).off + j)
  {
    var p := PartsOf(a, off);
    PartsRoundTrip(a, off);
    var q := p.(byte := p.byte + j);
    OffsetAdds(a, p, j);
    PartsUnique(a, q);
    assert DeviceOf(a, q) == DeviceOf(a, p);
  }

  lemma OffsetAdds(a: Array, p: Parts, j: nat)
    ensures OffsetOf(a, p.(byte := p.byte + j)) == OffsetOf(a, p) + j
  {
  }

  /** The contents of the devices fit the array. */
  ghost predicate Holds(a: Array, devs: seq<Bytes>) {
    Ok(a) && |devs| == a.n && forall d :: 0 <= d < a.n ==> |devs[d]| == a.size
  }

  /** The flat device: the byte at logical offset `i`. */
  ghost function View(a: Array, devs: seq<Bytes>, i: nat): Byte
    requires Holds(a, devs) && i < a.n * a.size
  {
    LocateInRange(a, i);
    LocateIsInjective(a, i);
    devs[Locate(a, i).dev][Locate(a, i).off]
  }

  function Splice(s: Bytes, at: nat, data: Bytes): Bytes
    requires at + |data| <= |s|
  {
    s[..at] + data + s[at + |data|..]
  }

  /** A write within one block, at its position on its device. */
  lemma BlockInRange(a: Array, devs: seq<Bytes>, off: nat, n: nat)
    requires Holds(a, devs) && n <= a.blk - PartsOf(a, off).byte && off + n <= a.n * a.size && 0 < n
    ensures Locate(a, off).dev < a.n && Locate(a, off).off + n <= a.size
  {
    LocateIsInjective(a, off);
    SameBlock(a, off, n - 1);
    LocateInRange(a, off + n - 1);
  }

  function WriteBlock(a: Array, devs: seq<Bytes>, off: nat, data: Bytes): seq<Bytes>
    requires 0 < a.blk && 0 < a.n && Locate(a, off).dev < |devs|
    requires Locate(a, off).off + |data| <= |devs[Locate(a, off).dev]|
  {
    var p := Locate(a, off);
    devs[p.dev := Splice(devs[p.dev], p.off, data)]
  }

  lemma BlockWritten(a: Array, devs: seq<Bytes>, off: nat, data: Bytes, i: nat)
    requires Holds(a, devs) && 0 < |data| <= a.blk - PartsOf(a, off).byte && off + |data| <= a.n * a.size
    requires Locate(a, off).dev < a.n && Locate(a, off).off + |data| <= a.size && i < a.n * a.size
    ensures Holds(a, WriteBlock(a, devs, off, data))
    ensures View(a, WriteBlock(a, devs, off, data), i)
         == if off <= i < off + |data| then data[i - off] else View(a, devs, i)
  {
    var p, q := Locate(a, off), Locate(a, i);
    LocateInRange(a, i);
    LocateIsInjective(a, i);
    if off <= i < off + |data| {
      SameBlock(a, off, i - off);
    } else if q.dev == p.dev && p.off <= q.off < p.off + |data| {
      var j := q.off - p.off;
      SameBlock(a, off, j);
      LocateIsInjective(a, off + j);
    }
  }

  /** How many of `len` bytes from `off` on are in the first `k` blocks they touch. */
  function InBlocks(blk: nat, off: nat, len: nat, k: nat): (r: nat)
    requires 0 < blk
    ensures r <= len && (len <= k ==> r == len)
    decreases k
  {
    Divided(off, blk);
    var l := Min(len, blk - off % blk);
    if k == 0 then 0 else l + InBlocks(blk, off + l, len - l, k - 1)
  }

  lemma InBlocksStep(blk: nat, off: nat, len: nat, k: nat, l: nat)
    requires 0 < blk && 0 < l <= len && 0 < k && l == Min(len, blk - off % blk)
    ensures InBlocks(blk, off, len, k) == l + InBlocks(blk, off + l, len - l, k - 1)
  {
    Divided(off, blk);
  }

  lemma NextAligned(blk: nat, off: nat)
    requires 0 < blk
    ensures 0 <= off % blk < blk && (off + blk - off % blk) % blk == 0
  {
    Divided(off, blk);
    var q := off / blk;
    assert (q + 1) * blk == q * blk + blk;
    DivModUnique(off + blk - off % blk, blk, q + 1, 0);
  }

  /** `p` is the size of `k` blocks. */
  predicate Size(p: nat, k: nat, blk: nat) { p == k * blk }

  lemma OneLess(p: nat, k: nat, blk: nat)
    requires Size(p, k, blk) && 0 < k
    ensures blk <= p && Size(p - blk, k - 1, blk) && (k == 1 ==> p == blk) && (k > 1 && 0 < blk ==> blk < p)
  {
    assert (k - 1) * blk == k * blk - blk;
    MulMonotone(0, k - 1, blk);
    if k > 1 { MulMonotone(1, k - 1, blk); }
  }

  /** Whole blocks, but for where the first one starts and the last one ends. */
  lemma {:induction false} InBlocksIs(blk: nat, off: nat, len: nat, k: nat, p: nat)
    requires 0 < blk && Size(p, k, blk)
    ensures 0 < k ==> InBlocks(blk, off, len, k) == Min(len, p - off % blk)
    decreases k
  {
    NextAligned(blk, off);
    if k > 0 {
      OneLess(p, k, blk);
      var l := Min(len, blk - off % blk);
      NextAligned(blk, off + l);
      InBlocksIs(blk, off + l, len - l, k - 1, p - blk);
    }
  }

  /** Bytes `lo` to `hi` of the flat device are now those of the data that starts at `off`, and every
      other one is as it was. */
  ghost predicate Written(a: Array, was: seq<Bytes>, now: seq<Bytes>, data: Bytes, off: nat, lo: nat, hi: nat) {
    && Holds(a, was) && Holds(a, now) && off <= lo <= hi <= off + |data|
    && forall i: nat {:trigger View(a, now, i)} :: i < a.n * a.size ==>
         View(a, now, i) == if lo <= i < hi then data[i - off] else View(a, was, i)
  }

  lemma WrittenOn(a: Array, old0: seq<Bytes>, was: seq<Bytes>, now: seq<Bytes>, data: Bytes, off: nat, lo: nat, hi: nat)
    requires Written(a, old0, was, data, off, off, lo) && Written(a, was, now, data, off, lo, hi)
    ensures Written(a, old0, now, data, off, off, hi)
  {
    forall i: nat | i < a.n * a.size
      ensures View(a, now, i) == if off <= i < hi then data[i - off] else View(a, old0, i)
    {
      assert View(a, was, i) == if off <= i < lo then data[i - off] else View(a, old0, i);
    }
  }

  class Device {
    const a: Array
    var devs: seq<Bytes>

    ghost predicate Valid()
      reads this
    {
      Holds(a, devs)
    }

    constructor (a: Array)
      requires Ok(a)
      ensures Valid() && this.a == a
    {
      this.a, devs := a, seq(a.n, _ => seq(a.size, _ => 0));
    }

    /** The `l` bytes from `at` on, which lie in one block. */
    method ReadChunk(at: nat, l: nat) returns (b: Bytes)
      requires Valid() && at + l <= a.n * a.size && 0 < l <= a.blk - PartsOf(a, at).byte
      ensures |b| == l && forall i :: 0 <= i < l ==> b[i] == View(a, devs, at + i)
    {
      BlockInRange(a, devs, at, l);
      var p := Locate(a, at);
      b := devs[p.dev][p.off..p.off + l];
      forall i | 0 <= i < l ensures b[i] == View(a, devs, at + i) {
        SameBlock(a, at, i);
      }
    }

    /** Reads block by block: the bytes of the flat device. */
    method PRead(len: nat, off: nat) returns (out: Bytes)
      requires Valid() && off + len <= a.n * a.size
      ensures |out| == len && forall i :: 0 <= i < len ==> out[i] == View(a, devs, off + i)
    {
      out := [];
      while |out| < len
        invariant |out| <= len && forall i :: 0 <= i < |out| ==> out[i] == View(a, devs, off + i)
        decreases len - |out|
      {
        var l := Min(len - |out|, a.blk - (off + |out|) % a.blk);
        var b := ReadChunk(off + |out|, l);
        ghost var n := |out|;
        assert forall i :: 0 <= i < l ==> b[i] == View(a, devs, off + (n + i));
        out := out + b;
      }
    }

    /** Writes bytes `tot` to `tot + l` of the data, which lie in one block. */
    method WriteChunk(data: Bytes, ghost off: nat, tot: nat, l: nat, at: nat)
      requires Valid() && at == off + tot && tot + l <= |data| && off + |data| <= a.n * a.size
      requires 0 < l <= a.blk - PartsOf(a, at).byte
      modifies this
      ensures Valid()
      ensures Written(a, old(devs), devs, data, off, at, at + l)
    {
      BlockInRange(a, devs, at, l);
      ghost var was := devs;
      var p := Locate(a, at);
      var chunk := data[tot..tot + l];
      devs := devs[p.dev := Splice(devs[p.dev], p.off, chunk)];
      forall i: nat | i < a.n * a.size
        ensures Holds(a, devs) && View(a, devs, i) == if at <= i < at + l then data[i - off] else View(a, was, i)
      {
        BlockWritten(a, was, at, chunk, i);
      }
      BlockWritten(a, was, at, chunk, at);
    }

    /** Writes what fits in the block of `at`. */
    method WriteNext(data: Bytes, ghost off: nat, tot: nat, at: nat) returns (l: nat)
      requires Valid() && at == off + tot && tot < |data| && off + |data| <= a.n * a.size
      modifies this
      ensures Valid() && 0 < l <= |data| - tot && l == Min(|data| - tot, a.blk - at % a.blk)
      ensures Written(a, old(devs), devs, data, off, at, at + l)
    {
      Divided(at, a.blk);
      l := Min(|data| - tot, a.blk - at % a.blk);
      WriteChunk(data, off, tot, l, at);
    }

    /** Writes block by block; the device fails after `good` blocks. What was written is the part of
        the data in the first `good` blocks, at the logical offsets asked for; every other byte
        of the flat device is as before. */
    method PWrite(data: Bytes, off: nat, good: nat) returns (tot: nat)
      requires Valid() && off + |data| <= a.n * a.size
      modifies this
      ensures Valid() && tot == InBlocks(a.blk, off, |data|, good) && (|data| <= good ==> tot == |data|)
      ensures Written(a, old(devs), devs, data, off, off, off + tot)
    {
      tot := 0;
      var at, left := off, good;
      ghost var goal := InBlocks(a.blk, off, |data|, good);
      while tot < |data|
        invariant Valid() && tot <= |data| && at == off + tot
        invariant tot + InBlocks(a.blk, at, |data| - tot, left) == goal
        invariant Written(a, old(devs), devs, data, off, off, at)
        decreases |data| - tot
      {
        if left == 0 {
          return;
        }
        ghost var was := devs;
        var l := WriteNext(data, off, tot, at);
        InBlocksStep(a.blk, at, |data| - tot, left, l);
        WrittenOn(a, old(devs), was, devs, data, off, at, at + l);
        tot, at, left := tot + l, at + l, left - 1;
        assert tot + InBlocks(a.blk, at, |data| - tot, left) == goal;
      }
    }
  }

  /** What was written is read back, through either layout. */
  method RoundTrip(d: Device, data: Bytes, off: nat) returns (out: Bytes)
    requires d.Valid() && off + |data| <= d.a.n * d.a.size
    modifies d
    ensures d.Valid() && out == data
  {
    var tot := d.PWrite(data, off, |data|);
    out := d.PRead(|data|, off);
    forall i | 0 <= i < |data| ensures out[i] == data[i] {
      assert View(d.a, d.devs, off + i) == data[i];
    }
  }
}
