/** SpdkIO's vectored write and read (src/uDepot/io/spdk.cc): a list of buffers is transferred block
    by block. For each block the list is cut short in place, transferred, restored, and then
    advanced, also in place. */
module IoVectors {
  import opened Arith
  import opened Octets

  const LBA: nat := 512

  /** The buffers from `i` on, joined. */
  function Flat(iov: seq<Bytes>, i: nat): Bytes
    requires i <= |iov|
    decreases |iov| - i
  {
    if i == |iov| then [] else iov[i] + Flat(iov, i + 1)
  }

  /** The bytes a device transfers for `len` bytes at `off`: whole logical blocks. */
  function Rounded(off: nat, len: nat): int {
    ((off + len + LBA - 1) / LBA - off / LBA) * LBA
  }

  /** A transfer answers with the length asked for exactly when it is aligned. */
  lemma RoundedIsExact(off: nat, len: nat)
    ensures Rounded(off, len) == len <==> off % LBA == 0 && len % LBA == 0
  {
  }

  /** The blocks it transfers are those that the range touches. */
  lemma RoundedCovers(off: nat, len: nat) returns (lo: nat, hi: nat)
    ensures Rounded(off, len) == hi - lo && lo % 512 == 0 && hi % 512 == 0
    ensures lo <= off < lo + 512 && off + len <= hi < off + len + 512
  {
    lo, hi := off / 512 * 512, (off + len + 511) / 512 * 512;
  }

  lemma {:induction false} FlatSame(a: seq<Bytes>, b: seq<Bytes>, i: nat)
    requires |a| == |b| && i <= |a| && forall k :: i <= k < |a| ==> a[k] == b[k]
    ensures Flat(a, i) == Flat(b, i)
    decreases |a| - i
  {
    if i < |a| {
      FlatSame(a, b, i + 1);
    }
  }

  /** One transfer: where it starts and what it carries. */
  datatype Op = Op(off: nat, data: Bytes)

  function Carried(log: seq<Op>, n: nat): Bytes
    requires n <= |log|
  {
    if n == 0 then [] else Carried(log, n - 1) + log[n - 1].data
  }

  /** Buffers from `i` on are not empty and made of whole logical blocks. */
  ghost predicate Proper(iov: seq<Bytes>, i: nat) {
    forall k :: i <= k < |iov| ==> 0 < |iov[k]| && |iov[k]| % LBA == 0
  }

  /** `data` is what the list holds from `i` to `p`; with the first `n` bytes of the next buffer it is a
      longer beginning of it. */
  lemma FlatNext(s: seq<Bytes>, i: nat, p: nat, data: Bytes, n: nat)
    requires i <= p < |s| && data + Flat(s, p) == Flat(s, i) && n <= |s[p]|
    ensures (data + s[p]) + Flat(s, p + 1) == Flat(s, i)
    ensures |data| + n <= |Flat(s, i)| && data + s[p][..n] == Flat(s, i)[..|data| + n]
  {
    assert Flat(s, p) == s[p] + Flat(s, p + 1);
  }

  /** The list from `i` on, cut to the `room` a block has left, with `bak` the entry that was cut:
      `p` is where the list ends then, and `data` what it holds. */
  method Cut(iov: array<Bytes>, i: nat, room: nat) returns (p: nat, bak: Bytes, data: Bytes)
    requires i < iov.Length && 0 < room && Proper(iov[..], i)
    modifies iov
    ensures i < p <= iov.Length && 0 < |data| == Min(room, |Flat(old(iov[..]), i)|)
    ensures data == Flat(old(iov[..]), i)[..|data|]
    ensures iov[..][p - 1 := bak] == old(iov[..])
  {
    ghost var s := iov[..];
    p, data := i, [];
    bak := iov[i];
    var left := room;
    while 0 < left && p < iov.Length
      invariant i <= p <= iov.Length && left + |data| == room && 0 <= left
      invariant p == i ==> iov[..] == s && data == []
      invariant p > i ==> 0 < |data| && iov[..][p - 1 := bak] == s && (0 < left ==> iov[..] == s)
      invariant if 0 < left then data + Flat(s, p) == Flat(s, i)
                else |data| <= |Flat(s, i)| && data == Flat(s, i)[..|data|]
      decreases iov.Length - p
    {
      bak := iov[p];
      FlatNext(s, i, p, data, Min(left, |s[p]|));
      if left < |iov[p]| {
        iov[p] := iov[p][..left];
      }
      left := left - |iov[p]|;
      data := data + iov[p];
      p := p + 1;
    }
  }

  /** Takes up to `left` bytes off the first buffer, and drops it when it is empty. */
  method AdvanceOne(iov: array<Bytes>, i: nat, left: nat) returns (j: nat, l: nat)
    requires i < iov.Length && 0 < left && left % LBA == 0 && Proper(iov[..], i)
    modifies iov
    ensures i <= j <= iov.Length && Proper(iov[..], j)
    ensures 0 < l <= left && l % LBA == 0 && (left - l) % LBA == 0 && l <= |Flat(old(iov[..]), i)|
    ensures Flat(iov[..], j) == Flat(old(iov[..]), i)[l..]
  {
    ghost var s := iov[..];
    l := Min(left, |iov[i]|);
    assert Flat(s, i) == s[i] + Flat(s, i + 1);
    iov[i] := iov[i][l..];
    FlatSame(s, iov[..], i + 1);
    assert Flat(iov[..], i) == s[i][l..] + Flat(s, i + 1);
    j := if iov[i] == [] then i + 1 else i;
  }

  lemma DropTwice(s: Bytes, a: nat, b: nat)
    requires a + b <= |s|
    ensures s[a..][b..] == s[a + b..]
  {
  }

  /** Takes `n` bytes off the front of the list. */
  method Advance(iov: array<Bytes>, i: nat, n: nat) returns (j: nat)
    requires i <= iov.Length && n <= |Flat(iov[..], i)| && n % LBA == 0 && Proper(iov[..], i)
    modifies iov
    ensures i <= j <= iov.Length && Proper(iov[..], j) && Flat(iov[..], j) == Flat(old(iov[..]), i)[n..]
  {
    ghost var all := Flat(iov[..], i);
    j := i;
    var left := n;
    while 0 < left
      invariant i <= j <= iov.Length && 0 <= left <= n && left % LBA == 0 && Proper(iov[..], j)
      invariant Flat(iov[..], j) == all[n - left..]
      decreases left
    {
      var l;
      j, l := AdvanceOne(iov, j, left);
      DropTwice(all, n - left, l);
      left := left - l;
    }
  }

  /** One block's worth: cut, transferred, restored, advanced. */
  method Block(iov: array<Bytes>, i: nat, at: nat, blk: nat) returns (j: nat, data: Bytes)
    requires i < iov.Length && 0 < blk && blk % LBA == 0 && at % LBA == 0 && Proper(iov[..], i)
    modifies iov
    ensures i <= j <= iov.Length && Proper(iov[..], j)
    ensures data + Flat(iov[..], j) == Flat(old(iov[..]), i)
    ensures 0 < |data| == Min(blk - at % blk, |Flat(old(iov[..]), i)|) && (at + |data|) % LBA == 0
  {
    ghost var s := iov[..];
    WholeFlat(s, i);
    BlockIsWhole(at, blk, |Flat(s, i)|);
    var p, bak;
    p, bak, data := Cut(iov, i, blk - at % blk);
    RoundedIsExact(at, |data|);
    var rc := Rounded(at, |data|);
    assert rc == |data|;
    iov[p - 1] := bak;
    assert iov[..] == s;
    j := Advance(iov, i, |data|);
  }

  /** What goes into the rest of a block is made of whole logical blocks. */
  lemma BlockIsWhole(at: nat, blk: nat, len: nat)
    requires 0 < blk && blk % LBA == 0 && at % LBA == 0 && len % LBA == 0
    ensures var n := Min(blk - at % blk, len); 0 < blk - at % blk && n % LBA == 0 && (at + n) % LBA == 0
  {
    RoomIsWhole(at, blk);
    SumIsWhole(at, blk - at % blk);
    SumIsWhole(at, len);
  }

  lemma SumIsWhole(x: int, y: int)
    requires x % LBA == 0 && y % LBA == 0
    ensures (x + y) % LBA == 0
  {
  }

  lemma RoomIsWhole(at: nat, blk: nat)
    requires 0 < blk && blk % LBA == 0 && at % LBA == 0
    ensures (blk - at % blk) % LBA == 0 && 0 < blk - at % blk
  {
    Divided(at, blk);
    var k := blk / LBA;
    assert blk == k * LBA;
    assert (at / blk) * blk == (at / blk * k) * LBA;
  }

  lemma {:induction false} WholeFlat(iov: seq<Bytes>, i: nat)
    requires i <= |iov| && Proper(iov, i)
    ensures |Flat(iov, i)| % LBA == 0
    decreases |iov| - i
  {
    if i < |iov| {
      WholeFlat(iov, i + 1);
    }
  }

  /** The transfers of `len` bytes are consecutive from `off` on, and each goes to the end of its block
      or of the data. */
  ghost predicate LogOk(log: seq<Op>, off: nat, blk: nat, len: nat)
    requires 0 < blk
  {
    forall k {:trigger OpOk(log, k, off, blk, len)} :: 0 <= k < |log| ==> OpOk(log, k, off, blk, len)
  }

  predicate OpOk(log: seq<Op>, k: nat, off: nat, blk: nat, len: nat)
    requires 0 < blk && k < |log|
  {
    log[k].off == off + |Carried(log, k)| && ToBlockEnd(log[k], blk, len - |Carried(log, k)|)
  }

  predicate ToBlockEnd(op: Op, blk: nat, left: int)
    requires 0 < blk
  {
    0 < |op.data| == Min(blk - op.off % blk, left)
  }

  lemma LogGrows(log: seq<Op>, op: Op, off: nat, blk: nat, len: nat)
    requires 0 < blk && LogOk(log, off, blk, len) && op.off == off + |Carried(log, |log|)|
    requires ToBlockEnd(op, blk, len - |Carried(log, |log|)|)
    ensures LogOk(log + [op], off, blk, len) && Carried(log + [op], |log| + 1) == Carried(log, |log|) + op.data
  {
    CarriedPrefix(log, op, |log|);
    forall k | 0 <= k < |log + [op]| ensures OpOk(log + [op], k, off, blk, len) {
      CarriedPrefix(log, op, k);
      assert k < |log| ==> OpOk(log, k, off, blk, len);
    }
  }

  lemma {:induction false} CarriedPrefix(log: seq<Op>, op: Op, k: nat)
    requires k <= |log|
    ensures Carried(log + [op], k) == Carried(log, k)
  {
    if k > 0 {
      CarriedPrefix(log, op, k - 1);
    }
  }

  /** Transfers the list, one block of `blk` bytes at a time. Of aligned buffers everything is
      transferred, in order, at consecutive offsets; no transfer crosses a block, and none ends before. */
  method Transfer(iov: array<Bytes>, off: nat, blk: nat) returns (rc: int, log: seq<Op>)
    requires 0 < blk && blk % LBA == 0 && off % LBA == 0 && Proper(iov[..], 0)
    modifies iov
    ensures rc == |Flat(old(iov[..]), 0)| && Carried(log, |log|) == Flat(old(iov[..]), 0)
    ensures LogOk(log, off, blk, |Flat(old(iov[..]), 0)|)
  {
    ghost var all := Flat(iov[..], 0);
    log, rc := [], 0;
    var i, at := 0, off;
    while i < iov.Length
      invariant 0 <= i <= iov.Length && Proper(iov[..], i) && at % LBA == 0
      invariant rc == |Carried(log, |log|)| && at == off + rc
      invariant Carried(log, |log|) + Flat(iov[..], i) == all && LogOk(log, off, blk, |all|)
      decreases |all| - rc
    {
      ghost var was, rest := Carried(log, |log|), Flat(iov[..], i);
      var data;
      i, data := Block(iov, i, at, blk);
      assert was + rest == was + data + Flat(iov[..], i);
      LogGrows(log, Op(at, data), off, blk, |all|);
      log, at, rc := log + [Op(at, data)], at + |data|, rc + |data|;
    }
  }
}
