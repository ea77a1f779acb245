/** Reading an Mbuff chunk by chunk: the iterator, copies and comparisons
    (src/uDepot/mbuff.cc, src/include/uDepot/mbuff.hh, src/include/uDepot/hash-function.hh).

    An iterator borrows the buffer of the node it stands at. Readers hand every buffer back:
    afterwards the lists are as they were. */
module MbuffReaders {
  import opened Arith
  import opened Octets
  import opened MbuffLinks
  import opened MbuffSpec
  import opened Mbuffs

  const EINVAL: int := 22

  /** The list `ns` with the buffer of node `k` lent. */
  function Lent(ns: seq<Node>, k: nat): seq<Node>
    requires k < |ns|
  {
    ns[k := ns[k].(lent := true)]
  }

  /** Byte `pos` of the string is byte `r` of node `k`. */
  ghost predicate Locates(ns: seq<Node>, pos: nat, k: nat, r: nat) {
    Legit(ns) && k < |ns| && r < ns[k].len && |JoinTo(ns, k)| + r == pos
  }

  lemma {:induction false} JoinGrows(ns: seq<Node>, k: nat, n: nat)
    requires Legit(ns) && k <= n <= |ns|
    ensures JoinTo(ns, k) <= JoinTo(ns, n)
    decreases n - k
  {
    if k < n {
      JoinGrows(ns, k, n - 1);
    }
  }

  /** A stretch of a node is a stretch of the string. */
  lemma LocatesBytes(ns: seq<Node>, pos: nat, k: nat, r: nat, n: nat)
    requires Locates(ns, pos, k, r) && r + n <= ns[k].len
    ensures pos + n <= |Join(ns)| && Join(ns)[pos..pos + n] == ns[k].data[ns[k].off + r..ns[k].off + r + n]
  {
    JoinReaches(ns, k);
    SliceOfPrefix(Join(ns), JoinTo(ns, k), Valids(ns[k]), r, n);
    SliceOfSlice(ns[k].data, ns[k].off, ns[k].len, r, n);
  }

  lemma JoinReaches(ns: seq<Node>, k: nat)
    requires Legit(ns) && k < |ns|
    ensures JoinTo(ns, k) + Valids(ns[k]) <= Join(ns)
  {
    JoinGrows(ns, k + 1, |ns|);
  }

  lemma SliceOfPrefix(s: Bytes, a: Bytes, v: Bytes, r: nat, n: nat)
    requires a + v <= s && r + n <= |v|
    ensures |a| + r + n <= |s| && s[|a| + r..|a| + r + n] == v[r..r + n]
  {
    assert s[..|a + v|] == a + v;
  }

  method FindNode(mb: Mbuff, off: nat) returns (node: Link?, r: nat, ghost k: nat)
    requires mb.Valid()
    ensures node != null <==> off < |mb.Contents()|
    ensures node != null ==> Locates(mb.list, off, k, r) && k < |mb.links| && node == mb.links[k]
  {
    node, r, k := mb.head, off, 0;
    while node != null && node.n.len <= r
      invariant k <= |mb.list| && |JoinTo(mb.list, k)| + r == off && node == Ref(mb.links, null, k)
      decreases |mb.list| - k
    {
      assert NextIs(mb.links, null, k) && HasFields(mb.links, mb.list, k);
      node, r, k := node.next, r - node.n.len, k + 1;
    }
    if node != null {
      assert HasFields(mb.links, mb.list, k);
      LocatesBytes(mb.list, off, k, r, 1);
    }
  }

  class Iterator {
    var node: Link?
    var len: nat
    var chunk: Chunk
    ghost var k: nat

    constructor ()
      ensures node == null
    {
      node, len, chunk, k := null, 0, Invalid, 0;
    }

    /** The iterator has `len` bytes from `pos` on ahead of it. It stands at node `k` and holds
        the buffer with the first of the bytes; `ns` is the list when no buffer is lent. */
    ghost predicate On(mb: Mbuff, ns: seq<Node>, pos: nat)
      reads this, mb, mb.repr
    {
      match chunk
      case Invalid => false
      case Chunk(data, at, n) =>
        && mb.Linked() && k < |mb.links| && node == mb.links[k]
        && Legit(ns) && k < |ns| && mb.list == Lent(ns, k) && 0 < len && pos + len <= |Join(ns)|
        && data == ns[k].data && ns[k].off <= at && Locates(ns, pos, k, at - ns[k].off)
        && n == Min(len, End(ns[k]) - at)
    }

    /** Either done, with all buffers back, or on the next chunk. */
    ghost predicate At(mb: Mbuff, ns: seq<Node>, pos: nat)
      reads this, mb, mb.repr
    {
      match chunk
      case Invalid => node == null && mb.Linked() && mb.list == ns && len == 0
      case Chunk(_, _, _) => On(mb, ns, pos)
    }

    /** Starts at byte `off`, which exists. */
    method Begin(mb: Mbuff, off: nat, n: nat)
      requires mb.Valid() && 0 < n && off + n <= |mb.Contents()|
      modifies this, mb`list, mb.repr`n
      ensures On(mb, old(mb.list), off) && len == n
    {
      var r;
      node, r, k := FindNode(mb, off);
      len := n;
      Take(mb, r);
    }

    /** Borrows the buffer of the node, from byte `r` of its valid bytes on. */
    method Take(mb: Mbuff, r: nat)
      requires mb.Linked() && k < |mb.links| && node == mb.links[k] && k < |mb.list| && r < mb.list[k].len
      modifies this`chunk, mb`list, mb.repr`n
      ensures mb.Linked() && mb.list == Lent(old(mb.list), k)
      ensures var n := old(mb.list)[k];
              chunk == Chunk(n.data, n.off + r, Min(len, n.len - r))
    {
      assert HasFields(mb.links, mb.list, k);
      var n := node.n;
      chunk := Chunk(n.data, n.off + r, Min(len, n.len - r));
      mb.SetNode(node, k, n.(lent := true));
    }

    /** Returns the buffer. */
    method GiveBack(mb: Mbuff, ghost ns: seq<Node>)
      requires mb.Linked() && k < |mb.links| && node == mb.links[k] && k < |ns| && mb.list == Lent(ns, k)
      requires !ns[k].lent && chunk.Chunk? && chunk.data == ns[k].data
      modifies this`chunk, mb`list, mb.repr`n
      ensures mb.Linked() && mb.list == ns && chunk == Invalid
    {
      assert HasFields(mb.links, mb.list, k);
      mb.SetNode(node, k, node.n.(data := chunk.data, lent := false));
      chunk := Invalid;
    }

    method Next(mb: Mbuff, ghost ns: seq<Node>, ghost pos: nat)
      requires On(mb, ns, pos) && forall i :: 0 <= i < |ns| ==> !ns[i].lent
      modifies this, mb`list, mb.repr`n
      ensures At(mb, ns, pos + old(chunk.len)) && len == old(len) - old(chunk.len)
    {
      var n := chunk.len;
      GiveBack(mb, ns);
      len := len - n;
      if len == 0 {
        node := null;
        return;
      }
      NextLocates(ns, pos, k, pos + n - |JoinTo(ns, k)|);
      assert NextIs(mb.links, null, k);
      node, k := node.next, k + 1;
      Take(mb, 0);
    }

    method Stop(mb: Mbuff, ghost ns: seq<Node>, ghost pos: nat)
      requires At(mb, ns, pos) && forall i :: 0 <= i < |ns| ==> !ns[i].lent
      modifies this, mb`list, mb.repr`n
      ensures node == null && mb.Linked() && mb.list == ns
    {
      if node != null {
        GiveBack(mb, ns);
        node, len := null, 0;
      }
    }
  }

  /** The byte after the last of node `k` is the first of the next node, which is not empty. */
  lemma NextLocates(ns: seq<Node>, pos: nat, k: nat, r: nat)
    requires Legit(ns) && k < |ns| && r == ns[k].len && pos < |JoinTo(ns, k)| + r < |Join(ns)|
    ensures Locates(ns, |JoinTo(ns, k)| + r, k + 1, 0)
  {
    assert |JoinTo(ns, k + 1)| == |JoinTo(ns, k)| + r;
    assert |JoinTo(ns, k + 2)| == |JoinTo(ns, k + 1)| + ns[k + 1].len;
  }

  // ---------------------------------------------------------------- copy and compare

  /** The bytes a partial read of `len` bytes at `off` returns. */
  function Slice(s: Bytes, off: nat, len: nat): Bytes {
    if |s| < off then [] else s[off..off + Min(len, |s| - off)]
  }

  lemma SliceGrows(s: Bytes, off: nat, pos: nat, m: nat)
    requires off <= pos <= pos + m <= |s|
    ensures s[off..pos] + s[pos..pos + m] == s[off..pos + m]
  {
  }

  /** Copies the current chunk and moves on. */
  method CopyChunk(it: Iterator, mb: Mbuff, ghost ns: seq<Node>, ghost pos: nat) returns (b: Bytes)
    requires it.On(mb, ns, pos) && forall i :: 0 <= i < |ns| ==> !ns[i].lent
    modifies it, mb`list, mb.repr`n
    ensures 0 < |b| <= old(it.len) && it.len == old(it.len) - |b| && it.At(mb, ns, pos + |b|)
    ensures pos + |b| <= |Join(ns)| && b == Join(ns)[pos..pos + |b|]
  {
    LocatesBytes(ns, pos, it.k, it.chunk.at - ns[it.k].off, it.chunk.len);
    b := it.chunk.data[it.chunk.at..it.chunk.at + it.chunk.len];
    it.Next(mb, ns, pos);
  }

  method CopyToBuffer(mb: Mbuff, off: nat, len: nat) returns (out: Bytes)
    requires mb.Valid()
    modifies mb`list, mb.repr`n
    ensures mb.Valid() && mb.list == old(mb.list) && out == Slice(mb.Contents(), off, len)
  {
    var n := Min(len, mb.validSize - off);
    if n <= 0 {
      return [];
    }
    ghost var ns := mb.list;
    var it := new Iterator();
    it.Begin(mb, off, n);
    out := CopyRest(it, mb, ns, off, n);
  }

  /** Copies the current chunk behind what was copied so far. */
  method CopyMore(it: Iterator, mb: Mbuff, ghost ns: seq<Node>, ghost off: nat, done: Bytes) returns (out: Bytes)
    requires it.On(mb, ns, off + |done|) && forall i :: 0 <= i < |ns| ==> !ns[i].lent
    requires off + |done| <= |Join(ns)| && done == Join(ns)[off..off + |done|]
    modifies it, mb`list, mb.repr`n
    ensures |done| < |out| && it.len + |out| == old(it.len) + |done| && it.At(mb, ns, off + |out|)
    ensures off + |out| <= |Join(ns)| && out == Join(ns)[off..off + |out|]
  {
    var b := CopyChunk(it, mb, ns, off + |done|);
    SliceGrows(Join(ns), off, off + |done|, |b|);
    out := done + b;
  }

  /** Copies what the iterator has ahead of it. */
  method CopyRest(it: Iterator, mb: Mbuff, ghost ns: seq<Node>, ghost off: nat, ghost n: nat) returns (out: Bytes)
    requires it.On(mb, ns, off) && it.len == n && forall i :: 0 <= i < |ns| ==> !ns[i].lent
    modifies it, mb`list, mb.repr`n
    ensures mb.Linked() && mb.list == ns && off + n <= |Join(ns)| && out == Join(ns)[off..off + n]
  {
    out := [];
    while it.node != null
      invariant it.len + |out| == n && off + |out| <= |Join(ns)| && out == Join(ns)[off..off + |out|]
      invariant it.At(mb, ns, off + |out|)
      decreases it.len
    {
      out := CopyMore(it, mb, ns, off, out);
    }
  }

  predicate Same(s: Bytes, i: nat, t: Bytes, j: nat, x: nat) {
    i + x < |s| && j + x < |t| && s[i + x] == t[j + x]
  }

  /** The strings agree on `n` bytes, from `i` in one and from `j` in the other. */
  ghost predicate Agree(s: Bytes, i: nat, t: Bytes, j: nat, n: nat) {
    forall x: nat {:trigger Same(s, i, t, j, x)} :: x < n ==> Same(s, i, t, j, x)
  }

  lemma AgreeIsEqual(s: Bytes, i: nat, t: Bytes, j: nat, n: nat)
    requires i + n <= |s| && j + n <= |t|
    ensures Agree(s, i, t, j, n) <==> s[i..i + n] == t[j..j + n]
  {
    var a, b := s[i..i + n], t[j..j + n];
    assert forall x: nat :: x < n ==> a[x] == s[i + x] && b[x] == t[j + x];
    if Agree(s, i, t, j, n) {
      forall x: nat | x < n ensures a[x] == b[x] {
        assert Same(s, i, t, j, x);
      }
    }
  }

  lemma AgreeSplits(s: Bytes, i: nat, t: Bytes, j: nat, m: nat, n: nat)
    ensures Agree(s, i, t, j, m + n) <==> Agree(s, i, t, j, m) && Agree(s, i + m, t, j + m, n)
  {
    assert forall x: nat {:trigger Same(s, i + m, t, j + m, x)} ::
        Same(s, i + m, t, j + m, x) == Same(s, i, t, j, m + x);
    if Agree(s, i, t, j, m) && Agree(s, i + m, t, j + m, n) {
      forall x: nat | x < m + n ensures Same(s, i, t, j, x) {
        assert m <= x ==> Same(s, i + m, t, j + m, x - m);
      }
    }
  }

  /** Comparing the next `n` of `len` bytes decides whether to go on. */
  lemma AgreeStep(s: Bytes, i: nat, t: Bytes, j: nat, m: nat, n: nat, len: nat, same: bool)
    requires m + n <= len && i + len <= |s| && j + len <= |t| && Agree(s, i, t, j, m)
    requires same <==> Agree(s, i + m, t, j + m, n)
    ensures if same then Agree(s, i, t, j, m + n) else !Agree(s, i, t, j, len)
  {
    AgreeSplits(s, i, t, j, m, n);
    AgreeSplits(s, i, t, j, m + n, len - m - n);
  }

  /** Compares a stretch of the string with a buffer. */
  method MemCompareBuffer(mb: Mbuff, off: nat, buff: Bytes, len: nat) returns (r: int)
    requires mb.Valid() && len <= |buff|
    modifies mb`list, mb.repr`n
    ensures mb.Valid() && mb.list == old(mb.list)
    ensures len == 0 ==> r == 0
    ensures len > 0 ==> r == if |mb.Contents()| < off + len then EINVAL
                             else if mb.Contents()[off..off + len] == buff[..len] then 0 else 1
  {
    if len == 0 {
      return 0;
    }
    if mb.validSize < off + len {
      return EINVAL;
    }
    var it := new Iterator();
    ghost var ns := mb.list;
    it.Begin(mb, off, len);
    r := CompareBuffer(it, mb, ns, off, buff, len);
  }

  /** Compares the current chunk, `done` bytes having been equal. */
  method CompareChunk(it: Iterator, mb: Mbuff, ghost ns: seq<Node>, ghost off: nat, buff: Bytes, done: nat, len: nat)
      returns (n: nat, same: bool)
    requires it.On(mb, ns, off + done) && forall i :: 0 <= i < |ns| ==> !ns[i].lent
    requires done + it.len == len <= |buff| && off + len <= |Join(ns)| && Agree(Join(ns), off, buff, 0, done)
    modifies it, mb`list, mb.repr`n
    ensures 0 < n <= len - done && it.len == len - done - n && it.At(mb, ns, off + (done + n))
    ensures same ==> Agree(Join(ns), off, buff, 0, done + n)
    ensures !same ==> !Agree(Join(ns), off, buff, 0, len)
  {
    var b := CopyChunk(it, mb, ns, off + done);
    CompareStep(Join(ns), off, buff, done, b, len);
    n, same := |b|, b == buff[done..done + |b|];
  }

  /** Comparing the copy `b` of the next bytes with the buffer decides whether to go on. */
  lemma CompareStep(s: Bytes, off: nat, buff: Bytes, done: nat, b: Bytes, len: nat)
    requires done + |b| <= len <= |buff| && off + len <= |s| && Agree(s, off, buff, 0, done)
    requires b == s[off + done..off + done + |b|]
    ensures b == buff[done..done + |b|] ==> Agree(s, off, buff, 0, done + |b|)
    ensures b != buff[done..done + |b|] ==> !Agree(s, off, buff, 0, len)
  {
    AgreeIsEqual(s, off + done, buff, done, |b|);
    AgreeStep(s, off, buff, 0, done, |b|, len, b == buff[done..done + |b|]);
  }

  method CompareBuffer(it: Iterator, mb: Mbuff, ghost ns: seq<Node>, ghost off: nat, buff: Bytes, len: nat)
      returns (r: int)
    requires it.On(mb, ns, off) && it.len == len <= |buff| && forall i :: 0 <= i < |ns| ==> !ns[i].lent
    modifies it, mb`list, mb.repr`n
    ensures mb.Linked() && mb.list == ns && off + len <= |Join(ns)|
    ensures r == if Join(ns)[off..off + len] == buff[..len] then 0 else 1
  {
    AgreeIsEqual(Join(ns), off, buff, 0, len);
    var done, same := 0, true;
    while it.node != null && same
      invariant 0 <= done <= len && it.len + done == len && it.At(mb, ns, off + done)
      invariant if same then Agree(Join(ns), off, buff, 0, done) else !Agree(Join(ns), off, buff, 0, len)
      decreases it.len
    {
      var n;
      n, same := CompareChunk(it, mb, ns, off, buff, done, len);
      done := done + n;
    }
    it.Stop(mb, ns, off + done);
    r := if same then 0 else 1;
  }

  /** Where a comparison stands in one Mbuff: `left` bytes to go, the next one at `at`, which is
      byte `c` of the chunk at `pos`. */
  ghost predicate Stands(it: Iterator, mb: Mbuff, ns: seq<Node>, pos: nat, c: nat, at: nat, left: nat)
    reads it, mb, mb.repr
  {
    match it.chunk
    case Invalid => it.At(mb, ns, pos) && pos == at && c == left == 0
    case Chunk(_, _, n) => it.On(mb, ns, pos) && pos + c == at && it.len - c == left && c < n
  }

  /** With nothing left to compare, the buffers are back. */
  lemma StandsDone(it: Iterator, mb: Mbuff, ns: seq<Node>, pos: nat, c: nat, at: nat)
    requires Stands(it, mb, ns, pos, c, at, 0)
    ensures mb.Linked() && mb.list == ns
  {
  }

  /** `n` bytes of the chunk from `c` on were used; the next chunk follows when it is used up. */
  method Advance(it: Iterator, mb: Mbuff, ghost ns: seq<Node>, ghost pos: nat, c: nat, n: nat,
                 ghost at: nat, ghost left: nat) returns (c': nat, ghost pos': nat)
    requires Stands(it, mb, ns, pos, c, at, left) && forall i :: 0 <= i < |ns| ==> !ns[i].lent
    requires it.chunk.Chunk? && 0 < n && c + n <= it.chunk.len
    modifies it, mb`list, mb.repr`n
    ensures n <= left && Stands(it, mb, ns, pos', c', at + n, left - n)
  {
    c', pos' := c + n, pos;
    if c' == it.chunk.len {
      pos' := pos + it.chunk.len;
      it.Next(mb, ns, pos);
      c' := 0;
    }
  }

  /** The bytes of the chunk from `c` on. */
  lemma ChunkBytes(it: Iterator, mb: Mbuff, ns: seq<Node>, pos: nat, c: nat, n: nat)
    requires it.On(mb, ns, pos) && c + n <= it.chunk.len
    ensures pos + c + n <= |Join(ns)|
    ensures it.chunk.data[it.chunk.at + c..it.chunk.at + c + n] == Join(ns)[pos + c..pos + c + n]
  {
    var r := it.chunk.at - ns[it.k].off;
    LocatesBytes(ns, pos, it.k, r, c + n);
    var s, d, x := Join(ns), ns[it.k].data, ns[it.k].off + r;
    assert s[pos..pos + c + n][c..] == s[pos + c..pos + c + n];
    assert d[x..x + c + n][c..] == d[x + c..x + c + n];
  }

  /** Compares stretches of two Mbuffs, however each is divided into chunks. */
  method MemCompare(a: Mbuff, aOff: nat, b: Mbuff, bOff: nat, len: nat) returns (r: int)
    requires a.Valid() && b.Valid() && a != b && a.repr !! b.repr && 0 < len
    modifies a`list, b`list, a.repr`n, b.repr`n
    ensures a.Valid() && b.Valid() && a.list == old(a.list) && b.list == old(b.list)
    ensures r == if |a.Contents()| < aOff + len || |b.Contents()| < bOff + len then EINVAL
                 else if a.Contents()[aOff..aOff + len] == b.Contents()[bOff..bOff + len] then 0 else 1
  {
    if a.validSize < aOff + len {
      return EINVAL;
    }
    ghost var ns := a.list;
    var i := new Iterator();
    i.Begin(a, aOff, len);
    r := CompareWith(i, a, ns, aOff, b, bOff, len);
  }

  /** The iterator of the first Mbuff is set up; that of the second may turn out impossible. */
  method CompareWith(i: Iterator, a: Mbuff, ghost ns: seq<Node>, ghost aOff: nat, b: Mbuff, bOff: nat, len: nat)
      returns (r: int)
    requires a != b && a.repr !! b.repr && i.On(a, ns, aOff) && i.len == len && b.Valid()
    requires forall x :: 0 <= x < |ns| ==> !ns[x].lent
    modifies i, a`list, b`list, a.repr`n, b.repr`n
    ensures a.Linked() && b.Linked() && a.list == ns && b.list == old(b.list) && aOff + len <= |Join(ns)|
    ensures r == if |b.Contents()| < bOff + len then EINVAL
                 else if Join(ns)[aOff..aOff + len] == b.Contents()[bOff..bOff + len] then 0 else 1
  {
    ghost var ms := b.list;
    if b.validSize < bOff + len {
      i.Stop(a, ns, aOff);
      return EINVAL;
    }
    var j := new Iterator();
    j.Begin(b, bOff, len);
    r := CompareFrom(i, a, ns, aOff, j, b, ms, bOff, len);
    AgreeIsEqual(Join(ns), aOff, Join(ms), bOff, len);
  }

  /** Whether the next `n` bytes of both current chunks are equal. */
  method EqualChunks(i: Iterator, a: Mbuff, ghost ns: seq<Node>, ghost p: nat, c: nat,
                     j: Iterator, b: Mbuff, ghost ms: seq<Node>, ghost q: nat, d: nat,
                     n: nat, ghost x: nat, ghost y: nat) returns (same: bool)
    requires i.On(a, ns, p) && j.On(b, ms, q) && c + n <= i.chunk.len && d + n <= j.chunk.len
    requires x == p + c && y == q + d
    ensures x + n <= |Join(ns)| && y + n <= |Join(ms)|
    ensures same <==> Agree(Join(ns), x, Join(ms), y, n)
  {
    ChunkBytes(i, a, ns, p, c, n);
    ChunkBytes(j, b, ms, q, d, n);
    var u := i.chunk.data[i.chunk.at + c..i.chunk.at + c + n];
    var v := j.chunk.data[j.chunk.at + d..j.chunk.at + d + n];
    AgreeIsEqual(Join(ns), x, Join(ms), y, n);
    same := u == v;
  }

  /** `n` bytes of the current chunk of `i` were used; this does not concern `j`. */
  method AdvanceBeside(i: Iterator, a: Mbuff, ghost ns: seq<Node>, ghost p: nat, c: nat, ghost x: nat, ghost left: nat,
                       ghost j: Iterator, ghost b: Mbuff, ghost ms: seq<Node>, ghost q: nat, ghost d: nat,
                       ghost y: nat, ghost left': nat, n: nat) returns (c': nat, ghost p': nat)
    requires a != b && a.repr !! b.repr && i != j
    requires Stands(i, a, ns, p, c, x, left) && Stands(j, b, ms, q, d, y, left')
    requires i.chunk.Chunk? && 0 < n && c + n <= i.chunk.len && forall x :: 0 <= x < |ns| ==> !ns[x].lent
    modifies i, a`list, a.repr`n
    ensures n <= left && Stands(i, a, ns, p', c', x + n, left - n) && Stands(j, b, ms, q, d, y, left')
  {
    c', p' := Advance(i, a, ns, p, c, n, x, left);
  }

  /** `n` bytes of both current chunks were used. */
  method AdvanceBoth(i: Iterator, a: Mbuff, ghost ns: seq<Node>, ghost p: nat, c: nat, ghost x: nat,
                     j: Iterator, b: Mbuff, ghost ms: seq<Node>, ghost q: nat, d: nat, ghost y: nat,
                     n: nat, ghost left: nat) returns (c': nat, ghost p': nat, d': nat, ghost q': nat)
    requires a != b && a.repr !! b.repr && i != j
    requires Stands(i, a, ns, p, c, x, left) && Stands(j, b, ms, q, d, y, left)
    requires i.chunk.Chunk? && j.chunk.Chunk? && 0 < n && c + n <= i.chunk.len && d + n <= j.chunk.len
    requires (forall x :: 0 <= x < |ns| ==> !ns[x].lent) && (forall x :: 0 <= x < |ms| ==> !ms[x].lent)
    modifies i, j, a`list, b`list, a.repr`n, b.repr`n
    ensures n <= left && Stands(i, a, ns, p', c', x + n, left - n) && Stands(j, b, ms, q', d', y + n, left - n)
  {
    c', p' := AdvanceBeside(i, a, ns, p, c, x, left, j, b, ms, q, d, y, left, n);
    d', q' := AdvanceBeside(j, b, ms, q, d, y, left, i, a, ns, p', c', x + n, left - n, n);
  }

  /** Returns the buffers of both current chunks. */
  method StopBoth(i: Iterator, a: Mbuff, ghost ns: seq<Node>, ghost p: nat,
                  j: Iterator, b: Mbuff, ghost ms: seq<Node>, ghost q: nat)
    requires a != b && a.repr !! b.repr && i != j && i.On(a, ns, p) && j.On(b, ms, q)
    requires (forall x :: 0 <= x < |ns| ==> !ns[x].lent) && (forall x :: 0 <= x < |ms| ==> !ms[x].lent)
    modifies i, j, a`list, b`list, a.repr`n, b.repr`n
    ensures a.Linked() && b.Linked() && a.list == ns && b.list == ms
  {
    i.Stop(a, ns, p);
    j.Stop(b, ms, q);
  }

  /** `total` bytes were equal, and `n` more are compared: what both current chunks still hold, as
      far as the shorter goes. */
  method EqualNext(i: Iterator, a: Mbuff, ghost ns: seq<Node>, ghost p: nat, c: nat,
                   j: Iterator, b: Mbuff, ghost ms: seq<Node>, ghost q: nat, d: nat,
                   ghost aOff: nat, ghost bOff: nat, ghost total: nat, ghost len: nat) returns (n: nat, same: bool)
    requires i.On(a, ns, p) && j.On(b, ms, q) && c < i.chunk.len && d < j.chunk.len
    requires p + c == aOff + total && q + d == bOff + total
    requires i.chunk.len - c <= len - total && Agree(Join(ns), aOff, Join(ms), bOff, total)
    requires aOff + len <= |Join(ns)| && bOff + len <= |Join(ms)|
    ensures 0 < n && c + n <= i.chunk.len && d + n <= j.chunk.len
    ensures same ==> Agree(Join(ns), aOff, Join(ms), bOff, total + n)
    ensures !same ==> !Agree(Join(ns), aOff, Join(ms), bOff, len)
  {
    n := Min(i.chunk.len - c, j.chunk.len - d);
    same := EqualChunks(i, a, ns, p, c, j, b, ms, q, d, n, aOff + total, bOff + total);
    AgreeStep(Join(ns), aOff, Join(ms), bOff, total, n, len, same);
  }

  /** Goes on with both iterators, or returns their buffers. */
  method Proceed(i: Iterator, a: Mbuff, ghost ns: seq<Node>, ghost p: nat, c: nat, ghost x: nat,
                 j: Iterator, b: Mbuff, ghost ms: seq<Node>, ghost q: nat, d: nat, ghost y: nat,
                 n: nat, ghost left: nat, more: bool) returns (c': nat, ghost p': nat, d': nat, ghost q': nat)
    requires a != b && a.repr !! b.repr && i != j
    requires Stands(i, a, ns, p, c, x, left) && Stands(j, b, ms, q, d, y, left)
    requires i.chunk.Chunk? && j.chunk.Chunk? && 0 < n && c + n <= i.chunk.len && d + n <= j.chunk.len
    requires (forall x :: 0 <= x < |ns| ==> !ns[x].lent) && (forall x :: 0 <= x < |ms| ==> !ms[x].lent)
    modifies i, j, a`list, b`list, a.repr`n, b.repr`n
    ensures n <= left
    ensures more ==> Stands(i, a, ns, p', c', x + n, left - n) && Stands(j, b, ms, q', d', y + n, left - n)
    ensures !more || n == left ==> a.Linked() && b.Linked() && a.list == ns && b.list == ms
  {
    c', p', d', q' := c, p, d, q;
    if more {
      c', p', d', q' := AdvanceBoth(i, a, ns, p, c, x, j, b, ms, q, d, y, n, left);
      if n == left {
        StandsDone(i, a, ns, p', c', x + n);
        StandsDone(j, b, ms, q', d', y + n);
      }
    } else {
      StopBoth(i, a, ns, p, j, b, ms, q);
    }
  }

  /** One round of the comparison, after `total` equal bytes. */
  method CompareNext(i: Iterator, a: Mbuff, ghost ns: seq<Node>, ghost p: nat, c: nat, ghost aOff: nat,
                     j: Iterator, b: Mbuff, ghost ms: seq<Node>, ghost q: nat, d: nat, ghost bOff: nat,
                     ghost len: nat, ghost total: nat)
      returns (n: nat, same: bool, c': nat, ghost p': nat, d': nat, ghost q': nat)
    requires a != b && a.repr !! b.repr && i != j && total < len
    requires Stands(i, a, ns, p, c, aOff + total, len - total) && Stands(j, b, ms, q, d, bOff + total, len - total)
    requires Agree(Join(ns), aOff, Join(ms), bOff, total) && aOff + len <= |Join(ns)| && bOff + len <= |Join(ms)|
    requires (forall x :: 0 <= x < |ns| ==> !ns[x].lent) && (forall x :: 0 <= x < |ms| ==> !ms[x].lent)
    modifies i, j, a`list, b`list, a.repr`n, b.repr`n
    ensures 0 < n <= len - total
    ensures same ==> Stands(i, a, ns, p', c', aOff + (total + n), len - (total + n))
    ensures same ==> Stands(j, b, ms, q', d', bOff + (total + n), len - (total + n))
    ensures !same || n == len - total ==> a.Linked() && b.Linked() && a.list == ns && b.list == ms
    ensures same ==> Agree(Join(ns), aOff, Join(ms), bOff, total + n)
    ensures !same ==> !Agree(Join(ns), aOff, Join(ms), bOff, len)
  {
    n, same := EqualNext(i, a, ns, p, c, j, b, ms, q, d, aOff, bOff, total, len);
    c', p', d', q' := Proceed(i, a, ns, p, c, aOff + total, j, b, ms, q, d, bOff + total, n, len - total, same);
  }

  method CompareFrom(i: Iterator, a: Mbuff, ghost ns: seq<Node>, ghost aOff: nat,
                     j: Iterator, b: Mbuff, ghost ms: seq<Node>, ghost bOff: nat, len: nat) returns (r: int)
    requires a != b && a.repr !! b.repr && i != j && i.On(a, ns, aOff) && j.On(b, ms, bOff) && i.len == j.len == len
    requires (forall x :: 0 <= x < |ns| ==> !ns[x].lent) && (forall x :: 0 <= x < |ms| ==> !ms[x].lent)
    modifies i, j, a`list, b`list, a.repr`n, b.repr`n
    ensures a.Linked() && b.Linked() && a.list == ns && b.list == ms
    ensures aOff + len <= |Join(ns)| && bOff + len <= |Join(ms)|
    ensures r == if Agree(Join(ns), aOff, Join(ms), bOff, len) then 0 else 1
  {
    var c: nat, d: nat, total: nat := 0, 0, 0;
    ghost var p: nat, q: nat := aOff, bOff;
    assert aOff + len <= |Join(ns)| && bOff + len <= |Join(ms)|;
    while true
      invariant total < len && Agree(Join(ns), aOff, Join(ms), bOff, total)
      invariant Stands(i, a, ns, p, c, aOff + total, len - total)
      invariant Stands(j, b, ms, q, d, bOff + total, len - total)
      decreases len - total
    {
      var n, same;
      n, same, c, p, d, q := CompareNext(i, a, ns, p, c, aOff, j, b, ms, q, d, bOff, len, total);
      total := total + n;
      if !same || total == len {
        return if same then 0 else 1;
      }
    }
  }

  // ---------------------------------------------------------------- key hash

  /** The key if it is the iterator's one chunk. */
  method InPlace(it: Iterator, mb: Mbuff, ghost ns: seq<Node>, ghost off: nat, len: nat)
      returns (whole: bool, key: Bytes)
    requires it.On(mb, ns, off) && it.len == len && forall i :: 0 <= i < |ns| ==> !ns[i].lent
    modifies it, mb`list, mb.repr`n
    ensures mb.Linked() && mb.list == ns && off + len <= |Join(ns)|
    ensures whole ==> key == Join(ns)[off..off + len]
  {
    whole, key := it.len <= it.chunk.len, [];
    if whole {
      ChunkBytes(it, mb, ns, off, 0, len);
      key := it.chunk.data[it.chunk.at..it.chunk.at + it.chunk.len];
    }
    it.Stop(mb, ns, off);
  }

  /** The bytes of a key: its one chunk in place, or a copy if it has several. */
  method KeyBytes(mb: Mbuff, off: nat, len: nat) returns (key: Bytes)
    requires mb.Valid() && 0 < len && off + len <= |mb.Contents()|
    modifies mb`list, mb.repr`n
    ensures mb.Valid() && mb.list == old(mb.list) && key == mb.Contents()[off..off + len]
  {
    ghost var ns := mb.list;
    var it := new Iterator();
    it.Begin(mb, off, len);
    var whole;
    whole, key := InPlace(it, mb, ns, off, len);
    if !whole {
      key := CopyToBuffer(mb, off, len);
    }
  }

  /** The hash of a key in an Mbuff. A stretch beyond the string hashes like the empty one. */
  method Hash(hash: Bytes -> nat, mb: Mbuff, off: nat, len: nat) returns (err: int, h: nat)
    requires mb.Valid()
    modifies mb`list, mb.repr`n
    ensures mb.Valid() && mb.list == old(mb.list) && err == 0
    ensures h == hash(if off + len <= |mb.Contents()| then mb.Contents()[off..off + len] else [])
  {
    if len == 0 || mb.validSize < off + len {
      assert off + len <= |mb.Contents()| ==> mb.Contents()[off..off + len] == [];
      return 0, hash([]);
    }
    var key := KeyBytes(mb, off, len);
    return 0, hash(key);
  }
}
