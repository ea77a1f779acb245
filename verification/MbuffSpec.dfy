/** The lists of an Mbuff as values: the byte string they stand for, and what each rearrangement
    of nodes does to it (src/uDepot/mbuff.cc, src/include/uDepot/mbuff.hh). */
module MbuffSpec {
  import opened Arith
  import opened Octets

  /** A node: its buffer (an identity and its bytes), the offset and length of the valid part,
      and whether the buffer is in a caller's hands. */
  datatype Node = Node(id: nat, data: Bytes, off: nat, len: nat, lent: bool)

  function Cap(n: Node): nat { |n.data| }
  function End(n: Node): nat { n.off + n.len }

  predicate Sane(n: Node) { 0 < Cap(n) && End(n) <= Cap(n) && (n.len == 0 ==> n.off == 0 || n.off == Cap(n)) }

  function Valids(n: Node): Bytes requires End(n) <= Cap(n) { n.data[n.off..End(n)] }

  /** Room behind and in front of the valid bytes. All of an empty buffer is room in front,
      wherever its offset was left. */
  function AppendSpace(n: Node): int { Cap(n) - End(n) }
  function PrependSpace(n: Node): nat { if n.len == 0 then Cap(n) else n.off }

  predicate IsBlank(n: Node) { 0 < Cap(n) && n.off == 0 && n.len == 0 && !n.lent }

  function Blank(n: Node): Node { Node(n.id, n.data, 0, 0, false) }

  /** Only the first node may have an offset and only the last may have room behind it, so all
      others are full; an empty node starts at one end of its buffer. */
  ghost predicate Legit(ns: seq<Node>) {
    forall i :: 0 <= i < |ns| ==>
      Sane(ns[i]) && (i > 0 ==> ns[i].off == 0) && (i < |ns| - 1 ==> End(ns[i]) == Cap(ns[i]))
  }

  ghost predicate AllBlank(ns: seq<Node>) { forall i :: 0 <= i < |ns| ==> IsBlank(ns[i]) }

  /** The byte string of the first `n` nodes. */
  function JoinTo(ns: seq<Node>, n: nat): Bytes
    requires Legit(ns) && n <= |ns|
  {
    if n == 0 then [] else JoinTo(ns, n - 1) + Valids(ns[n - 1])
  }

  /** The byte string of a list of nodes. */
  function Join(ns: seq<Node>): Bytes
    requires Legit(ns)
  {
    JoinTo(ns, |ns|)
  }

  lemma {:induction false} JoinSame(a: seq<Node>, b: seq<Node>, n: nat)
    requires Legit(a) && Legit(b) && n <= |a| && n <= |b| && a[..n] == b[..n]
    ensures JoinTo(a, n) == JoinTo(b, n)
  {
    if n > 0 {
      assert a[n - 1] == a[..n][n - 1] == b[..n][n - 1] == b[n - 1];
      assert a[..n - 1] == a[..n][..n - 1] == b[..n][..n - 1] == b[..n - 1];
      JoinSame(a, b, n - 1);
    }
  }

  lemma {:induction false} JoinConcatTo(a: seq<Node>, b: seq<Node>, m: nat)
    requires Legit(a + b) && Legit(a) && Legit(b) && m <= |b|
    ensures JoinTo(a + b, |a| + m) == Join(a) + JoinTo(b, m)
  {
    if m == 0 {
      JoinSame(a + b, a, |a|);
    } else {
      JoinConcatTo(a, b, m - 1);
      var x := (a + b)[|a| + m - 1];
      assert x == b[m - 1];
      assert JoinTo(a + b, |a| + m) == JoinTo(a + b, |a| + m - 1) + Valids(x);
      assert JoinTo(b, m) == JoinTo(b, m - 1) + Valids(x);
      Associate(Join(a), JoinTo(b, m - 1), Valids(x));
    }
  }

  lemma SliceOfSlice(d: Bytes, off: nat, len: nat, r: nat, n: nat)
    requires off + len <= |d| && r + n <= len
    ensures d[off..off + len][r..r + n] == d[off + r..off + r + n]
  {
    var x, y := d[off..off + len][r..r + n], d[off + r..off + r + n];
    assert |x| == |y| && forall i :: 0 <= i < n ==> x[i] == y[i];
  }

  lemma Associate(x: Bytes, y: Bytes, z: Bytes)
    ensures x + y + z == x + (y + z)
  {
  }

  lemma JoinConcat(a: seq<Node>, b: seq<Node>)
    requires Legit(a + b) && Legit(a) && Legit(b)
    ensures Join(a + b) == Join(a) + Join(b)
  {
    JoinConcatTo(a, b, |b|);
  }

  lemma JoinOne(n: Node)
    requires Sane(n)
    ensures Join([n]) == Valids(n)
  {
    assert JoinTo([n], 1) == JoinTo([n], 0) + Valids(n);
  }

  lemma JoinPrefix(ns: seq<Node>, k: nat)
    requires Legit(ns) && k <= |ns|
    ensures Join(ns[..k]) == JoinTo(ns, k)
  {
    JoinSame(ns[..k], ns, k);
  }

  /** The nodes before and from `k` on. */
  lemma JoinSplit(ns: seq<Node>, k: nat)
    requires Legit(ns) && k <= |ns|
    ensures Join(ns) == Join(ns[..k]) + Join(ns[k..])
  {
    assert ns == ns[..k] + ns[k..];
    JoinConcat(ns[..k], ns[k..]);
  }

  lemma JoinNext(ns: seq<Node>, k: nat)
    requires Legit(ns) && k < |ns|
    ensures Join(ns[..k + 1]) == Join(ns[..k]) + Valids(ns[k])
  {
    JoinPrefix(ns, k);
    JoinPrefix(ns, k + 1);
  }

  /** The first node and the rest. */
  lemma JoinHead(ns: seq<Node>)
    requires Legit(ns) && ns != []
    ensures Join(ns) == Valids(ns[0]) + Join(ns[1..])
  {
    JoinSplit(ns, 1);
    assert ns[..1] == [ns[0]];
    JoinOne(ns[0]);
  }

  // ---------------------------------------------------------------- sizes and identities

  function CapsTo(ns: seq<Node>, n: nat): nat requires n <= |ns| {
    if n == 0 then 0 else CapsTo(ns, n - 1) + Cap(ns[n - 1])
  }

  function IdsTo(ns: seq<Node>, n: nat): multiset<nat> requires n <= |ns| {
    if n == 0 then multiset{} else IdsTo(ns, n - 1) + multiset{ns[n - 1].id}
  }

  function Caps(ns: seq<Node>): nat { CapsTo(ns, |ns|) }

  function Ids(ns: seq<Node>): multiset<nat> { IdsTo(ns, |ns|) }

  lemma {:induction false} CapsSame(a: seq<Node>, b: seq<Node>, n: nat)
    requires n <= |a| && n <= |b| && forall i :: 0 <= i < n ==> a[i].id == b[i].id && Cap(a[i]) == Cap(b[i])
    ensures CapsTo(a, n) == CapsTo(b, n) && IdsTo(a, n) == IdsTo(b, n)
  {
    if n > 0 {
      CapsSame(a, b, n - 1);
    }
  }

  lemma CapsNext(ns: seq<Node>, n: nat, x: Node)
    requires n < |ns| && ns[n] == x
    ensures CapsTo(ns, n + 1) == CapsTo(ns, n) + Cap(x) && IdsTo(ns, n + 1) == IdsTo(ns, n) + multiset{x.id}
  {
  }

  lemma {:induction false} CapsConcatTo(a: seq<Node>, b: seq<Node>, m: nat)
    requires m <= |b|
    ensures CapsTo(a + b, |a| + m) == Caps(a) + CapsTo(b, m) && IdsTo(a + b, |a| + m) == Ids(a) + IdsTo(b, m)
  {
    if m == 0 {
      CapsSame(a + b, a, |a|);
    } else {
      CapsConcatTo(a, b, m - 1);
      CapsNext(a + b, |a| + m - 1, b[m - 1]);
      CapsNext(b, m - 1, b[m - 1]);
    }
  }

  lemma CapsConcat(a: seq<Node>, b: seq<Node>)
    ensures Caps(a + b) == Caps(a) + Caps(b) && Ids(a + b) == Ids(a) + Ids(b)
  {
    CapsConcatTo(a, b, |b|);
  }

  lemma CapsOne(n: Node)
    ensures Caps([n]) == Cap(n) && Ids([n]) == multiset{n.id}
  {
    assert CapsTo([n], 1) == CapsTo([n], 0) + Cap(n);
    assert IdsTo([n], 1) == IdsTo([n], 0) + multiset{n.id};
  }

  lemma CapsUpdate(ns: seq<Node>, k: nat, n: Node)
    requires k < |ns| && Cap(n) == Cap(ns[k]) && n.id == ns[k].id
    ensures Caps(ns[k := n]) == Caps(ns) && Ids(ns[k := n]) == Ids(ns)
  {
    CapsSame(ns, ns[k := n], |ns|);
  }

  lemma {:induction false} CapsFromEndsTo(ns: seq<Node>, n: nat)
    requires Legit(ns) && 0 < n <= |ns|
    ensures CapsTo(ns, n) == |JoinTo(ns, n)| + Cap(ns[0]) - ns[0].len
                             + (if n < 2 then 0 else Cap(ns[n - 1]) - ns[n - 1].len)
  {
    if n == 1 {
      assert CapsTo(ns, 1) == CapsTo(ns, 0) + Cap(ns[0]);
      assert JoinTo(ns, 1) == JoinTo(ns, 0) + Valids(ns[0]);
    } else {
      CapsFromEndsTo(ns, n - 1);
      assert n > 2 ==> Cap(ns[n - 2]) == ns[n - 2].len;
    }
  }

  /** Interior nodes are full: the sizes add up from the valid bytes and the two ends. */
  lemma CapsFromEnds(ns: seq<Node>)
    requires Legit(ns)
    ensures Caps(ns) == |Join(ns)|
                        + (if ns == [] then 0 else Cap(ns[0]) - ns[0].len)
                        + (if |ns| < 2 then 0 else Cap(ns[|ns| - 1]) - ns[|ns| - 1].len)
  {
    if ns != [] {
      CapsFromEndsTo(ns, |ns|);
    }
  }

  lemma PrefixGrows(rest: Bytes, n: nat, done: Bytes, was: Bytes)
    requires n <= |rest|
    ensures done + rest == (done + rest[..n]) + rest[n..]
    ensures (was + done) + rest[..n] == was + (done + rest[..n])
  {
  }

  lemma SuffixGrows(rest: Bytes, n: nat, done: Bytes, was: Bytes)
    requires n <= |rest|
    ensures rest + done == rest[..|rest| - n] + (rest[|rest| - n..] + done)
    ensures rest[|rest| - n..] + (done + was) == (rest[|rest| - n..] + done) + was
  {
  }

  // ---------------------------------------------------------------- the two lists

  datatype Lists = Lists(list: seq<Node>, free: seq<Node>)

  ghost predicate Proper(l: Lists) { Legit(l.list) && AllBlank(l.free) }

  /** The buffer of node `k` is lent, and no other. */
  ghost predicate Lends(l: Lists, k: int) { forall i :: 0 <= i < |l.list| ==> (l.list[i].lent <==> i == k) }

  function AppendAvail(l: Lists): int { Caps(l.free) + if l.list == [] then 0 else AppendSpace(l.list[|l.list| - 1]) }
  function PrependAvail(l: Lists): int { Caps(l.free) + if l.list == [] then 0 else PrependSpace(l.list[0]) }

  /** The size of all buffers, and their identities. */
  function Total(l: Lists): nat { Caps(l.list) + Caps(l.free) }
  function Buffers(l: Lists): multiset<nat> { Ids(l.list) + Ids(l.free) }

  ghost predicate Conserves(l: Lists, m: Lists) { Buffers(m) == Buffers(l) && Total(m) == Total(l) }

  /** Every byte of the buffers is valid, or room to append, or in front of the first valid one; and
      likewise for prepending. */
  lemma SpaceAddsUp(l: Lists)
    requires Proper(l)
    ensures var front := if l.list == [] then 0 else l.list[0].off;
            Total(l) == |Join(l.list)| + AppendAvail(l) + front
    ensures l.list != [] ==>
      var n := l.list[|l.list| - 1];
      var behind := if |l.list| == 1 && n.len == 0 then 0 else |n.data| - n.off - n.len;
      Total(l) == |Join(l.list)| + PrependAvail(l) + behind
  {
    CapsFromEnds(l.list);
  }

  lemma TakesFree(free: seq<Node>)
    requires free != []
    ensures Caps(free) == Cap(free[0]) + Caps(free[1..]) && Ids(free) == multiset{free[0].id} + Ids(free[1..])
  {
    assert free == [free[0]] + free[1..];
    AddsFirst(free[1..], free[0]);
  }

  lemma AddsLast(list: seq<Node>, n: Node)
    ensures Caps(list + [n]) == Caps(list) + Cap(n) && Ids(list + [n]) == Ids(list) + multiset{n.id}
  {
    CapsConcat(list, [n]);
    CapsOne(n);
  }

  lemma AddsFirst(list: seq<Node>, n: Node)
    ensures Caps([n] + list) == Caps(list) + Cap(n) && Ids([n] + list) == Ids(list) + multiset{n.id}
  {
    CapsConcat([n], list);
    CapsOne(n);
  }

  // ---------------------------------------------------------------- append

  /** A free node becomes the last node. */
  function Push(l: Lists): Lists
    requires l.free != []
  {
    Lists(l.list + [l.free[0]], l.free[1..])
  }

  lemma PushOk(l: Lists)
    requires Proper(l) && Lends(l, -1) && l.free != [] && (l.list == [] || AppendSpace(l.list[|l.list| - 1]) == 0)
    ensures Proper(Push(l)) && Lends(Push(l), -1)
  {
  }

  lemma PushCounts(l: Lists)
    requires l.free != []
    ensures Conserves(l, Push(l)) && Caps(Push(l).free) == Caps(l.free) - Cap(l.free[0])
  {
    TakesFree(l.free);
    AddsLast(l.list, l.free[0]);
  }

  lemma PushRoom(l: Lists)
    requires l.free != [] && IsBlank(l.free[0]) && (l.list == [] || AppendSpace(l.list[|l.list| - 1]) == 0)
    ensures AppendAvail(Push(l)) == AppendAvail(l)
  {
    PushCounts(l);
    assert Push(l).list[|l.list|] == l.free[0];
  }

  lemma PushJoins(l: Lists)
    requires l.free != [] && IsBlank(l.free[0]) && Legit(l.list) && Legit(Push(l).list)
    ensures Join(Push(l).list) == Join(l.list)
  {
    JoinConcat(l.list, [l.free[0]]);
    JoinOne(l.free[0]);
  }

  lemma PushKeeps(l: Lists)
    requires Proper(l) && Lends(l, -1) && l.free != [] && (l.list == [] || AppendSpace(l.list[|l.list| - 1]) == 0)
    ensures var m := Push(l);
            && Proper(m) && Lends(m, -1) && Conserves(l, m) && AppendAvail(m) == AppendAvail(l)
            && Join(m.list) == Join(l.list) && Extends(l.list, m.list) && 0 < AppendSpace(m.list[|l.list|])
  {
    assert IsBlank(l.free[0]);
    PushOk(l);
    PushCounts(l);
    PushRoom(l);
    PushJoins(l);
  }

  /** The last node's buffer comes back as `data`, with `n` more valid bytes. */
  function GrowTail(l: Lists, data: Bytes, n: nat): Lists
    requires l.list != []
  {
    var k := |l.list| - 1;
    l.(list := l.list[k := Node(l.list[k].id, data, l.list[k].off, l.list[k].len + n, false)])
  }

  lemma GrowTailOk(l: Lists, data: Bytes, n: nat)
    requires Proper(l) && l.list != []
    requires var t := l.list[|l.list| - 1]; 0 < AppendSpace(t) && n <= AppendSpace(t) && |data| == Cap(t)
    ensures Proper(GrowTail(l, data, n)) && Conserves(l, GrowTail(l, data, n))
    ensures AppendAvail(GrowTail(l, data, n)) == AppendAvail(l) - n
  {
    CapsUpdate(l.list, |l.list| - 1, GrowTail(l, data, n).list[|l.list| - 1]);
  }

  lemma GrowTailJoins(l: Lists, data: Bytes, n: nat)
    requires Proper(l) && l.list != [] && Legit(GrowTail(l, data, n).list)
    requires var t := l.list[|l.list| - 1];
             n <= AppendSpace(t) && |data| == Cap(t) && data[..End(t)] == t.data[..End(t)]
    ensures var e := End(l.list[|l.list| - 1]); Join(GrowTail(l, data, n).list) == Join(l.list) + data[e..e + n]
  {
    var k := |l.list| - 1;
    JoinSame(l.list, GrowTail(l, data, n).list, k);
    BackJoins(l.list[k], data, n);
  }

  lemma BackJoins(t: Node, data: Bytes, n: nat)
    requires End(t) + n <= Cap(t) == |data| && data[..End(t)] == t.data[..End(t)]
    ensures Valids(Node(t.id, data, t.off, t.len + n, false)) == Valids(t) + data[End(t)..End(t) + n]
  {
    assert data[..End(t)][t.off..] == data[t.off..End(t)];
    assert t.data[..End(t)][t.off..] == Valids(t);
  }

  // ---------------------------------------------------------------- prepend

  /** A free node becomes the first node. */
  function Unshift(l: Lists): Lists
    requires l.free != []
  {
    Lists([l.free[0]] + l.list, l.free[1..])
  }

  /** An empty first node counts as starting at the end of its buffer. */
  function Settle(n: Node): Node { if n.len == 0 then n.(off := Cap(n)) else n }

  /** The first node is about to take bytes in front. It may be one that was just linked, whose
      offset is still at the start of its buffer. */
  ghost predicate Prepared(l: Lists) {
    && l.list != [] && Sane(l.list[0]) && 0 < PrependSpace(l.list[0]) <= Cap(l.list[0])
    && Legit(l.list[0 := Settle(l.list[0])]) && AllBlank(l.free)
  }

  lemma OkIsPrepared(l: Lists)
    requires Proper(l) && l.list != [] && 0 < PrependSpace(l.list[0])
    ensures Prepared(l) && Join(l.list[0 := Settle(l.list[0])]) == Join(l.list)
  {
    var ms := l.list[0 := Settle(l.list[0])];
    JoinHead(l.list);
    JoinHead(ms);
    assert ms[1..] == l.list[1..];
  }

  lemma SettleLent(ns: seq<Node>)
    requires ns != [] && Legit(ns[0 := Settle(ns[0])])
    ensures var ms := ns[0 := ns[0].(lent := true)];
            Legit(ms[0 := Settle(ms[0])]) && Join(ms[0 := Settle(ms[0])]) == Join(ns[0 := Settle(ns[0])])
  {
    var ms := ns[0 := ns[0].(lent := true)];
    var a, b := ns[0 := Settle(ns[0])], ms[0 := Settle(ms[0])];
    assert Sane(a[0]) && forall i :: 0 < i < |a| ==> a[i] == b[i];
    HeadsJoin(a, b, []);
  }

  lemma UnshiftOk(l: Lists)
    requires Proper(l) && l.free != [] && (l.list == [] || PrependSpace(l.list[0]) == 0)
    ensures Prepared(Unshift(l))
  {
    assert IsBlank(l.free[0]);
  }

  lemma UnshiftCounts(l: Lists)
    requires l.free != [] && IsBlank(l.free[0]) && (l.list == [] || PrependSpace(l.list[0]) == 0)
    ensures Conserves(l, Unshift(l)) && PrependAvail(Unshift(l)) == PrependAvail(l)
  {
    TakesFree(l.free);
    AddsFirst(l.list, l.free[0]);
  }

  lemma UnshiftJoins(l: Lists)
    requires l.free != [] && IsBlank(l.free[0]) && Legit(l.list) && Prepared(Unshift(l))
    ensures var m := Unshift(l).list; Join(m[0 := Settle(m[0])]) == Join(l.list)
  {
    var m := Unshift(l).list;
    var ms := m[0 := Settle(m[0])];
    assert ms[1..] == l.list;
    JoinHead(ms);
  }

  lemma UnshiftKeeps(l: Lists)
    requires Proper(l) && Lends(l, -1) && l.free != [] && (l.list == [] || PrependSpace(l.list[0]) == 0)
    ensures var m := Unshift(l);
            && Prepared(m) && Lends(m, -1) && Conserves(l, m) && PrependAvail(m) == PrependAvail(l)
            && Join(m.list[0 := Settle(m.list[0])]) == Join(l.list)
  {
    assert IsBlank(l.free[0]);
    UnshiftOk(l);
    UnshiftCounts(l);
    UnshiftJoins(l);
  }

  /** The first node's buffer comes back as `data`, with `n` more valid bytes in front. */
  function GrowHead(l: Lists, data: Bytes, n: nat): Lists
    requires l.list != [] && n <= PrependSpace(l.list[0])
  {
    var h := l.list[0];
    l.(list := l.list[0 := Node(h.id, data, PrependSpace(h) - n, h.len + n, false)])
  }

  lemma GrowHeadOk(l: Lists, data: Bytes, n: nat)
    requires Prepared(l) && n <= PrependSpace(l.list[0]) && |data| == Cap(l.list[0])
    ensures Proper(GrowHead(l, data, n)) && Conserves(l, GrowHead(l, data, n))
    ensures PrependAvail(GrowHead(l, data, n)) == PrependAvail(l) - n
  {
    var m := GrowHead(l, data, n);
    CapsUpdate(l.list, 0, m.list[0]);
    var ms := l.list[0 := Settle(l.list[0])];
    assert Sane(ms[0]);
    assert forall i :: 0 < i < |ms| ==> ms[i] == m.list[i];
  }

  lemma GrowHeadJoins(l: Lists, data: Bytes, n: nat)
    requires Prepared(l) && n <= PrependSpace(l.list[0]) && |data| == Cap(l.list[0]) && Legit(GrowHead(l, data, n).list)
    requires data[PrependSpace(l.list[0])..] == l.list[0].data[PrependSpace(l.list[0])..]
    ensures var s := PrependSpace(l.list[0]);
            Join(GrowHead(l, data, n).list) == data[s - n..s] + Join(l.list[0 := Settle(l.list[0])])
  {
    var h := l.list[0];
    var ms, ns := l.list[0 := Settle(h)], GrowHead(l, data, n).list;
    assert Sane(ms[0]);
    FrontJoins(h, data, n);
    HeadsJoin(ms, ns, data[PrependSpace(h) - n..PrependSpace(h)]);
  }

  lemma HeadsJoin(ms: seq<Node>, ns: seq<Node>, more: Bytes)
    requires Legit(ms) && Legit(ns) && ms != [] && ns != [] && ms[1..] == ns[1..]
    requires Valids(ns[0]) == more + Valids(ms[0])
    ensures Join(ns) == more + Join(ms)
  {
    JoinHead(ms);
    JoinHead(ns);
  }

  lemma FrontJoins(h: Node, data: Bytes, n: nat)
    requires Sane(Settle(h)) && n <= PrependSpace(h) && |data| == Cap(h)
    requires data[PrependSpace(h)..] == h.data[PrependSpace(h)..]
    ensures var s := PrependSpace(h);
            Valids(Node(h.id, data, s - n, h.len + n, false)) == data[s - n..s] + Valids(Settle(h))
  {
    var s := PrependSpace(h);
    assert data[s..][..h.len] == data[s..s + h.len];
    assert h.data[s..][..h.len] == Valids(Settle(h));
  }

  // ---------------------------------------------------------------- shapes

  predicate SameExtent(n: Node, m: Node) { n.id == m.id && Cap(n) == Cap(m) && n.off == m.off && n.len == m.len }

  /** `ms` is `ns` with bytes appended: only the last node grew, and nodes may follow it. */
  ghost predicate Extends(ns: seq<Node>, ms: seq<Node>) {
    && |ns| <= |ms|
    && forall i :: 0 <= i < |ns| ==>
         && ms[i].id == ns[i].id && Cap(ms[i]) == Cap(ns[i]) && ms[i].off == ns[i].off
         && ns[i].len <= ms[i].len && (i < |ns| - 1 ==> ms[i].len == ns[i].len)
  }

  /** The same buffers, with as many valid bytes in the same places. */
  ghost predicate SameShape(ns: seq<Node>, ms: seq<Node>) {
    |ns| == |ms| && forall i :: 0 <= i < |ns| ==> SameExtent(ns[i], ms[i])
  }

  lemma ExtendsTrans(ns: seq<Node>, ms: seq<Node>, ls: seq<Node>)
    requires Extends(ns, ms) && Extends(ms, ls)
    ensures Extends(ns, ls)
  {
  }

  lemma ShapeExtends(ns: seq<Node>, ms: seq<Node>, ls: seq<Node>)
    requires Extends(ns, ms) && SameShape(ms, ls)
    ensures Extends(ns, ls)
  {
  }

  // ---------------------------------------------------------------- reslice

  /** The first node goes to the free list. */
  function Shift(l: Lists): Lists
    requires l.list != []
  {
    Lists(l.list[1..], [Blank(l.list[0])] + l.free)
  }

  lemma ShiftKeeps(l: Lists)
    requires Proper(l) && Lends(l, -1) && l.list != []
    ensures Proper(Shift(l)) && Lends(Shift(l), -1) && Conserves(l, Shift(l))
    ensures l.list[0].len <= |Join(l.list)| && Join(Shift(l).list) == Join(l.list)[l.list[0].len..]
  {
    ShiftCounts(l);
    JoinHead(l.list);
  }

  lemma ShiftCounts(l: Lists)
    requires l.list != []
    ensures Conserves(l, Shift(l)) && Caps(Shift(l).free) == Caps(l.free) + Cap(l.list[0])
  {
    TakesFree(l.list);
    AddsFirst(l.free, Blank(l.list[0]));
  }

  /** The first `off` bytes of the first node are dropped. */
  function Skip(l: Lists, off: nat): Lists
    requires l.list != [] && off < l.list[0].len
  {
    l.(list := l.list[0 := l.list[0].(off := l.list[0].off + off, len := l.list[0].len - off)])
  }

  lemma SkipKeeps(l: Lists, off: nat)
    requires Proper(l) && Lends(l, -1) && l.list != [] && off < l.list[0].len
    ensures Proper(Skip(l, off)) && Lends(Skip(l, off), -1) && Conserves(l, Skip(l, off))
    ensures off <= |Join(l.list)| && Join(Skip(l, off).list) == Join(l.list)[off..]
  {
    var m := Skip(l, off);
    CapsUpdate(l.list, 0, m.list[0]);
    SliceOfSlice(l.list[0].data, l.list[0].off, l.list[0].len, off, l.list[0].len - off);
    assert Valids(l.list[0])[off..] == Valids(m.list[0]);
    JoinHead(l.list);
    JoinHead(m.list);
    assert m.list[1..] == l.list[1..];
  }

  /** The nodes up to `k`, with `len` valid bytes in the last. */
  function Cut(ns: seq<Node>, k: nat, len: nat): seq<Node>
    requires k < |ns|
  {
    ns[..k] + [ns[k].(len := len)]
  }

  lemma CutOk(ns: seq<Node>, k: nat, len: nat)
    requires Legit(ns) && k < |ns| && 0 < len <= ns[k].len
    ensures Legit(Cut(ns, k, len))
  {
  }

  lemma CutJoins(ns: seq<Node>, k: nat, len: nat)
    requires Legit(ns) && k < |ns| && 0 < len <= ns[k].len && Legit(Cut(ns, k, len))
    ensures |Join(ns[..k])| + len <= |Join(ns)|
    ensures Join(Cut(ns, k, len)) == Join(ns)[..|Join(ns[..k])| + len]
  {
    var ms := Cut(ns, k, len);
    JoinSame(ms, ns, k);
    JoinPrefix(ns, k);
    SliceOfSlice(ns[k].data, ns[k].off, ns[k].len, 0, len);
    assert Valids(ms[k]) == Valids(ns[k])[..len];
    PrefixOf(Join(ns[..k]), Valids(ns[k]), Join(ns[k + 1..]), len);
    JoinNext(ns, k);
    JoinSplit(ns, k + 1);
  }

  lemma PrefixOf(a: Bytes, b: Bytes, c: Bytes, n: nat)
    requires n <= |b|
    ensures (a + b + c)[..|a| + n] == a + b[..n]
  {
  }

  lemma SplitAt(ns: seq<Node>, k: nat)
    requires k <= |ns|
    ensures ns == ns[..k] + ns[k..]
  {
  }

  lemma CutCounts(ns: seq<Node>, k: nat, len: nat)
    requires k < |ns|
    ensures Caps(ns) == Caps(Cut(ns, k, len)) + Caps(ns[k + 1..]) && Ids(ns) == Ids(Cut(ns, k, len)) + Ids(ns[k + 1..])
  {
    assert ns == ns[..k + 1] + ns[k + 1..] by { SplitAt(ns, k + 1); }
    assert ns[..k + 1] == ns[..k] + [ns[k]];
    CapsConcat(ns[..k + 1], ns[k + 1..]);
    AddsLast(ns[..k], ns[k]);
    AddsLast(ns[..k], ns[k].(len := len));
  }

  /** How many valid bytes the first `n` nodes have. */
  function LenTo(ns: seq<Node>, n: nat): nat
    requires n <= |ns|
  {
    if n == 0 then 0 else LenTo(ns, n - 1) + ns[n - 1].len
  }

  lemma {:induction false} JoinSize(ns: seq<Node>, n: nat)
    requires Legit(ns) && n <= |ns|
    ensures |JoinTo(ns, n)| == LenTo(ns, n)
  {
    if n > 0 {
      JoinSize(ns, n - 1);
    }
  }

  /** The first `len` bytes of `ns` end in node `k`. */
  predicate EndsIn(ns: seq<Node>, len: nat, k: nat) {
    k < |ns| && LenTo(ns, k) < len <= LenTo(ns, k) + ns[k].len
  }

  /** `ms` holds the first `len` bytes of `ns`. */
  predicate CutTo(ns: seq<Node>, len: nat, ms: seq<Node>) {
    0 < |ms| && EndsIn(ns, len, |ms| - 1) && ms == Cut(ns, |ms| - 1, len - LenTo(ns, |ms| - 1))
  }

  lemma CutKeeps(ns: seq<Node>, k: nat, own: nat, len: nat)
    requires Legit(ns) && k < |ns| && 0 < own <= ns[k].len && |Join(ns[..k])| + own == len
    ensures len <= |Join(ns)| && CutTo(ns, len, Cut(ns, k, own))
    ensures Legit(Cut(ns, k, own)) && Join(Cut(ns, k, own)) == Join(ns)[..len]
  {
    CutOk(ns, k, own);
    CutJoins(ns, k, own);
    JoinPrefix(ns, k);
    JoinSize(ns, k);
  }

  lemma {:induction false} LenMonotone(ns: seq<Node>, i: nat, j: nat)
    requires i <= |ns| && j <= |ns|
    ensures i <= j ==> LenTo(ns, i) <= LenTo(ns, j)
    decreases j
  {
    if i < j {
      LenMonotone(ns, i, j - 1);
    }
  }

  /** There is only one node in which the first `len` bytes can end. */
  lemma EndIsUnique(ns: seq<Node>, len: nat, k: nat, t: nat)
    requires EndsIn(ns, len, k) && EndsIn(ns, len, t)
    ensures k == t
  {
    assert LenTo(ns, k + 1) == LenTo(ns, k) + ns[k].len && LenTo(ns, t + 1) == LenTo(ns, t) + ns[t].len;
    LenMonotone(ns, k + 1, t);
    LenMonotone(ns, t + 1, k);
  }

  lemma {:induction false} LenSame(ns: seq<Node>, ms: seq<Node>, n: nat)
    requires n <= |ns| && n <= |ms| && forall i :: 0 <= i < n ==> ns[i].len == ms[i].len
    ensures LenTo(ns, n) == LenTo(ms, n)
  {
    if n > 0 {
      LenSame(ns, ms, n - 1);
    }
  }
}
