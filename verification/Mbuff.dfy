/** Mbuff: a byte string kept in a linked list of partially valid buffers, with a second list of
    free buffers (src/uDepot/mbuff.cc, src/include/uDepot/mbuff.hh). Every operation on the links
    is proved to do to the lists what module MbuffSpec says in terms of values. */
module Mbuffs {
  import opened Arith
  import opened Octets
  import opened MbuffLinks
  import opened MbuffSpec

  /** A borrowed buffer with the stretch the borrower may use, or nothing. */
  datatype Chunk = Invalid | Chunk(data: Bytes, at: nat, len: nat)

  /** The buffer after `src` was copied to `at`. */
  function MemCpy(data: Bytes, at: nat, src: Bytes): Bytes
    requires at + |src| <= |data|
  {
    data[..at] + src + data[at + |src|..]
  }

  lemma MemCpyAt(data: Bytes, at: nat, src: Bytes)
    requires at + |src| <= |data|
    ensures var d := MemCpy(data, at, src);
            && |d| == |data| && d[..at] == data[..at] && d[at..at + |src|] == src
            && d[at + |src|..] == data[at + |src|..]
  {
  }

  /** The first `k` nodes of `was` were put in front of `to`, one after the other. */
  ghost predicate Drained(was: seq<Node>, to: seq<Node>, left: seq<Node>, got: seq<Node>, k: nat) {
    && k <= |was| && |left| == |was| - k && |got| == |to| + k
    && (forall i :: 0 <= i < |left| ==> left[i] == was[k + i])
    && (forall i :: 0 <= i < k ==> got[i] == was[k - 1 - i])
    && (forall i :: k <= i < |got| ==> got[i] == to[i - k])
  }

  /** `moved` bytes so far, and all but the last of the buffers had not been enough. */
  ghost predicate Draining(was: seq<Node>, to: seq<Node>, left: seq<Node>, got: seq<Node>, k: nat,
                           moved: nat, max: nat) {
    Drained(was, to, left, got, k) && moved == CapsTo(was, k) && (k > 1 ==> CapsTo(was, k - 1) < max)
  }

  lemma DrainsOne(was: seq<Node>, to: seq<Node>, left: seq<Node>, got: seq<Node>, k: nat)
    requires Drained(was, to, left, got, k) && left != []
    ensures left[0] == was[k] && Drained(was, to, left[1..], [left[0]] + got, k + 1)
  {
  }

  lemma SliceTwice(s: Bytes, off: nat, len: nat)
    requires off + len <= |s|
    ensures s[off..][..len] == s[off..off + len]
  {
  }

  lemma NotLast(ns: seq<Node>)
    requires Legit(ns) && ns != [] && ns[0].len < |Join(ns)|
    ensures 1 < |ns|
  {
    JoinHead(ns);
  }

  /** Draining moves buffers and loses none. */
  lemma {:induction false} DrainCounts(was: seq<Node>, to: seq<Node>, left: seq<Node>, got: seq<Node>, k: nat)
    requires Drained(was, to, left, got, k)
    ensures Caps(left) + CapsTo(was, k) == Caps(was) && Caps(got) == Caps(to) + CapsTo(was, k)
    ensures Ids(left) + Ids(got) == Ids(was) + Ids(to)
    decreases k
  {
    if k == 0 {
      assert left == was && got == to;
    } else {
      var n, more := was[k - 1], got[1..];
      assert got == [n] + more;
      DrainCounts(was, to, [n] + left, more, k - 1);
      AddsFirst(left, n);
      AddsFirst(more, n);
    }
  }

  class Mbuff {
    var validSize: nat
    var freeSize: nat
    var freeNodes: nat
    var head: Link?
    var tail: Link?
    var freeHead: Link?
    // The nodes of both lists in their order, what is in them, and all nodes this Mbuff has had.
    ghost var links: seq<Link>
    ghost var frees: seq<Link>
    ghost var list: seq<Node>
    ghost var free: seq<Node>
    ghost var repr: set<Link>

    ghost function L(): Lists
      reads this
    {
      Lists(list, free)
    }

    /** The links spell the two lists and end there, the tail is the last node, and the nodes have
        the fields of `list` and `free`. All nodes are different, those in `loose` too, which
        are in neither list. */
    ghost predicate LinkedBut(loose: seq<Link>)
      reads this`repr, this`links, this`frees, this`list, this`free, this`head, this`tail, this`freeHead, repr
    {
      && Owns(repr, links, frees, loose)
      && Runs(head, links, null) && Runs(freeHead, frees, null)
      && tail == (if links == [] then null else links[|links| - 1])
      && Carries(links, list) && Carries(frees, free)
    }

    ghost predicate Linked()
      reads this`repr, this`links, this`frees, this`list, this`free, this`head, this`tail, this`freeHead, repr
    {
      LinkedBut([])
    }

    ghost predicate FreeOk()
      reads this
    {
      AllBlank(free) && freeSize == Caps(free) && freeNodes == |free|
    }

    /** The links are in order and the cached sizes are right. */
    ghost predicate Shape()
      reads this, repr
    {
      Linked() && Proper(L()) && validSize == |Join(list)| && freeSize == Caps(free) && freeNodes == |free|
    }

    /** As Shape, and every buffer is with its node. */
    ghost predicate Valid()
      reads this, repr
    {
      Shape() && Lends(L(), -1)
    }

    /** The byte string. */
    ghost function Contents(): Bytes
      requires Legit(list)
      reads this
    {
      Join(list)
    }

    constructor ()
      ensures Valid() && Contents() == [] && Total(L()) == 0 && Buffers(L()) == multiset{} && repr == {}
    {
      validSize, freeSize, freeNodes, head, tail, freeHead := 0, 0, 0, null, null, null;
      links, frees, list, free, repr := [], [], [], [], {};
    }

    // ---------------------------------------------------------------- links

    /** What the three references show of the lists. */
    lemma Ends()
      requires Linked()
      ensures (head == null <==> list == []) && (tail == null <==> list == []) && (freeHead == null <==> free == [])
      ensures |links| == |list|
      ensures list != [] ==> head == links[0] && head.n == list[0]
      ensures list != [] ==> tail == links[|list| - 1] && tail.n == list[|list| - 1]
      ensures list != [] ==> (head == tail <==> |list| == 1)
    {
      assert HasFields(links, list, 0);
      if list != [] {
        assert HasFields(links, list, |list| - 1);
        assert |list| > 1 ==> Differ(links, 0, links, |list| - 1);
      }
    }

    method GetFree() returns (x: Link)
      requires Linked() && free != []
      modifies this`freeHead, this`frees, this`free
      ensures repr == old(repr)
      ensures LinkedBut([x]) && free == old(free)[1..] && x.n == old(free)[0]
    {
      x := freeHead;
      RunsTail(x, frees, null);
      CarriesSplit(frees, free, 1);
      assert HasFields(frees, free, 0);
      OwnsFree(repr, links, frees);
      freeHead := x.next;
      frees, free := frees[1..], free[1..];
    }

    method PutFree(x: Link, ghost loose: seq<Link>)
      requires LinkedBut([x] + loose)
      modifies this`freeHead, this`frees, this`free, x`next
      ensures repr == old(repr)
      ensures LinkedBut(loose) && free == [x.n] + old(free)
    {
      OwnsLoose(repr, links, frees, x, loose);
      x.next := freeHead;
      RunsCons(x, freeHead, frees, null);
      CarriesCons(x, frees, free);
      freeHead := x;
      frees, free := [x] + frees, [x.n] + free;
    }

    method LinkLast(x: Link)
      requires LinkedBut([x])
      modifies this`head, this`tail, this`links, this`list, repr`next
      ensures repr == old(repr)
      ensures Linked() && list == old(list) + [x.n]
    {
      assert [x] + [] == [x];
      OwnsLoose(repr, links, frees, x, []);
      x.next := null;
      if tail != null {
        assert NextIs(links, null, |links| - 1);
        NotInOther(links, frees, |links| - 1);
        SetEnd(tail, x, head, links);
      } else {
        head := x;
      }
      RunsSnoc(head, links, x);
      CarriesCons(x, links, list);
      tail := x;
      links, list := links + [x], list + [x.n];
    }

    method LinkFirst(x: Link)
      requires LinkedBut([x])
      modifies this`head, this`tail, this`links, this`list, x`next
      ensures repr == old(repr)
      ensures Linked() && list == [x.n] + old(list)
    {
      assert [x] + [] == [x];
      OwnsLoose(repr, links, frees, x, []);
      x.next := head;
      RunsCons(x, head, links, null);
      CarriesCons(x, links, list);
      if tail == null {
        tail := x;
      }
      head := x;
      links, list := [x] + links, [x.n] + list;
    }

    method UnlinkFirst() returns (x: Link)
      requires Linked() && 1 < |list|
      modifies this`head, this`links, this`list
      ensures repr == old(repr)
      ensures LinkedBut([x]) && list == old(list)[1..] && x.n == old(list)[0]
    {
      x := head;
      RunsTail(x, links, null);
      CarriesSplit(links, list, 1);
      assert HasFields(links, list, 0);
      OwnsHead(repr, links, frees);
      head := x.next;
      links, list := links[1..], list[1..];
    }

    /** Node `x`, the one at position `k`, becomes the last; the rest hangs loose from `r` on. */
    method CutAfter(x: Link, ghost k: nat) returns (r: Link?, ghost loose: seq<Link>)
      requires Linked() && k < |list| && x == links[k]
      modifies this`tail, this`links, this`list, x`next
      ensures repr == old(repr)
      ensures LinkedBut(loose) && Runs(r, loose, null) && Carries(loose, old(list)[k + 1..])
      ensures list == old(list)[..k + 1]
    {
      ghost var ns := links[..k + 1];
      loose := links[k + 1..];
      OwnsSplit(repr, links, frees, k + 1);
      RunsSplit(head, links, null, k + 1);
      CarriesSplit(links, list, k + 1);
      assert NextIs(links, null, k);
      assert x == ns[k];
      NotInOther(ns, frees, k);
      NotInOther(ns, loose, k);
      r := x.next;
      tail := x;
      SetEnd(x, null, head, ns);
      links, list := ns, list[..k + 1];
    }

    /** The fields of node `x`, the one at position `k`, change. */
    method SetNode(x: Link, ghost k: nat, n: Node)
      requires Linked() && k < |list| && x == links[k]
      modifies this`list, x`n
      ensures repr == old(repr)
      ensures Linked() && list == old(list)[k := n]
    {
      NotInOther(links, frees, k);
      SetFields(x, n, links, list, k);
      list := list[k := n];
    }

    method PutFreeNode(x: Link, ghost loose: seq<Link>)
      requires LinkedBut([x] + loose) && IsBlank(x.n) && FreeOk()
      modifies this`freeHead, this`frees, this`free, this`freeSize, this`freeNodes, x`next
      ensures repr == old(repr)
      ensures LinkedBut(loose) && FreeOk() && free == [x.n] + old(free)
    {
      AddsFirst(free, x.n);
      PutFree(x, loose);
      freeSize := freeSize + Cap(x.n);
      freeNodes := freeNodes + 1;
    }

    method GetFreeNode() returns (x: Link?)
      requires Linked() && FreeOk()
      modifies this`freeHead, this`frees, this`free, this`freeSize, this`freeNodes
      ensures repr == old(repr)
      ensures FreeOk() && (x == null <==> old(free) == [])
      ensures x == null ==> Linked() && free == []
      ensures x != null ==> LinkedBut([x]) && old(free) == [x.n] + free
    {
      if freeHead == null {
        return null;
      }
      TakesFree(free);
      x := GetFree();
      freeSize := freeSize - Cap(x.n);
      freeNodes := freeNodes - 1;
    }

    // ---------------------------------------------------------------- append

    /** The last node's buffer is lent, with the room behind its valid bytes. */
    ghost predicate AppendLent(c: Chunk)
      reads this, repr
    {
      && Shape() && list != [] && Lends(L(), |list| - 1)
      && var t := list[|list| - 1];
      c.Chunk? && c.data == t.data && c.at == End(t) && c.len == AppendSpace(t) > 0
    }

    method AppendPrepare() returns (c: Chunk)
      requires Valid()
      modifies this, repr
      ensures repr == old(repr)
      ensures c.Invalid? ==> Valid() && L() == old(L()) && AppendAvail(L()) == 0
      ensures c.Chunk? ==> AppendLent(c) && Contents() == old(Contents()) && 0 < c.len <= old(AppendAvail(L()))
      ensures Conserves(old(L()), L()) && AppendAvail(L()) == old(AppendAvail(L())) && Extends(old(list), list)
    {
      var room := RoomAtTail();
      if !room {
        return Invalid;
      }
      ghost var ns := list;
      c := LendTail();
      ShapeExtends(old(list), ns, list);
    }

    /** If the last node has no room, a free node is linked behind it. */
    method RoomAtTail() returns (ok: bool)
      requires Valid()
      modifies this`head, this`tail, this`links, this`list, repr`next
      modifies this`freeHead, this`frees, this`free, this`freeSize, this`freeNodes
      ensures repr == old(repr)
      ensures Valid() && Contents() == old(Contents()) && Extends(old(list), list)
      ensures Conserves(old(L()), L()) && AppendAvail(L()) == old(AppendAvail(L()))
      ensures if ok then list != [] && 0 < AppendSpace(list[|list| - 1]) else L() == old(L()) && AppendAvail(L()) == 0
    {
      Ends();
      ok := true;
      if tail == null || AppendSpace(tail.n) == 0 {
        ok := LinkTail();
      }
    }

    /** A free node becomes the last one. */
    method LinkFree()
      requires Linked() && FreeOk() && free != []
      modifies this`head, this`tail, this`links, this`list, repr`next
      modifies this`freeHead, this`frees, this`free, this`freeSize, this`freeNodes
      ensures repr == old(repr)
      ensures Linked() && FreeOk() && L() == Push(old(L()))
    {
      var x := GetFreeNode();
      LinkLast(x);
    }

    method LinkTail() returns (ok: bool)
      requires Valid() && (list == [] || AppendSpace(list[|list| - 1]) == 0)
      modifies this`head, this`tail, this`links, this`list, repr`next
      modifies this`freeHead, this`frees, this`free, this`freeSize, this`freeNodes
      ensures repr == old(repr)
      ensures Valid() && Contents() == old(Contents())
      ensures Conserves(old(L()), L()) && AppendAvail(L()) == old(AppendAvail(L()))
      ensures !ok ==> L() == old(L()) && free == []
      ensures ok ==> list != [] && 0 < AppendSpace(list[|list| - 1])
      ensures Extends(old(list), list)
    {
      ok := freeHead != null;
      if ok {
        PushKeeps(L());
        LinkFree();
      }
    }

    method LendTail() returns (c: Chunk)
      requires Valid() && list != [] && 0 < AppendSpace(list[|list| - 1])
      modifies this`list, repr`n
      ensures repr == old(repr)
      ensures AppendLent(c) && Contents() == old(Contents()) && SameShape(old(list), list)
      ensures 0 < c.len <= AppendAvail(L())
      ensures Conserves(old(L()), L()) && AppendAvail(L()) == old(AppendAvail(L()))
    {
      Ends();
      var t := tail.n;
      ghost var k := |list| - 1;
      CapsUpdate(list, k, t.(lent := true));
      SetNode(tail, k, t.(lent := true));
      JoinSame(list, old(list), k);
      c := Chunk(t.data, End(t), AppendSpace(t));
    }

    /** The chunk comes back with `n` bytes written to it. */
    method AppendFinalize(c: Chunk, n: nat, ghost lent: Chunk)
      requires AppendLent(lent) && c.Chunk? && n <= lent.len
      requires |c.data| == |lent.data| && c.data[..lent.at] == lent.data[..lent.at]
      modifies this, repr
      ensures repr == old(repr)
      ensures Valid() && Contents() == old(Contents()) + c.data[lent.at..lent.at + n] && Extends(old(list), list)
      ensures |list| == |old(list)| && list[|list| - 1].len == old(list)[|list| - 1].len + n && free == old(free)
      ensures Conserves(old(L()), L()) && AppendAvail(L()) == old(AppendAvail(L())) - n
    {
      Ends();
      GrowTailOk(L(), c.data, n);
      GrowTailJoins(L(), c.data, n);
      var t := tail.n;
      SetNode(tail, |list| - 1, Node(t.id, c.data, t.off, t.len + n, false));
      validSize := validSize + n;
      assert L() == GrowTail(old(L()), c.data, n);
    }

    /** One round of an append: fills the next chunk. */
    method AppendOnce(src: Bytes) returns (n: nat, avail: nat)
      requires Valid()
      modifies this, repr
      ensures repr == old(repr)
      ensures Valid() && n <= |src| && Contents() == old(Contents()) + src[..n] && Extends(old(list), list)
      ensures Conserves(old(L()), L()) && AppendAvail(L()) == old(AppendAvail(L())) - n
      ensures n == Min(|src|, avail) && (avail == 0 <==> old(AppendAvail(L())) == 0) && avail <= old(AppendAvail(L()))
    {
      var c := AppendPrepare();
      if c.Invalid? {
        assert src[..0] == [];
        return 0, 0;
      }
      n, avail := Min(|src|, c.len), c.len;
      ghost var ns := list;
      AppendChunk(c, src[..n]);
      ExtendsTrans(old(list), ns, list);
    }

    /** Copies `src` to the start of the chunk and returns it. */
    method AppendChunk(c: Chunk, src: Bytes)
      requires AppendLent(c) && |src| <= c.len
      modifies this, repr
      ensures repr == old(repr)
      ensures Valid() && Contents() == old(Contents()) + src && Extends(old(list), list)
      ensures |list| == |old(list)| && list[|list| - 1].len == old(list)[|list| - 1].len + |src| && free == old(free)
      ensures Conserves(old(L()), L()) && AppendAvail(L()) == old(AppendAvail(L())) - |src|
    {
      MemCpyAt(c.data, c.at, src);
      AppendFinalize(Chunk(MemCpy(c.data, c.at, src), c.at, c.len), |src|, c);
    }

    /** Appends `src` if the last node has room for it. */
    method AppendInline(src: Bytes) returns (ok: bool)
      requires Valid() && 0 < |src|
      modifies this, repr
      ensures repr == old(repr)
      ensures Valid() && Conserves(old(L()), L())
      ensures ok == (old(list) != [] && |src| <= AppendSpace(old(list)[|old(list)| - 1]))
      ensures Contents() == old(Contents()) + if ok then src else []
      ensures Extends(old(list), list) && |list| == |old(list)| && free == old(free)
      ensures !ok ==> SameShape(old(list), list)
      ensures ok ==> list[|list| - 1].len == old(list)[|list| - 1].len + |src|
    {
      Ends();
      if tail == null || AppendSpace(tail.n) == 0 {
        return false;
      }
      var c := LendTail();
      ok := |src| <= c.len;
      AppendChunk(c, if ok then src else []);
    }

    /** Appends as much of `src` as there is room for. */
    method AppendFromBuffer(src: Bytes) returns (copied: nat)
      requires Valid()
      modifies this, repr
      ensures repr == old(repr)
      ensures Valid() && copied == Min(|src|, old(AppendAvail(L())))
      ensures Contents() == old(Contents()) + src[..copied] && Extends(old(list), list)
      ensures Conserves(old(L()), L()) && AppendAvail(L()) == old(AppendAvail(L())) - copied
    {
      copied := 0;
      var rest := src;
      ghost var was, done := Contents(), [];
      while true
        invariant repr == old(repr)
        invariant Valid() && src == done + rest && |done| == copied && Contents() == was + done
        invariant Extends(old(list), list)
        invariant Conserves(old(L()), L()) && AppendAvail(L()) == old(AppendAvail(L())) - copied >= 0
        decreases |rest|
      {
        var n, avail := AppendOnce(rest);
        PrefixGrows(rest, n, done, was);
        done := done + rest[..n];
        copied, rest := copied + n, rest[n..];
        if n == 0 || n < avail {
          return;
        }
      }
    }

    // ---------------------------------------------------------------- prepend

    /** The first node's buffer is lent, with the room in front of its valid bytes. */
    ghost predicate PrependLent(c: Chunk)
      reads this, repr
    {
      && Linked() && Prepared(L()) && Lends(L(), 0)
      && validSize == |Join(list[0 := Settle(list[0])])| && freeSize == Caps(free) && freeNodes == |free|
      && c.Chunk? && c.data == list[0].data && c.at == 0 && c.len == PrependSpace(list[0])
    }

    method PrependPrepare() returns (c: Chunk)
      requires Valid()
      modifies this, repr
      ensures repr == old(repr)
      ensures c.Invalid? ==> Valid() && L() == old(L()) && PrependAvail(L()) == 0
      ensures c.Chunk? ==> PrependLent(c) && Join(list[0 := Settle(list[0])]) == old(Contents())
      ensures c.Chunk? ==> 0 < c.len <= old(PrependAvail(L()))
      ensures Conserves(old(L()), L()) && PrependAvail(L()) == old(PrependAvail(L()))
    {
      Ends();
      if head != null && PrependSpace(head.n) > 0 {
        OkIsPrepared(L());
        c := LendHead();
        return;
      }
      var linked := LinkHead();
      if !linked {
        return Invalid;
      }
      c := LendHead();
    }

    ghost predicate Ready()
      reads this, repr
    {
      && Linked() && Prepared(L()) && Lends(L(), -1)
      && validSize == |Join(list[0 := Settle(list[0])])| && freeSize == Caps(free) && freeNodes == |free|
    }

    method LinkHead() returns (ok: bool)
      requires Valid() && (list == [] || PrependSpace(list[0]) == 0)
      modifies this`head, this`tail, this`links, this`list, repr`next
      modifies this`freeHead, this`frees, this`free, this`freeSize, this`freeNodes
      ensures repr == old(repr)
      ensures Conserves(old(L()), L()) && PrependAvail(L()) == old(PrependAvail(L()))
      ensures !ok ==> Valid() && L() == old(L()) && free == []
      ensures ok ==> Ready() && Join(list[0 := Settle(list[0])]) == old(Contents())
    {
      Ends();
      ghost var l := L();
      var x := GetFreeNode();
      ok := x != null;
      if ok {
        LinkFirst(x);
        assert L() == Unshift(l);
        UnshiftKeeps(l);
      }
    }

    method LendHead() returns (c: Chunk)
      requires Ready()
      modifies this`list, repr`n
      ensures repr == old(repr)
      ensures PrependLent(c) && Join(list[0 := Settle(list[0])]) == old(Join(list[0 := Settle(list[0])]))
      ensures 0 < c.len <= PrependAvail(L())
      ensures list == old(list)[0 := old(list)[0].(lent := true)]
      ensures Conserves(old(L()), L()) && PrependAvail(L()) == old(PrependAvail(L()))
    {
      Ends();
      var h := head.n;
      CapsUpdate(list, 0, h.(lent := true));
      SettleLent(list);
      SetNode(head, 0, h.(lent := true));
      c := Chunk(h.data, 0, PrependSpace(h));
    }

    method PrependFinalize(c: Chunk, n: nat, ghost lent: Chunk)
      requires PrependLent(lent) && c.Chunk? && n <= lent.len
      requires |c.data| == |lent.data| && c.data[lent.len..] == lent.data[lent.len..]
      modifies this, repr
      ensures repr == old(repr)
      ensures Valid() && Contents() == c.data[lent.len - n..lent.len] + old(Join(list[0 := Settle(list[0])]))
      ensures var h := old(list)[0];
              list == old(list)[0 := Node(h.id, c.data, PrependSpace(h) - n, h.len + n, false)] && free == old(free)
      ensures Conserves(old(L()), L()) && PrependAvail(L()) == old(PrependAvail(L())) - n
    {
      Ends();
      GrowHeadOk(L(), c.data, n);
      GrowHeadJoins(L(), c.data, n);
      var h := head.n;
      var off := if h.off == 0 && h.len == 0 then Cap(h) - n else h.off - n;
      SetNode(head, 0, Node(h.id, c.data, off, h.len + n, false));
      validSize := validSize + n;
      assert L() == GrowHead(old(L()), c.data, n);
    }

    /** One round of a prepend: fills the end of the next chunk with the end of `src`. */
    method PrependOnce(src: Bytes) returns (n: nat, avail: nat)
      requires Valid()
      modifies this, repr
      ensures repr == old(repr)
      ensures Valid() && n <= |src| && Contents() == src[|src| - n..] + old(Contents())
      ensures Conserves(old(L()), L()) && PrependAvail(L()) == old(PrependAvail(L())) - n
      ensures n == Min(|src|, avail) && (avail == 0 <==> old(PrependAvail(L())) == 0) && avail <= old(PrependAvail(L()))
    {
      var c := PrependPrepare();
      if c.Invalid? {
        assert src[|src|..] == [];
        return 0, 0;
      }
      n, avail := Min(|src|, c.len), c.len;
      PrependChunk(c, src[|src| - n..]);
    }

    /** Copies `src` to the end of the chunk and returns it. */
    method PrependChunk(c: Chunk, src: Bytes)
      requires PrependLent(c) && |src| <= c.len
      modifies this, repr
      ensures repr == old(repr)
      ensures Valid() && Contents() == src + old(Join(list[0 := Settle(list[0])])) && free == old(free)
      ensures Conserves(old(L()), L()) && PrependAvail(L()) == old(PrependAvail(L())) - |src|
      ensures var h := old(list)[0];
              |list| == |old(list)| && (forall i :: 1 <= i < |list| ==> list[i] == old(list)[i])
              && list[0].id == h.id && Cap(list[0]) == Cap(h)
              && list[0].off == PrependSpace(h) - |src| && list[0].len == h.len + |src|
    {
      MemCpyAt(c.data, c.len - |src|, src);
      PrependFinalize(Chunk(MemCpy(c.data, c.len - |src|, src), c.at, c.len), |src|, c);
    }

    /** Prepends `src` if it exactly fills the room in front of the first node. */
    method PrependInline(src: Bytes) returns (ok: bool)
      requires Valid() && 0 < |src|
      modifies this, repr
      ensures repr == old(repr)
      ensures Valid() && Conserves(old(L()), L())
      ensures ok == (old(list) != [] && |src| == PrependSpace(old(list)[0]))
      ensures Contents() == (if ok then src else []) + old(Contents())
      ensures |list| == |old(list)| && free == old(free) && forall i :: 1 <= i < |list| ==> list[i] == old(list)[i]
      ensures ok ==> list[0].off == 0 && list[0].len == old(list)[0].len + |src|
      ensures list != [] ==> list[0].id == old(list)[0].id && Cap(list[0]) == Cap(old(list)[0])
    {
      Ends();
      if head == null || PrependSpace(head.n) == 0 {
        return false;
      }
      ok := |src| == PrependSpace(head.n);
      PrependToHead(if ok then src else []);
    }

    /** Puts `src` in front of the first node's bytes: it fills the room there, or is empty. */
    method PrependToHead(src: Bytes)
      requires Valid() && list != [] && 0 < PrependSpace(list[0]) && (src == [] || |src| == PrependSpace(list[0]))
      modifies this, repr
      ensures repr == old(repr)
      ensures Valid() && Conserves(old(L()), L()) && Contents() == src + old(Contents()) && free == old(free)
      ensures var h := old(list)[0];
              |list| == |old(list)| && (forall i :: 1 <= i < |list| ==> list[i] == old(list)[i])
              && list[0].id == h.id && Cap(list[0]) == Cap(h)
              && list[0].off == PrependSpace(h) - |src| && list[0].len == h.len + |src|
    {
      OkIsPrepared(L());
      var c := LendHead();
      PrependChunk(c, src);
    }

    /** Prepends as much of the end of `src` as there is room for. */
    method PrependFromBuffer(src: Bytes) returns (copied: nat)
      requires Valid()
      modifies this, repr
      ensures repr == old(repr)
      ensures Valid() && copied == Min(|src|, old(PrependAvail(L())))
      ensures Contents() == src[|src| - copied..] + old(Contents())
      ensures Conserves(old(L()), L()) && PrependAvail(L()) == old(PrependAvail(L())) - copied
    {
      copied := 0;
      var rest := src;
      ghost var was, done := Contents(), [];
      while true
        invariant repr == old(repr)
        invariant Valid() && src == rest + done && |done| == copied && Contents() == done + was
        invariant Conserves(old(L()), L()) && PrependAvail(L()) == old(PrependAvail(L())) - copied >= 0
        decreases |rest|
      {
        var n, avail := PrependOnce(rest);
        SuffixGrows(rest, n, done, was);
        done := rest[|rest| - n..] + done;
        copied, rest := copied + n, rest[..|rest| - n];
        if n == 0 || n < avail {
          assert src[|src| - copied..] == done;
          return;
        }
      }
    }

    // ---------------------------------------------------------------- free buffers and sizes

    /** The caller hands over a buffer that is not empty; it gets a node of its own. */
    method AddBuff(id: nat, data: Bytes)
      requires Valid() && 0 < |data|
      modifies this`freeHead, this`frees, this`free, this`freeSize, this`freeNodes, this`repr
      ensures Valid() && free == [Node(id, data, 0, 0, false)] + old(free)
      ensures fresh(repr - old(repr))
    {
      var x := new Link(Node(id, data, 0, 0, false));
      repr := repr + {x};
      OwnsMore(repr, links, frees, x);
      assert [x] + [] == [x];
      PutFreeNode(x, []);
    }

    /** Takes a buffer off the free list, with its node gone. */
    method GetFreeBuff() returns (n: Node)
      requires Valid() && free != []
      modifies this`freeHead, this`frees, this`free, this`freeSize, this`freeNodes
      ensures repr == old(repr)
      ensures Valid() && IsBlank(n) && old(free) == [n] + free
    {
      assert IsBlank(free[0]);
      var x := GetFreeNode();
      assert [x] == [x] + [];
      OwnsLoose(repr, links, frees, x, []);
      OwnsLess(repr, links, frees, x);
      n := x.n;
    }

    method MoveOneTo(dst: Mbuff, moved: nat, max: nat, ghost was: seq<Node>, ghost to: seq<Node>, ghost k: nat)
        returns (moved': nat)
      requires Valid() && dst.Valid() && this != dst && free != []
      requires Draining(was, to, free, dst.free, k, moved, max) && (k > 0 ==> moved < max)
      modifies this`freeHead, this`frees, this`free, this`freeSize, this`freeNodes
      modifies dst`freeHead, dst`frees, dst`free, dst`freeSize, dst`freeNodes, dst`repr
      ensures Valid() && dst.Valid() && |free| < old(|free|)
      ensures Draining(was, to, free, dst.free, k + 1, moved', max)
      ensures fresh(dst.repr - old(dst.repr))
    {
      DrainsOne(was, to, free, dst.free, k);
      var n := GetFreeBuff();
      dst.AddBuff(n.id, n.data);
      moved' := moved + Cap(n);
    }

    /** Moves free buffers to `dst`, `k` of them: one at least, until `max` bytes were moved or
        none is left. */
    method MoveFreeBuffsTo(dst: Mbuff, max: nat) returns (moved: nat, ghost k: nat)
      requires Valid() && dst.Valid() && this != dst
      modifies this`freeHead, this`frees, this`free, this`freeSize, this`freeNodes
      modifies dst`freeHead, dst`frees, dst`free, dst`freeSize, dst`freeNodes, dst`repr
      ensures Valid() && dst.Valid() && (free == [] || max <= moved)
      ensures Draining(old(free), old(dst.free), free, dst.free, k, moved, max)
      ensures fresh(dst.repr - old(dst.repr))
    {
      moved, k := 0, 0;
      ghost var was, to, own := free, dst.free, dst.repr;
      var enough := false;
      while freeHead != null && !enough
        invariant Valid() && dst.Valid() && Draining(was, to, free, dst.free, k, moved, max)
        invariant (k == 0 ==> !enough) && (k > 0 ==> enough == (max <= moved))
        invariant fresh(dst.repr - own)
        decreases |free|
      {
        moved := MoveOneTo(dst, moved, max, was, to, k);
        k, enough := k + 1, max <= moved;
      }
    }

    /** All valid bytes, node by node, as they are handed to the device. */
    method Gather() returns (out: Bytes)
      requires Valid()
      ensures out == Contents()
    {
      out := [];
      var x := head;
      ghost var k := 0;
      while x != null
        invariant 0 <= k <= |list| && out == JoinTo(list, k) && x == Ref(links, null, k)
        decreases |list| - k
      {
        assert NextIs(links, null, k) && HasFields(links, list, k);
        out := out + Valids(x.n);
        x, k := x.next, k + 1;
      }
    }

    /** The size of all buffers, from the cached sizes and the two end nodes. */
    method GetTotalSize() returns (r: nat)
      requires Valid()
      ensures r == Total(L())
    {
      Ends();
      CapsFromEnds(list);
      r := freeSize + validSize;
      if head != null {
        r := r + Cap(head.n) - head.n.len;
      }
      if tail != head {
        r := r + Cap(tail.n) - tail.n.len;
      }
    }

    // ---------------------------------------------------------------- reslice

    /** The fields `vs` of loose nodes, each with a buffer. */
    ghost predicate Hangs(x: Link?, loose: seq<Link>, vs: seq<Node>)
      reads this, repr, loose
    {
      && LinkedBut(loose) && FreeOk() && Runs(x, loose, null) && Carries(loose, vs)
      && forall i :: 0 <= i < |vs| ==> 0 < Cap(vs[i])
    }

    /** Resets one node that was unlinked and puts it on the free list. */
    method FreeOne(x: Link, ghost loose: seq<Link>, ghost vs: seq<Node>) returns (next: Link?)
      requires Hangs(x, loose, vs)
      modifies this`freeHead, this`frees, this`free, this`freeSize, this`freeNodes, repr`next, repr`n
      ensures repr == old(repr)
      ensures loose != [] && vs != [] && Hangs(next, loose[1..], vs[1..]) && free == [Blank(vs[0])] + old(free)
    {
      RunsTail(x, loose, null);
      CarriesSplit(loose, vs, 1);
      assert HasFields(loose, vs, 0);
      next := x.next;
      assert loose == [x] + loose[1..];
      OwnsLoose(repr, links, frees, x, loose[1..]);
      x.n := Blank(x.n);
      PutFreeNode(x, loose[1..]);
    }

    /** Frees the nodes from `r` on. */
    method FreeAll(r: Link?, ghost loose: seq<Link>, ghost vs: seq<Node>)
      requires Hangs(r, loose, vs)
      modifies this`freeHead, this`frees, this`free, this`freeSize, this`freeNodes, repr`next, repr`n
      ensures repr == old(repr)
      ensures Linked() && FreeOk()
      ensures Caps(free) == old(Caps(free)) + Caps(vs) && Ids(free) == old(Ids(free)) + Ids(vs)
    {
      var x := r;
      ghost var rest, left := loose, vs;
      while x != null
        invariant Hangs(x, rest, left)
        invariant Caps(free) + Caps(left) == old(Caps(free)) + Caps(vs)
        invariant Ids(free) + Ids(left) == old(Ids(free)) + Ids(vs)
        decreases |rest|
      {
        TakesFree(left);
        AddsFirst(free, Blank(left[0]));
        x := FreeOne(x, rest, left);
        rest, left := rest[1..], left[1..];
      }
    }

    /** As Valid, but for the cached valid size. */
    ghost predicate Loose()
      reads this, repr
    {
      Linked() && Proper(L()) && Lends(L(), -1) && freeSize == Caps(free) && freeNodes == |free|
    }

    /** One round of dropping `rem` bytes from the front. */
    method DropOnce(rem: nat) returns (left: nat)
      requires Loose() && 0 < rem < |Contents()| && list != []
      modifies this, repr
      ensures repr == old(repr)
      ensures Loose() && Conserves(old(L()), L())
      ensures left <= rem && Contents() == old(Contents())[rem - left..] && (left < rem || |list| < old(|list|))
      ensures rem < old(list)[0].len ==> left == 0 && L() == Skip(old(L()), rem)
    {
      Ends();
      var h := head.n;
      if h.len > rem {
        SkipKeeps(L(), rem);
        SetNode(head, 0, h.(off := h.off + rem, len := h.len - rem));
        left := 0;
        assert L() == Skip(old(L()), rem);
      } else {
        left := rem - h.len;
        FreeHead();
      }
    }

    /** The first node goes to the free list; another one follows it. */
    method FreeHead()
      requires Loose() && list != [] && list[0].len < |Contents()|
      modifies this, repr
      ensures repr == old(repr) && Loose() && L() == Shift(old(L())) && Conserves(old(L()), L())
      ensures Contents() == old(Contents())[old(list)[0].len..]
    {
      ShiftKeeps(L());
      NotLast(list);
      var x := UnlinkFirst();
      assert [x] == [x] + [];
      OwnsLoose(repr, links, frees, x, []);
      x.n := Blank(x.n);
      PutFreeNode(x, []);
      assert L() == Shift(old(L()));
    }

    method DropFront(off: nat)
      requires Loose() && off < |Contents()|
      modifies this, repr
      ensures repr == old(repr)
      ensures Loose() && Contents() == old(Contents())[off..] && Conserves(old(L()), L())
      ensures list != [] && (off < old(list)[0].len ==> L() == Skip(old(L()), off))
    {
      var rem: nat := off;
      assert list != [];
      while rem > 0
        invariant repr == old(repr) && Loose() && Conserves(old(L()), L())
        invariant rem <= off < |old(Contents())| && Contents() == old(Contents())[off - rem..]
        invariant list != []
        invariant off < old(list)[0].len ==>
          if rem == off then L() == old(L()) else rem == 0 && L() == Skip(old(L()), off)
        decreases rem, |list|
      {
        ghost var before := Contents();
        var left := DropOnce(rem);
        assert before[rem - left..] == old(Contents())[off - left..];
        rem := left;
      }
    }

    /** The node in which the first `len` bytes end, and how many of them are its own. */
    method FindEnd(len: nat) returns (x: Link, own: nat, ghost k: nat)
      requires Loose() && 0 < len <= |Contents()|
      ensures k < |list| && x == links[k] && x.n == list[k] && 0 < own <= list[k].len && |Join(list[..k])| + own == len
    {
      Ends();
      assert list[..|list|] == list;
      x, own, k := head, len, 0;
      while x.n.len < own
        invariant k < |list| && x == links[k] && x.n == list[k] && 0 < own && |Join(list[..k])| + own == len
        decreases |list| - k
      {
        JoinNext(list, k);
        assert NextIs(links, null, k) && HasFields(links, list, k + 1);
        own := own - x.n.len;
        x, k := x.next, k + 1;
      }
    }

    /** Keeps the first `len` bytes; the nodes behind them go to the free list. */
    method KeepFront(len: nat)
      requires Loose() && 0 < len <= |Contents()|
      modifies this, repr
      ensures repr == old(repr)
      ensures Loose() && Contents() == old(Contents())[..len] && Conserves(old(L()), L())
      ensures CutTo(old(list), len, list)
    {
      var x, own, k := FindEnd(len);
      CutKeeps(list, k, own, len);
      CutCounts(list, k, own);
      ghost var ns, vs := list, list[k + 1..];
      SetNode(x, k, x.n.(len := own));
      var r, loose := CutAfter(x, k);
      assert list == Cut(ns, k, own);
      FreeAll(r, loose, vs);
    }

    method FreeList()
      requires Loose()
      modifies this, repr
      ensures repr == old(repr)
      ensures Loose() && list == [] && Conserves(old(L()), L())
    {
      var r := head;
      ghost var loose, vs := links, list;
      OwnsSplit(repr, links, frees, 0);
      assert links[..0] == [] && links[0..] == links;
      head, tail, links, list := null, null, [], [];
      FreeAll(r, loose, vs);
    }

    /** Keeps `len` bytes from `off` on. */
    method Slice(len: nat, off: nat)
      requires Loose() && 0 < len && off + len <= |Contents()|
      modifies this, repr
      ensures repr == old(repr) && Loose() && Conserves(old(L()), L())
      ensures Contents() == old(Contents())[off..off + len]
      ensures off < old(list)[0].len ==> CutTo(Skip(old(L()), off).list, len, list)
    {
      SliceTwice(Contents(), off, len);
      DropFront(off);
      KeepFront(len);
    }

    /** Redefines the valid bytes as `len` of them from `off` on. */
    method Reslice(len: nat, off: nat) returns (r: int)
      requires Valid()
      modifies this, repr
      ensures repr == old(repr)
      ensures Valid() && Conserves(old(L()), L())
      ensures r == if old(|Contents()|) < off + len then -1 else 0
      ensures r == -1 ==> L() == old(L())
      ensures r == 0 ==> Contents() == if len == 0 then [] else old(Contents())[off..off + len]
      ensures r == 0 && len == 0 ==> list == []
      ensures r == 0 && len > 0 && old(list) != [] && off < old(list)[0].len ==>
                CutTo(Skip(old(L()), off).list, len, list)
    {
      if validSize < off + len {
        return -1;
      }
      if len == 0 {
        FreeList();
      } else {
        Slice(len, off);
      }
      validSize := len;
      r := 0;
    }
  }
}
