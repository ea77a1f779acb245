/** What a put writes and what a get reads back: the record in an Mbuff
    (local_put_mbuff_io, put and get of src/uDepot/udepot-lsa.cc).

    A put brackets the caller's key and value with a header and a suffix, pads them to whole
    grains, writes them, and reslices the Mbuff so that it can be written again elsewhere. */
module PutRecord {
  import opened Arith
  import opened Octets
  import opened Codec
  import opened KvStore
  import opened MbuffSpec
  import opened Mbuffs
  import opened MbuffReaders

  function Zeros(n: nat): (z: Bytes)
    ensures |z| == n
  {
    seq(n, _ => 0)
  }

  function Pad(g: Geometry, n: nat): (r: nat)
    requires Ok(g)
    ensures HEADER + n + SUFFIX + r == g.grainSize * Grains(g, 0, n)
  {
    g.grainSize * Grains(g, 0, n) - HEADER - n - SUFFIX
  }

  /** What is on the device after a put of `kv`, whose first `keySize` bytes are the key. */
  function Record(g: Geometry, kv: Bytes, keySize: nat, ts: nat, crc: Bytes): (r: Bytes)
    requires Ok(g) && keySize <= |kv| && |crc| == SUFFIX
    ensures |r| == g.grainSize * Grains(g, keySize, |kv| - keySize)
  {
    Header(keySize, |kv| - keySize, ts) + kv + crc + Zeros(Pad(g, |kv|))
  }

  datatype Io = Written(bytes: Bytes) | Again | Error

  /** The allocator's answer: an extent, EAGAIN, or another error. */
  datatype Alloc = Granted | TryAgain | Refused

  /** Room for exactly a header in front, and then for a suffix behind. */
  ghost predicate Roomy(ns: seq<Node>) {
    && ns != [] && PrependSpace(ns[0]) == HEADER && SUFFIX <= AppendSpace(ns[|ns| - 1])
    && (|ns| == 1 ==> ns[0].len > 0)
  }

  /** The memory at hand for one more buffer: whether there is any, the buffer's identity, and the
      bytes it happens to hold. */
  datatype Memory = Memory(ok: bool, id: nat, byte: nat -> Byte)

  const BUFFER_ALIGN: nat := 4096

  function AlignUp(n: nat, a: nat): (r: nat)
    requires 0 < a
    ensures n <= r < n + a && r % a == 0
  {
    Divided(n + a - 1, a);
    DivPositive(n + a - 1, a);
    DivModUnique((n + a - 1) / a * a, a, (n + a - 1) / a, 0);
    (n + a - 1) / a * a
  }

  /** What asking for `want` free bytes adds to `free` of them: one buffer for what is missing. */
  function Extra(free: nat, want: nat, ok: bool): (r: nat)
    ensures if free < want && ok then want <= free + r < want + 4096 && r % 4096 == 0 else r == 0
  {
    if want <= free || !ok then 0 else AlignUp(want - free, BUFFER_ALIGN)
  }

  /** The room for padding of `n` bytes, out of `avail` bytes of which `free` are in free buffers. When
      there is not enough, the code asks for `n` less `free` bytes in all, not for so many more. */
  function Room(avail: int, free: nat, n: nat, ok: bool): int
    requires free <= avail
  {
    avail + if avail < n then Extra(free, n - free, ok) else 0
  }

  /** When there is memory, padding succeeds exactly if it fits, or more than twice the free bytes are
      needed and what is then added is enough. */
  lemma PaddingFits(avail: nat, free: nat, n: nat)
    requires free <= avail
    ensures n <= Room(avail, free, n, true) <==>
            n <= avail || (2 * free < n && n <= avail + AlignUp(n - 2 * free, BUFFER_ALIGN))
    ensures free == 0 ==> n <= Room(avail, free, n, true)
  {
  }

  /** With memory at hand, padding of 12000 bytes fails after 5000 free ones. */
  lemma PaddingCanFail()
    ensures Room(5000, 5000, 12000, true) < 12000
  {
  }

  /** Once header and suffix are in place there is room for `pad` bytes more. */
  ghost predicate HasRoom(l: Lists, pad: nat, ok: bool) {
    var avail := AppendAvail(l) - SUFFIX;
    Caps(l.free) <= avail && pad <= Room(avail, Caps(l.free), pad, ok)
  }

  /** There is room for the padding. */
  ghost predicate PadFits(g: Geometry, l: Lists, ok: bool)
    requires Ok(g) && Proper(l)
  {
    HasRoom(l, Pad(g, |Join(l.list)|), ok)
  }

  /** Both end nodes hold bytes of the key and value. */
  ghost predicate Ended(ns: seq<Node>) { ns != [] && ns[0].len > 0 && ns[|ns| - 1].len > 0 }

  /** `ms` is `ns` with a header in front of its first node and bytes appended. */
  ghost predicate Bracketed(ns: seq<Node>, ms: seq<Node>) {
    && ns != [] && ms != [] && HEADER < ms[0].len && Legit(ms)
    && Extends(ns, Skip(Lists(ms, []), HEADER).list)
  }

  /** A header was put in front of the first node's bytes. */
  ghost predicate Headed(ns: seq<Node>, ms: seq<Node>) {
    && |ns| == |ms| && ns != [] && Legit(ms) && (forall i :: 1 <= i < |ns| ==> ms[i] == ns[i])
    && ms[0].id == ns[0].id && MbuffSpec.Cap(ms[0]) == MbuffSpec.Cap(ns[0])
    && PrependSpace(ns[0]) == HEADER && ms[0].off == 0 && ms[0].len == ns[0].len + HEADER
  }

  lemma HeadedRoom(ns: seq<Node>, ms: seq<Node>)
    requires Legit(ns) && Headed(ns, ms)
    ensures Roomy(ns) <==> SUFFIX <= AppendSpace(ms[|ms| - 1])
  {
  }

  lemma HeadedBrackets(l: Lists, ms: seq<Node>, m: Lists)
    requires Legit(l.list) && Headed(l.list, ms) && Legit(m.list) && Extends(ms, m.list) && |m.list| == |ms|
    requires m.list[|ms| - 1].len == ms[|ms| - 1].len + SUFFIX && m.free == l.free
    ensures Ended(l.list) ==> Bracketed(l.list, m.list)
    ensures AppendAvail(m) == AppendAvail(l) - SUFFIX
  {
  }

  method PrependAppendMd(mb: Mbuff, header: Bytes, crc: Bytes) returns (pre: bool, post: bool)
    requires mb.Valid() && |header| == HEADER && |crc| == SUFFIX
    modifies mb, mb.repr
    ensures mb.Valid() && mb.repr == old(mb.repr) && old(Total(mb.L())) <= Total(mb.L())
    ensures mb.Contents() == (if pre then header else []) + old(mb.Contents()) + if post then crc else []
    ensures pre && post <==> old(Roomy(mb.list))
    ensures pre && post && old(Ended(mb.list)) ==> Bracketed(old(mb.list), mb.list)
    ensures pre && post ==> AppendAvail(mb.L()) == old(AppendAvail(mb.L())) - SUFFIX && mb.free == old(mb.free)
  {
    ghost var l := mb.L();
    pre := mb.PrependInline(header);
    ghost var ms := mb.list;
    if pre { HeadedRoom(l.list, ms); }
    post := mb.AppendInline(crc);
    if pre && post { HeadedBrackets(l, ms, mb.L()); }
  }

  lemma BracketedExtends(ns: seq<Node>, ms: seq<Node>, ls: seq<Node>)
    requires Bracketed(ns, ms) && Extends(ms, ls) && Legit(ls)
    ensures Bracketed(ns, ls)
  {
  }

  /** Reslicing to the key and value gives every node back its extent. */
  lemma ResliceRestores(ns: seq<Node>, ms: seq<Node>, ls: seq<Node>)
    requires Legit(ns) && Ended(ns) && Legit(ms) && Extends(ns, ms) && CutTo(ms, |Join(ns)|, ls)
    ensures SameShape(ns, ls)
  {
    var t := |ns| - 1;
    LenSame(ns, ms, t);
    JoinSize(ns, |ns|);
    EndIsUnique(ms, |Join(ns)|, |ls| - 1, t);
  }

  lemma BracketRestores(ns: seq<Node>, l: Lists, ls: seq<Node>)
    requires Legit(ns) && Ended(ns) && Bracketed(ns, l.list) && CutTo(Skip(l, HEADER).list, |Join(ns)|, ls)
    ensures SameShape(ns, ls)
  {
    ResliceRestores(ns, Skip(Lists(l.list, []), HEADER).list, ls);
  }

  /** Makes room for `n` more bytes if need be. */
  method MakeRoom(mb: Mbuff, n: nat, mem: Memory) returns (avail: nat)
    requires mb.Valid()
    modifies mb, mb.repr
    ensures fresh(mb.repr - old(mb.repr))
    ensures mb.Valid() && mb.list == old(mb.list) && old(Total(mb.L())) <= Total(mb.L()) && avail == AppendAvail(mb.L())
    ensures old(Caps(mb.free) <= AppendAvail(mb.L()))
    ensures avail == Room(old(AppendAvail(mb.L())), old(Caps(mb.free)), n, mem.ok)
  {
    avail := Available(mb);
    if avail < n {
      AddBuffers(mb, n - mb.freeSize, mem);
      avail := Available(mb);
    }
  }

  /** Appends `n` zeros, or nothing if there is no room for them. */
  method AppendPadding(mb: Mbuff, n: nat, mem: Memory) returns (ok: bool)
    requires mb.Valid()
    modifies mb, mb.repr
    ensures fresh(mb.repr - old(mb.repr))
    ensures mb.Valid() && Extends(old(mb.list), mb.list) && old(Total(mb.L())) <= Total(mb.L())
    ensures mb.Contents() == old(mb.Contents()) + if ok then Zeros(n) else []
    ensures old(Caps(mb.free) <= AppendAvail(mb.L()))
    ensures ok == (n <= Room(old(AppendAvail(mb.L())), old(Caps(mb.free)), n, mem.ok))
  {
    var avail := MakeRoom(mb, n, mem);
    ok := n <= avail;
    if ok {
      AppendZeros(mb, n);
    }
  }

  method AppendZeros(mb: Mbuff, n: nat)
    requires mb.Valid() && n <= AppendAvail(mb.L())
    modifies mb, mb.repr
    ensures mb.repr == old(mb.repr) && mb.Valid() && mb.Contents() == old(mb.Contents()) + Zeros(n)
    ensures Extends(old(mb.list), mb.list) && Total(mb.L()) == old(Total(mb.L()))
  {
    var copied := mb.AppendFromBuffer(Zeros(n));
    assert Zeros(n)[..n] == Zeros(n);
  }

  method Available(mb: Mbuff) returns (r: nat)
    requires mb.Valid()
    ensures r == AppendAvail(mb.L()) && Caps(mb.free) <= r
  {
    mb.Ends();
    r := mb.freeSize + if mb.tail == null then 0 else AppendSpace(mb.tail.n);
  }

  /** Asks for `want` free bytes in all. */
  method AddBuffers(mb: Mbuff, want: nat, mem: Memory)
    requires mb.Valid()
    modifies mb, mb.repr
    ensures fresh(mb.repr - old(mb.repr))
    ensures mb.Valid() && mb.list == old(mb.list)
    ensures Caps(mb.free) == old(Caps(mb.free)) + Extra(old(Caps(mb.free)), want, mem.ok)
  {
    if want <= mb.freeSize {
      return;
    }
    var n := AlignUp(want - mb.freeSize, BUFFER_ALIGN);
    if mem.ok {
      var data := seq(n, i requires 0 <= i => mem.byte(i));
      AddsFirst(mb.free, Node(mem.id, data, 0, 0, false));
      mb.AddBuff(mem.id, data);
    }
  }

  lemma Middle(pre: Bytes, kv: Bytes, suf: Bytes)
    ensures (pre + kv + suf)[|pre|..|pre| + |kv|] == kv
  {
  }

  /** Pads and writes the bracketed record. */
  method PadAndWrite(mb: Mbuff, pad: nat, mem: Memory, ioOk: bool, ghost front: Bytes, ghost crc: Bytes,
                     ghost ns: seq<Node>)
      returns (r: Io, ghost suf: Bytes)
    requires mb.Valid() && mb.Contents() == front + crc
    modifies mb, mb.repr
    ensures fresh(mb.repr - old(mb.repr))
    ensures mb.Valid() && old(Total(mb.L())) <= Total(mb.L()) && !r.Again?
    ensures old(Bracketed(ns, mb.list)) ==> Bracketed(ns, mb.list)
    ensures mb.Contents() == front + suf && (r.Written? ==> r.bytes == front + crc + Zeros(pad))
    ensures old(Caps(mb.free) <= AppendAvail(mb.L()))
    ensures r.Written? <==> ioOk && pad <= Room(old(AppendAvail(mb.L())), old(Caps(mb.free)), pad, mem.ok)
  {
    ghost var ms := mb.list;
    var padded := AppendPadding(mb, pad, mem);
    if Bracketed(ns, ms) { BracketedExtends(ns, ms, mb.list); }
    ghost var z := if padded then Zeros(pad) else [];
    r, suf := Error, crc + z;
    Associate(front, crc, z);
    if padded && ioOk {
      var bytes := mb.Gather();
      r := Written(bytes);
    }
  }

  /** Brackets, pads and writes the record; `pre` and `suf` are what was put around it. */
  method WriteAround(mb: Mbuff, header: Bytes, crc: Bytes, pad: nat, mem: Memory, ioOk: bool)
      returns (r: Io, ghost pre: Bytes, ghost suf: Bytes)
    requires mb.Valid() && |header| == HEADER && |crc| == SUFFIX
    modifies mb, mb.repr
    ensures fresh(mb.repr - old(mb.repr))
    ensures mb.Valid() && old(Total(mb.L())) <= Total(mb.L())
    ensures mb.Contents() == pre + old(mb.Contents()) + suf && !r.Again?
    ensures |pre| == HEADER || (pre == [] && (suf == [] || suf == crc) && r.Error? && !old(Roomy(mb.list)))
    ensures r.Written? <==> ioOk && old(Roomy(mb.list) && HasRoom(mb.L(), pad, mem.ok))
    ensures r.Written? ==> r.bytes == header + old(mb.Contents()) + crc + Zeros(pad)
    ensures old(Roomy(mb.list) && Ended(mb.list)) ==> Bracketed(old(mb.list), mb.list)
  {
    ghost var kv := mb.Contents();
    var a, b := PrependAppendMd(mb, header, crc);
    pre, suf := if a then header else [], if b then crc else [];
    r := Error;
    if a && b {
      r, suf := PadAndWrite(mb, pad, mem, ioOk, header + kv, crc, old(mb.list));
    }
  }

  method Write(mb: Mbuff, keySize: nat, g: Geometry, ts: nat, crc: Bytes, mem: Memory, ioOk: bool)
      returns (r: Io, ghost pre: Bytes, ghost suf: Bytes)
    requires mb.Valid() && keySize <= |mb.Contents()| && Ok(g) && |crc| == SUFFIX
    modifies mb, mb.repr
    ensures fresh(mb.repr - old(mb.repr))
    ensures mb.Valid() && old(Total(mb.L())) <= Total(mb.L())
    ensures mb.Contents() == pre + old(mb.Contents()) + suf && !r.Again?
    ensures |pre| == HEADER || (pre == [] && (suf == [] || suf == crc) && r.Error? && !old(Roomy(mb.list)))
    ensures r.Written? <==> ioOk && old(Roomy(mb.list) && PadFits(g, mb.L(), mem.ok))
    ensures r.Written? ==> r.bytes == Record(g, old(mb.Contents()), keySize, ts, crc)
    ensures old(Roomy(mb.list) && Ended(mb.list)) ==> Bracketed(old(mb.list), mb.list)
  {
    var header, pad := Header(keySize, mb.validSize - keySize, ts), Pad(g, mb.validSize);
    assert Record(g, mb.Contents(), keySize, ts, crc) == header + mb.Contents() + crc + Zeros(pad);
    assert PadFits(g, mb.L(), mem.ok) == HasRoom(mb.L(), pad, mem.ok);
    r, pre, suf := WriteAround(mb, header, crc, pad, mem, ioOk);
  }

  /** One attempt to put the record, and the reslice that follows it. `alloc` is the allocator's
      answer, `ioOk` the device's. The key and value are as before, unless they did not leave
      exactly the room for a header and the suffix alone was added. */
  method Attempt(mb: Mbuff, keySize: nat, g: Geometry, alloc: Alloc, ts: nat, crc: Bytes, mem: Memory,
                 ioOk: bool) returns (r: Io)
    requires mb.Valid() && keySize <= |mb.Contents()| && Ok(g) && |crc| == SUFFIX
    modifies mb, mb.repr
    ensures fresh(mb.repr - old(mb.repr))
    ensures mb.Valid() && old(Total(mb.L())) <= Total(mb.L())
    ensures r.Again? <==> alloc.TryAgain?
    ensures r.Written? <==> alloc.Granted? && ioOk && old(Roomy(mb.list)) && old(PadFits(g, mb.L(), mem.ok))
    ensures r.Written? ==> r.bytes == Record(g, old(mb.Contents()), keySize, ts, crc)
    ensures mb.Contents() == old(mb.Contents())
         || (alloc.Granted? && !old(Roomy(mb.list)) && r.Error? && mb.Contents() == old(mb.Contents()) + crc)
    ensures old(Roomy(mb.list)) && old(Ended(mb.list)) ==> Roomy(mb.list) && Ended(mb.list)
  {
    var size := mb.validSize;
    ghost var ns, kv, pre, suf := mb.list, mb.Contents(), [], [];
    if alloc.Granted? {
      r, pre, suf := Write(mb, keySize, g, ts, crc, mem, ioOk);
    } else {
      r := if alloc.TryAgain? then Again else Error;
    }
    Restore(mb, size, ns, kv, pre, suf);
    if Roomy(ns) && Ended(ns) { ShapeRoom(ns, mb.list); }
  }

  /** The reslice after an attempt takes off what the attempt put around the key and value; it
      does nothing if no header was put in front. */
  method Restore(mb: Mbuff, size: nat, ghost ns: seq<Node>, ghost kv: Bytes, ghost pre: Bytes, ghost suf: Bytes)
    requires mb.Valid() && mb.Contents() == pre + kv + suf && |kv| == size && Legit(ns) && Join(ns) == kv
    requires |pre| == HEADER || (pre == [] && |suf| <= SUFFIX)
    modifies mb, mb.repr
    ensures mb.Valid() && mb.repr == old(mb.repr) && old(Total(mb.L())) <= Total(mb.L())
    ensures mb.Contents() == if |pre| == HEADER then kv else kv + suf
    ensures Ended(ns) && old(Bracketed(ns, mb.list)) && |pre| == HEADER ==> SameShape(ns, mb.list)
    ensures pre == [] ==> mb.list == old(mb.list)
  {
    Middle(pre, kv, suf);
    ghost var was := mb.L();
    var rc := mb.Reslice(size, HEADER);
    if Ended(ns) && Bracketed(ns, was.list) && |pre| == HEADER {
      NotEmpty(ns);
      BracketRestores(ns, was, mb.list);
    }
  }

  lemma NotEmpty(ns: seq<Node>)
    requires Legit(ns) && Ended(ns)
    ensures 0 < |Join(ns)|
  {
    JoinSize(ns, |ns|);
    LenMonotone(ns, 1, |ns|);
    assert LenTo(ns, 1) == LenTo(ns, 0) + ns[0].len;
  }

  lemma ShapeRoom(ns: seq<Node>, ms: seq<Node>)
    requires SameShape(ns, ms) && Roomy(ns) && Ended(ns)
    ensures Roomy(ms) && Ended(ms)
  {
  }

  // ---------------------------------------------------------------- reading back

  /** A record read with whatever follows it: header, then key and value. */
  lemma RecordParts(g: Geometry, kv: Bytes, keySize: nat, ts: nat, crc: Bytes, more: Bytes) returns (rest: Bytes)
    requires Ok(g) && keySize <= |kv| && |crc| == SUFFIX
    ensures Record(g, kv, keySize, ts, crc) + more == Header(keySize, |kv| - keySize, ts) + rest && kv <= rest
  {
    var h, z := Header(keySize, |kv| - keySize, ts), Zeros(Pad(g, |kv|));
    rest := kv + crc + z + more;
    Regroup(h, kv, crc, z, more);
  }

  lemma Regroup(h: Bytes, kv: Bytes, crc: Bytes, z: Bytes, more: Bytes)
    ensures h + kv + crc + z + more == h + (kv + crc + z + more) && kv <= kv + crc + z + more
  {
  }

  /** The layout of a record: 14 bytes of header, key and value, two bytes of checksum, and zeros up to
      the next whole grain. */
  lemma RecordLayout(g: Geometry, kv: Bytes, keySize: nat, ts: nat, crc: Bytes)
    requires Ok(g) && keySize <= |kv| && |crc| == 2
    ensures var r, n := Record(g, kv, keySize, ts, crc), |kv|;
            && 16 + n <= |r| < 16 + n + g.grainSize && |r| % g.grainSize == 0
            && r[..14] == Header(keySize, n - keySize, ts) && r[14..14 + n] == kv && r[14 + n..16 + n] == crc
            && forall i :: 16 + n <= i < |r| ==> r[i] == 0
  {
    WholeGrains(g, keySize, |kv| - keySize);
    LaidOut(Header(keySize, |kv| - keySize, ts), kv, crc, Zeros(Pad(g, |kv|)));
  }

  lemma WholeGrains(g: Geometry, key: nat, val: nat)
    requires Ok(g)
    ensures var n := g.grainSize * Grains(g, key, val);
            16 + key + val <= n < 16 + key + val + g.grainSize && n % g.grainSize == 0
  {
    var k := Grains(g, key, val);
    assert (k - 1) * g.grainSize == k * g.grainSize - g.grainSize && g.grainSize * k == k * g.grainSize;
    DivModUnique(k * g.grainSize, g.grainSize, k, 0);
  }

  lemma LaidOut(h: Bytes, kv: Bytes, crc: Bytes, z: Bytes)
    ensures var r, a, b := h + kv + crc + z, |h| + |kv|, |h| + |kv| + |crc|;
            r[..|h|] == h && r[|h|..a] == kv && r[a..b] == crc && r[b..] == z
  {
  }

  /** Stretches of the key and value, as stretches of the record. */
  lemma Within(h: Bytes, rest: Bytes, kv: Bytes, i: nat, n: nat)
    requires kv <= rest && i + n <= |kv|
    ensures (h + rest)[|h| + i..|h| + i + n] == kv[i..i + n]
  {
    assert rest[..|kv|] == kv;
  }

  /** What a lookup of `key` sees in a record, whatever follows it in the read buffer: the key
      matches exactly when its size fits the header's field and the bytes are equal. */
  lemma KeyReadsBack(g: Geometry, kv: Bytes, keySize: nat, ts: nat, crc: Bytes, key: Bytes, more: Bytes)
    requires Ok(g) && keySize <= |kv| && |crc| == SUFFIX && |key| == keySize
    ensures var b := Record(g, kv, keySize, ts, crc) + more;
            KeySize(b) == |key| && b[HEADER..HEADER + |key|] == key <==> keySize < Pow(2) && kv[..keySize] == key
  {
    var rest := RecordParts(g, kv, keySize, ts, crc, more);
    HeaderFields(keySize, |kv| - keySize, ts, rest);
    ModAtMost(keySize, Pow(2));
    Within(Header(keySize, |kv| - keySize, ts), rest, kv, 0, keySize);
  }

  /** A get that found the record reslices its buffer to the value, exactly when the value's size
      fits the header's field; otherwise it returns that many bytes less. */
  lemma ValueReadsBack(g: Geometry, kv: Bytes, keySize: nat, ts: nat, crc: Bytes, more: Bytes)
    requires Ok(g) && keySize <= |kv| && |crc| == SUFFIX
    ensures var b := Record(g, kv, keySize, ts, crc) + more;
            var n := ValSize(b);
            && n <= |kv| - keySize && b[HEADER + keySize..HEADER + keySize + n] == kv[keySize..keySize + n]
            && (n == |kv| - keySize <==> |kv| - keySize < Pow(4))
  {
    var v := |kv| - keySize;
    var rest := RecordParts(g, kv, keySize, ts, crc, more);
    HeaderFields(keySize, v, ts, rest);
    ModAtMost(v, Pow(4));
    Within(Header(keySize, v, ts), rest, kv, keySize, v % Pow(4));
  }

  lemma SizesFit(keySize: nat, valSize: nat, ts: nat, rest: Bytes)
    ensures var b := Header(keySize, valSize, ts) + rest;
            KeySize(b) == keySize && ValSize(b) == valSize <==> keySize < KEY_LIMIT && valSize < VAL_LIMIT
  {
    HeaderFields(keySize, valSize, ts, rest);
    ModAtMost(keySize, Pow(2));
    ModAtMost(valSize, Pow(4));
    assert Pow(2) == KEY_LIMIT && Pow(4) == VAL_LIMIT;
  }

  /** The header of a record gives its sizes, and something to go by, exactly if the sizes fit. */
  lemma RecordableReadsBack(g: Geometry, kv: Bytes, keySize: nat, ts: nat, crc: Bytes, more: Bytes)
    requires Ok(g) && keySize <= |kv| && |crc| == SUFFIX
    ensures var b := Record(g, kv, keySize, ts, crc) + more;
            Recordable(kv[..keySize], kv[keySize..]) <==>
            KeySize(b) == keySize && ValSize(b) == |kv| - keySize && 0 < KeySize(b) + ValSize(b)
  {
    var rest := RecordParts(g, kv, keySize, ts, crc, more);
    SizesFit(keySize, |kv| - keySize, ts, rest);
  }

  lemma SizeInPrefix(b: Bytes)
    requires HEADER <= |b|
    ensures ValSize(b[..HEADER]) == ValSize(b)
  {
    assert b[..HEADER][2..6] == b[2..6];
  }

  /** What the reslice of a get leaves of the read buffer. */
  lemma GetLeaves(g: Geometry, kv: Bytes, keySize: nat, ts: nat, crc: Bytes, more: Bytes, b: Bytes)
    requires Ok(g) && keySize <= |kv| && |crc| == SUFFIX && b == Record(g, kv, keySize, ts, crc) + more
    ensures HEADER <= |b| && HEADER + keySize + ValSize(b[..HEADER]) <= |b|
    ensures ValueOf(b, keySize) == kv[keySize..] <==> |kv| - keySize < Pow(4)
  {
    var n := ValSize(b[..HEADER]);
    ValueReadsBack(g, kv, keySize, ts, crc, more);
    SizeInPrefix(b);
    assert n == |kv| - keySize ==> kv[keySize..keySize + n] == kv[keySize..];
  }

  /** The get itself: the read buffer holds the record, the header gives the size of the value. */
  method Get(mb: Mbuff, keySize: nat, ghost g: Geometry, ghost kv: Bytes, ghost ts: nat, ghost crc: Bytes,
             ghost more: Bytes)
    requires mb.Valid() && Ok(g) && keySize <= |kv| && |crc| == SUFFIX
    requires mb.Contents() == Record(g, kv, keySize, ts, crc) + more
    modifies mb, mb.repr
    ensures mb.Valid() && mb.repr == old(mb.repr)
    ensures mb.Contents() == kv[keySize..] <==> |kv| - keySize < Pow(4)
  {
    ghost var b := mb.Contents();
    GetLeaves(g, kv, keySize, ts, crc, more, b);
    KeepValue(mb, keySize);
  }

  /** What is left of a record when all but the value is cut away, as its header has it. */
  function ValueOf(b: Bytes, keySize: nat): Bytes
    requires HEADER <= |b| && HEADER + keySize + ValSize(b[..HEADER]) <= |b|
  {
    var n := ValSize(b[..HEADER]);
    if n == 0 then [] else b[HEADER + keySize..HEADER + keySize + n]
  }

  method KeepValue(mb: Mbuff, keySize: nat)
    requires mb.Valid() && HEADER <= |mb.Contents()|
    requires HEADER + keySize + ValSize(mb.Contents()[..HEADER]) <= |mb.Contents()|
    modifies mb, mb.repr
    ensures mb.Valid() && mb.repr == old(mb.repr) && mb.Contents() == ValueOf(old(mb.Contents()), keySize)
  {
    var n := HeaderValSize(mb);
    var rc := mb.Reslice(n, HEADER + keySize);
  }

  /** The value size in the header at the front of the buffer. */
  method HeaderValSize(mb: Mbuff) returns (n: nat)
    requires mb.Valid() && HEADER <= |mb.Contents()|
    modifies mb`list, mb.repr`n
    ensures mb.Valid() && mb.list == old(mb.list) && n == ValSize(mb.Contents()[..HEADER])
  {
    var header := CopyToBuffer(mb, 0, HEADER);
    n := ValSize(header);
  }
}
