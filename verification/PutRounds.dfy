/** The rounds of a put (put, local_put_mbuff and lookup_mbuff_put of src/uDepot/udepot-lsa.cc): an
    attempt to write the record, then lookups that read candidate records into a second Mbuff,
    for which the put's own free buffers are moved away and back. */
module PutRounds {
  import opened Arith
  import opened Octets
  import opened Extents
  import opened Codec
  import opened KvStore
  import opened MbuffSpec
  import opened MbuffLinks
  import opened Mbuffs
  import opened MbuffReaders
  import opened PutRecord

  // ---------------------------------------------------------------- the lookup's reads

  /** A candidate record that a lookup reads: the memory it meets when it needs a buffer, whether the
      device reads, what it reads, and whether the map's entry is still there afterwards, since the
      lock is not held during the read. */
  datatype Read = Read(mem: Memory, ioOk: bool, bytes: Bytes, kept: bool)

  /** The read may end in an error. */
  predicate Fails(r: Read) { !r.mem.ok || !r.ioOk }

  predicate ReadOk(r: Read, keySize: nat) { HEADER + keySize <= |r.bytes| }

  /** The size of the buffers after the first `n` reads, with `total` bytes to begin with. */
  function Grown(total: nat, cands: seq<Read>, n: nat): nat requires n <= |cands| {
    if n == 0 then total
    else
      var t := Grown(total, cands, n - 1);
      t + Extra(t, |cands[n - 1].bytes|, cands[n - 1].mem.ok)
  }

  /** The record `bytes` has the key `key`. */
  predicate HasKey(bytes: Bytes, key: Bytes) {
    HEADER + |key| <= |bytes| && KeySize(bytes) == |key| && bytes[HEADER..HEADER + |key|] == key
  }

  predicate Hits(r: Read, key: Bytes) { HasKey(r.bytes, key) && r.kept }

  /** Gives all buffers back to the free list. */
  method Empty(mb: Mbuff)
    requires mb.Valid()
    modifies mb, mb.repr
    ensures mb.Valid() && mb.repr == old(mb.repr)
    ensures mb.list == [] && Caps(mb.free) == old(Total(mb.L()))
  {
    var rc := mb.Reslice(0, 0);
  }

  method Fill(mb: Mbuff, bytes: Bytes)
    requires mb.Valid() && mb.list == [] && |bytes| <= Caps(mb.free)
    modifies mb, mb.repr
    ensures mb.Valid() && mb.repr == old(mb.repr)
    ensures mb.Contents() == bytes && Total(mb.L()) == old(Caps(mb.free))
  {
    var copied := mb.AppendFromBuffer(bytes);
    assert bytes[..|bytes|] == bytes;
  }

  /** Empties the Mbuff and reads a record into it. */
  method ReadRecord(dst: Mbuff, r: Read) returns (ok: bool)
    requires dst.Valid()
    modifies dst, dst.repr
    ensures fresh(dst.repr - old(dst.repr))
    ensures dst.Valid() && Total(dst.L()) == old(Total(dst.L())) + Extra(old(Total(dst.L())), |r.bytes|, r.mem.ok)
    ensures ok <==> r.ioOk && (|r.bytes| <= old(Total(dst.L())) || r.mem.ok)
    ensures ok ==> dst.Contents() == r.bytes
  {
    Empty(dst);
    AddBuffers(dst, |r.bytes|, r.mem);
    ok := r.ioOk && |r.bytes| <= dst.freeSize;
    if ok {
      Fill(dst, r.bytes);
    }
  }

  lemma KeySizeInPrefix(b: Bytes)
    requires HEADER <= |b|
    ensures KeySize(b[..HEADER]) == KeySize(b)
  {
    assert b[..HEADER][..2] == b[..2];
  }

  /** Whether the record that was read has the put's key. */
  method KeyMatches(mb: Mbuff, keySize: nat, dst: Mbuff) returns (hit: bool)
    requires mb.Valid() && dst.Valid() && mb != dst && mb.repr !! dst.repr
    requires 0 < keySize <= |mb.Contents()| && HEADER + keySize <= |dst.Contents()|
    modifies mb`list, mb.repr`n, dst`list, dst.repr`n
    ensures mb.Valid() && dst.Valid() && mb.list == old(mb.list) && dst.list == old(dst.list)
    ensures hit <==> HasKey(dst.Contents(), mb.Contents()[..keySize])
  {
    KeySizeInPrefix(dst.Contents());
    var header := CopyToBuffer(dst, 0, HEADER);
    hit := KeySize(header) == keySize;
    if hit {
      var r := MemCompare(mb, 0, dst, HEADER, keySize);
      hit := r == 0;
    }
  }

  /** None of the first `n` candidates has the key. */
  ghost predicate Missed(cands: seq<Read>, key: Bytes, n: nat) {
    n <= |cands| && forall j :: 0 <= j < n ==> !Hits(cands[j], key)
  }

  /** What a lookup that ended after `n` reads found: the last of them has the key if `hit`, and no
      other has. */
  ghost predicate Finds(cands: seq<Read>, key: Bytes, n: nat, hit: bool) {
    if hit then 0 < n <= |cands| && Hits(cands[n - 1], key) && Missed(cands, key, n - 1)
    else n == |cands| && Missed(cands, key, n)
  }

  /** The key is in `mb` and the records are read into `dst`; the two share nothing. */
  ghost predicate Beside(mb: Mbuff, keySize: nat, dst: Mbuff)
    reads mb, mb.repr, dst, dst.repr
  {
    && mb.Valid() && dst.Valid() && mb != dst && mb.repr !! dst.repr
    && 0 < keySize <= |mb.Contents()|
  }

  /** Reads candidate `n` and compares its key. */
  method Probe(mb: Mbuff, keySize: nat, dst: Mbuff, r: Read) returns (ok: bool, hit: bool)
    requires Beside(mb, keySize, dst) && ReadOk(r, keySize)
    modifies mb`list, mb.repr`n, dst, dst.repr
    ensures fresh(dst.repr - old(dst.repr)) && Beside(mb, keySize, dst) && mb.list == old(mb.list)
    ensures Total(dst.L()) == old(Total(dst.L())) + Extra(old(Total(dst.L())), |r.bytes|, r.mem.ok)
    ensures !ok ==> Fails(r)
    ensures ok ==> (hit <==> Hits(r, mb.Contents()[..keySize]))
  {
    hit := false;
    ok := ReadRecord(dst, r);
    if ok {
      hit := KeyMatches(mb, keySize, dst);
      hit := hit && r.kept;
    }
  }

  lemma MissedMore(cands: seq<Read>, key: Bytes, n: nat)
    requires Missed(cands, key, n) && n < |cands| && !Hits(cands[n], key)
    ensures Missed(cands, key, n + 1)
  {
  }

  /** How far a search got: `n` reads, the last of which ended in an error unless `ok`. */
  ghost predicate Searched(cands: seq<Read>, key: Bytes, n: nat, ok: bool, hit: bool) {
    && n <= |cands|
    && if !ok then 0 < n && Fails(cands[n - 1])
       else if hit then Finds(cands, key, n, true)
       else Missed(cands, key, n)
  }

  /** Reads the next candidate; none so far had the key. */
  method SearchStep(mb: Mbuff, keySize: nat, dst: Mbuff, cands: seq<Read>, n: nat, ghost key: Bytes, ghost total: nat)
      returns (ok: bool, hit: bool)
    requires Beside(mb, keySize, dst) && n < |cands| && ReadOk(cands[n], keySize)
    requires key == mb.Contents()[..keySize] && Missed(cands, key, n) && Total(dst.L()) == Grown(total, cands, n)
    modifies mb`list, mb.repr`n, dst, dst.repr
    ensures fresh(dst.repr - old(dst.repr)) && Beside(mb, keySize, dst) && mb.list == old(mb.list)
    ensures Searched(cands, key, n + 1, ok, hit) && Total(dst.L()) == Grown(total, cands, n + 1)
  {
    ok, hit := Probe(mb, keySize, dst, cands[n]);
    if ok && !hit { MissedMore(cands, key, n); }
  }

  /** Reads the candidates one after the other until one has the key. */
  method Search(mb: Mbuff, keySize: nat, dst: Mbuff, cands: seq<Read>) returns (ok: bool, hit: bool, n: nat)
    requires Beside(mb, keySize, dst) && forall i :: 0 <= i < |cands| ==> ReadOk(cands[i], keySize)
    modifies mb`list, mb.repr`n, dst, dst.repr
    ensures fresh(dst.repr - old(dst.repr)) && Beside(mb, keySize, dst) && mb.list == old(mb.list)
    ensures Searched(cands, mb.Contents()[..keySize], n, ok, hit) && (ok && !hit ==> n == |cands|)
    ensures Total(dst.L()) == Grown(old(Total(dst.L())), cands, n)
  {
    ok, hit, n := true, false, 0;
    ghost var key, total := mb.Contents()[..keySize], Total(dst.L());
    while n < |cands| && ok && !hit
      invariant Searched(cands, key, n, ok, hit)
      invariant fresh(dst.repr - old(dst.repr)) && Beside(mb, keySize, dst) && mb.list == old(mb.list)
      invariant Total(dst.L()) == Grown(total, cands, n)
      decreases |cands| - n
    {
      ok, hit := SearchStep(mb, keySize, dst, cands, n, key, total);
      n := n + 1;
    }
  }

  /** Free buffers move from one Mbuff to the other; none is lost. */
  method Move(src: Mbuff, dst: Mbuff, max: nat) returns (moved: nat)
    requires src.Valid() && dst.Valid() && src != dst
    modifies src`freeHead, src`frees, src`free, src`freeSize, src`freeNodes
    modifies dst`freeHead, dst`frees, dst`free, dst`freeSize, dst`freeNodes, dst`repr
    ensures src.Valid() && dst.Valid() && fresh(dst.repr - old(dst.repr))
    ensures Total(src.L()) + moved == old(Total(src.L())) && Total(dst.L()) == old(Total(dst.L())) + moved
    ensures moved <= old(src.freeSize) && (max <= moved || (src.free == [] && moved == old(src.freeSize)))
  {
    ghost var was, to := src.free, dst.free;
    ghost var k;
    moved, k := src.MoveFreeBuffsTo(dst, max);
    DrainSizes(was, to, src.free, dst.free, k);
  }

  lemma DrainSizes(was: seq<Node>, to: seq<Node>, left: seq<Node>, got: seq<Node>, k: nat)
    requires Drained(was, to, left, got, k)
    ensures Caps(left) + CapsTo(was, k) == Caps(was) && Caps(got) == Caps(to) + CapsTo(was, k)
  {
    DrainCounts(was, to, left, got, k);
  }

  /** Empties the temporary Mbuff and moves all its buffers to the other. */
  method MoveBack(mb: Mbuff, dst: Mbuff)
    requires mb.Valid() && dst.Valid() && mb != dst && mb.repr !! dst.repr
    modifies mb`freeHead, mb`frees, mb`free, mb`freeSize, mb`freeNodes, mb`repr, dst, dst.repr
    ensures mb.Valid() && fresh(mb.repr - old(mb.repr))
    ensures Total(mb.L()) == old(Total(mb.L())) + old(Total(dst.L()))
  {
    Empty(dst);
    var moved := Move(dst, mb, dst.freeSize + 1);
  }

  /** Searches and moves all buffers back, also what the reads brought. */
  method SearchAside(mb: Mbuff, keySize: nat, dst: Mbuff, cands: seq<Read>) returns (ok: bool, hit: bool, n: nat)
    requires Beside(mb, keySize, dst) && forall i :: 0 <= i < |cands| ==> ReadOk(cands[i], keySize)
    modifies mb, mb.repr, dst, dst.repr
    ensures mb.Valid() && fresh(mb.repr - old(mb.repr)) && mb.list == old(mb.list)
    ensures Searched(cands, mb.Contents()[..keySize], n, ok, hit) && (ok && !hit ==> n == |cands|)
    ensures Total(mb.L()) == old(Total(mb.L())) + Grown(old(Total(dst.L())), cands, n)
  {
    ghost var rest, lent := Total(mb.L()), Total(dst.L());
    ok, hit, n := Search(mb, keySize, dst, cands);
    ghost var more := Total(dst.L());
    assert Total(mb.L()) == rest && more == Grown(lent, cands, n);
    MoveBack(mb, dst);
    assert Total(mb.L()) == rest + more;
  }

  /** A lookup with `lent` bytes of the put's own free buffers, `max` or more if there are so many:
      they are moved to a temporary Mbuff, and all it holds afterwards is moved back. */
  method LookupWith(mb: Mbuff, keySize: nat, max: nat, cands: seq<Read>)
      returns (ok: bool, hit: bool, n: nat, lent: nat)
    requires mb.Valid() && 0 < keySize <= |mb.Contents()|
    requires forall i :: 0 <= i < |cands| ==> ReadOk(cands[i], keySize)
    modifies mb, mb.repr
    ensures fresh(mb.repr - old(mb.repr))
    ensures mb.Valid() && mb.list == old(mb.list)
    ensures Searched(cands, mb.Contents()[..keySize], n, ok, hit) && (ok && !hit ==> n == |cands|)
    ensures Total(mb.L()) == old(Total(mb.L())) - lent + Grown(lent, cands, n)
    ensures lent <= old(mb.freeSize) && (max <= lent || lent == old(mb.freeSize))
  {
    var dst := new Mbuff();
    assert Total(dst.L()) == 0;
    lent := Move(mb, dst, max);
    ghost var rest := Total(mb.L());
    assert Total(dst.L()) == lent;
    ok, hit, n := SearchAside(mb, keySize, dst, cands);
    assert Total(mb.L()) == rest + Grown(lent, cands, n);
  }

  method LookupAside(mb: Mbuff, keySize: nat, cands: seq<Read>) returns (ok: bool, hit: bool, n: nat, lent: nat)
    requires mb.Valid() && 0 < keySize <= |mb.Contents()|
    requires forall i :: 0 <= i < |cands| ==> ReadOk(cands[i], keySize)
    modifies mb, mb.repr
    ensures fresh(mb.repr - old(mb.repr))
    ensures mb.Valid() && mb.list == old(mb.list)
    ensures Searched(cands, mb.Contents()[..keySize], n, ok, hit) && (ok && !hit ==> n == |cands|)
    ensures Total(mb.L()) == old(Total(mb.L())) - lent + Grown(lent, cands, n)
    ensures lent <= old(mb.freeSize) && (AlignUp(HEADER + keySize, 512) <= lent || lent == old(mb.freeSize))
  {
    ok, hit, n, lent := LookupWith(mb, keySize, AlignUp(HEADER + keySize, 512), cands);
  }

  lemma {:induction false} GrownMonotone(total: nat, cands: seq<Read>, n: nat)
    requires n <= |cands|
    ensures total <= Grown(total, cands, n)
  {
    if n > 0 {
      GrownMonotone(total, cands, n - 1);
    }
  }

  // ---------------------------------------------------------------- what the map makes of a lookup

  /** A lookup, and what else decides about the put: whether the extent is later than the one found,
      whether there is a slot for the entry, if need be after a displacement, and whether the
      table can be made larger otherwise. */
  datatype Lookup = Lookup(cands: seq<Read>, ordered: bool, slot: bool, grows: bool)

  /** The put is decided, or the table has no slot. */
  datatype Answer = Decided(o: Outcome) | NoSlot(grows: bool)

  /** The switch over the lookup's result and the operation. */
  function Judge(op: Op, hit: bool, ordered: bool): Outcome {
    if hit then
      if op.Create? then Rejected else if ordered then Installed else Retry
    else if op.Replace? then Rejected
    else Installed
  }

  /** It is the outcome of the store's action, of which `hit` and `ordered` are the lookup's view. */
  lemma JudgeIsOutcome(g: Geometry, s: State, p: Addr, op: Op)
    requires Ok(g) && Enabled(g, s, Map(p, op))
    ensures var k := s.core.disk[p].key;
            MapOutcome(g, s, p, op) == Judge(op, k in s.live, k in s.live && InOrder(g, s.core, s.live[k], p))
  {
  }

  predicate HitIn(cands: seq<Read>, key: Bytes) { exists j :: 0 <= j < |cands| && Hits(cands[j], key) }

  function AnswerTo(op: Op, l: Lookup, key: Bytes): Answer {
    var hit := HitIn(l.cands, key);
    if hit || l.slot then Decided(Judge(op, hit, l.ordered)) else NoSlot(l.grows)
  }

  /** How the map update of a round ends, or that it takes more lookups than given. */
  datatype Update = Settled(o: Outcome) | Aborted | Undecided

  /** The lookups from `i` on: as long as the table can be made larger, another one follows. */
  function UpdateOf(op: Op, lookups: seq<Lookup>, key: Bytes, i: nat): Update
    requires i <= |lookups|
    decreases |lookups| - i
  {
    if i == |lookups| then Undecided
    else
      match AnswerTo(op, lookups[i], key)
      case Decided(o) => Settled(o)
      case NoSlot(grows) => if grows then UpdateOf(op, lookups, key, i + 1) else Aborted
  }

  /** The lookup sees what the map holds in state `s`. */
  ghost predicate Sees(g: Geometry, s: State, p: Addr, op: Op, l: Lookup, key: Bytes) requires Ok(g) {
    && Enabled(g, s, Map(p, op)) && s.core.disk[p].key == key && (HitIn(l.cands, key) <==> key in s.live)
    && (key in s.live ==> (l.ordered <==> InOrder(g, s.core, s.live[key], p)))
  }

  /** If every lookup sees the map of its moment, an update that settles does so as the store's
      action in the state of some lookup, before which there was no slot. */
  lemma {:induction false} SettlesAsStore(g: Geometry, states: seq<State>, p: Addr, op: Op, lookups: seq<Lookup>,
                                          key: Bytes, i: nat) returns (j: nat)
    requires Ok(g) && i <= |lookups| == |states| && UpdateOf(op, lookups, key, i).Settled?
    requires forall m :: 0 <= m < |lookups| ==> Sees(g, states[m], p, op, lookups[m], key)
    ensures i <= j < |lookups| && Enabled(g, states[j], Map(p, op))
    ensures UpdateOf(op, lookups, key, i) == Settled(MapOutcome(g, states[j], p, op))
    ensures forall m :: i <= m < j ==> AnswerTo(op, lookups[m], key) == NoSlot(true)
    decreases |lookups| - i
  {
    assert Sees(g, states[i], p, op, lookups[i], key);
    j := i;
    if AnswerTo(op, lookups[i], key).Decided? {
      JudgeIsOutcome(g, states[i], p, op);
    } else {
      j := SettlesAsStore(g, states, p, op, lookups, key, i + 1);
    }
  }

  predicate LookupOk(l: Lookup, keySize: nat) { forall j :: 0 <= j < |l.cands| ==> ReadOk(l.cands[j], keySize) }

  /** Some read of the lookup may end in an error. */
  predicate CanFail(l: Lookup) { exists j :: 0 <= j < |l.cands| && Fails(l.cands[j]) }

  lemma SearchedHits(cands: seq<Read>, key: Bytes, n: nat, ok: bool, hit: bool)
    requires Searched(cands, key, n, ok, hit) && (ok && !hit ==> n == |cands|)
    ensures ok ==> (hit <==> HitIn(cands, key))
    ensures !ok ==> exists j :: 0 <= j < |cands| && Fails(cands[j])
  {
  }

  /** One lookup, and what follows from it. */
  method OneLookup(mb: Mbuff, keySize: nat, op: Op, l: Lookup) returns (ok: bool, a: Answer)
    requires mb.Valid() && 0 < keySize <= |mb.Contents()| && LookupOk(l, keySize)
    modifies mb, mb.repr
    ensures fresh(mb.repr - old(mb.repr))
    ensures mb.Valid() && mb.list == old(mb.list) && old(Total(mb.L())) <= Total(mb.L())
    ensures if ok then a == AnswerTo(op, l, mb.Contents()[..keySize]) else CanFail(l)
  {
    var hit, n, lent;
    ok, hit, n, lent := LookupAside(mb, keySize, l.cands);
    GrownMonotone(lent, l.cands, n);
    SearchedHits(l.cands, mb.Contents()[..keySize], n, ok, hit);
    a := if hit || l.slot then Decided(Judge(op, hit, l.ordered)) else NoSlot(l.grows);
  }

  /** The map update of a round: lookups, until one decides or fails. */
  method UpdateMap(mb: Mbuff, keySize: nat, op: Op, lookups: seq<Lookup>) returns (u: Update)
    requires mb.Valid() && 0 < keySize <= |mb.Contents()|
    requires forall i :: 0 <= i < |lookups| ==> LookupOk(lookups[i], keySize)
    modifies mb, mb.repr
    ensures fresh(mb.repr - old(mb.repr))
    ensures mb.Valid() && mb.list == old(mb.list) && old(Total(mb.L())) <= Total(mb.L())
    ensures u == UpdateOf(op, lookups, mb.Contents()[..keySize], 0)
         || (u.Aborted? && exists i :: 0 <= i < |lookups| && CanFail(lookups[i]))
  {
    var i := 0;
    ghost var key := mb.Contents()[..keySize];
    while i < |lookups|
      invariant 0 <= i <= |lookups| && UpdateOf(op, lookups, key, i) == UpdateOf(op, lookups, key, 0)
      invariant fresh(mb.repr - old(mb.repr))
      invariant mb.Valid() && mb.list == old(mb.list) && old(Total(mb.L())) <= Total(mb.L())
    {
      var ok, a := OneLookup(mb, keySize, op, lookups[i]);
      if !ok {
        return Aborted;
      }
      match a {
        case Decided(o) =>
          return Settled(o);
        case NoSlot(grows) =>
          if !grows {
            return Aborted;
          }
      }
      i := i + 1;
    }
    u := Undecided;
  }

  // ---------------------------------------------------------------- the rounds

  /** The answers a put meets in one round: the allocator's, the segment's timestamp, the checksum,
      memory for padding, the device's, and those of its lookups. */
  datatype Round = Round(alloc: Alloc, ts: nat, crc: Bytes, mem: Memory, ioOk: bool, lookups: seq<Lookup>)

  predicate RoundOk(r: Round, keySize: nat) {
    |r.crc| == SUFFIX && forall i :: 0 <= i < |r.lookups| ==> LookupOk(r.lookups[i], keySize)
  }

  /** How a round ends: without an extent, in another round. */
  function RoundEnd(op: Op, r: Round, key: Bytes): Update {
    if r.alloc.Granted? then UpdateOf(op, r.lookups, key, 0) else Settled(Retry)
  }

  /** Some record was written in round `i`. */
  ghost predicate Logged(log: seq<(nat, Bytes)>, i: nat) { exists j :: 0 <= j < |log| && log[j].0 == i }

  /** A record of the log is that of the key and value, with the answers of its round. */
  ghost predicate EntryOk(g: Geometry, kv: Bytes, keySize: nat, rounds: seq<Round>, e: (nat, Bytes))
    requires Ok(g) && keySize <= |kv|
  {
    && e.0 < |rounds| && |rounds[e.0].crc| == SUFFIX && rounds[e.0].alloc.Granted? && rounds[e.0].ioOk
    && e.1 == Record(g, kv, keySize, rounds[e.0].ts, rounds[e.0].crc)
  }

  /** The log after `used` rounds: what the rounds that were granted an extent wrote. */
  ghost predicate LogOk(g: Geometry, kv: Bytes, keySize: nat, rounds: seq<Round>, log: seq<(nat, Bytes)>, used: nat)
    requires Ok(g) && keySize <= |kv|
  {
    && used <= |rounds|
    && (forall i :: 0 <= i < |log| ==> log[i].0 < used && EntryOk(g, kv, keySize, rounds, log[i]))
    && (forall i {:trigger rounds[i]} :: 0 <= i < used ==> (rounds[i].alloc.Granted? <==> Logged(log, i)))
  }

  /** The round ends as its lookups and the operation say, or one of its reads can fail. */
  ghost predicate EndsAs(op: Op, r: Round, key: Bytes, u: Update) {
    || u == RoundEnd(op, r, key)
    || (u.Aborted? && r.alloc.Granted? && exists i :: 0 <= i < |r.lookups| && CanFail(r.lookups[i]))
  }

  /** One round: an attempt to write, and the map update if it did. */
  method OneRound(mb: Mbuff, keySize: nat, g: Geometry, op: Op, r: Round) returns (io: Io, u: Update)
    requires mb.Valid() && 0 < keySize <= |mb.Contents()| && Ok(g) && RoundOk(r, keySize)
    modifies mb, mb.repr
    ensures fresh(mb.repr - old(mb.repr))
    ensures mb.Valid() && old(Total(mb.L())) <= Total(mb.L())
    ensures io.Again? <==> r.alloc.TryAgain?
    ensures io.Written? <==> r.alloc.Granted? && r.ioOk && old(Roomy(mb.list)) && old(PadFits(g, mb.L(), r.mem.ok))
    ensures io.Written? ==> io.bytes == Record(g, old(mb.Contents()), keySize, r.ts, r.crc)
    ensures io.Error? ==> u.Aborted?
    ensures !io.Error? ==> EndsAs(op, r, old(mb.Contents())[..keySize], u)
    ensures !io.Error? || old(Roomy(mb.list) && Ended(mb.list)) ==> mb.Contents() == old(mb.Contents())
    ensures old(Roomy(mb.list) && Ended(mb.list)) ==> Roomy(mb.list) && Ended(mb.list)
  {
    io := Attempt(mb, keySize, g, r.alloc, r.ts, r.crc, r.mem, r.ioOk);
    u := if io.Error? then Aborted else Settled(Retry);
    if io.Written? {
      u := UpdateMap(mb, keySize, op, r.lookups);
    }
  }

  /** Round `used` of a put, and its entry in the log. */
  method LoggedRound(mb: Mbuff, keySize: nat, g: Geometry, op: Op, rounds: seq<Round>, log: seq<(nat, Bytes)>,
                     used: nat, ghost kv: Bytes) returns (done: bool, u: Update, log': seq<(nat, Bytes)>)
    requires mb.Valid() && 0 < keySize <= |mb.Contents()| && Ok(g) && kv == mb.Contents()
    requires used < |rounds| && RoundOk(rounds[used], keySize) && LogOk(g, kv, keySize, rounds, log, used)
    modifies mb, mb.repr
    ensures fresh(mb.repr - old(mb.repr))
    ensures mb.Valid() && old(Total(mb.L())) <= Total(mb.L())
    ensures LogOk(g, kv, keySize, rounds, log', if done then used + 1 else used)
    ensures if done then EndsAs(op, rounds[used], kv[..keySize], u)
            else u.Aborted? && !rounds[used].alloc.TryAgain?
    ensures done || old(Roomy(mb.list) && Ended(mb.list)) ==> mb.Contents() == kv
    ensures old(Roomy(mb.list) && Ended(mb.list)) ==> Roomy(mb.list) && Ended(mb.list)
  {
    var io;
    io, u := OneRound(mb, keySize, g, op, rounds[used]);
    done, log' := !io.Error?, log;
    if done {
      LogGrows(g, kv, keySize, rounds, log, used, io);
    }
    if io.Written? {
      log' := log + [(used, io.bytes)];
    }
  }

  predicate RetriedAt(op: Op, rounds: seq<Round>, key: Bytes, i: nat) {
    i < |rounds| && RoundEnd(op, rounds[i], key) == Settled(Retry)
  }

  /** Each of the first `n` rounds asked for another one. */
  ghost predicate Retried(op: Op, rounds: seq<Round>, key: Bytes, n: nat) {
    n <= |rounds| && forall i: nat {:trigger RetriedAt(op, rounds, key, i)} :: i < n ==> RetriedAt(op, rounds, key, i)
  }

  /** How a put ended after `used` whole rounds. The last of them settled it or failed, when all
      before had asked for another one; or all had, and no more rounds were given, or the
      next one was refused an extent or could not write. */
  ghost predicate PutEnds(op: Op, rounds: seq<Round>, key: Bytes, used: nat, end: Update) {
    || (0 < used <= |rounds| && Retried(op, rounds, key, used - 1) && EndsAs(op, rounds[used - 1], key, end)
        && end != Settled(Retry))
    || (Retried(op, rounds, key, used) && end == Undecided && used == |rounds|)
    || (Retried(op, rounds, key, used) && end == Aborted && used < |rounds| && !rounds[used].alloc.TryAgain?)
  }

  /** What one more round makes of it. */
  lemma RoundCounts(op: Op, rounds: seq<Round>, key: Bytes, n: nat, u: Update)
    requires Retried(op, rounds, key, n) && n < |rounds| && EndsAs(op, rounds[n], key, u)
    ensures if u == Settled(Retry) then Retried(op, rounds, key, n + 1) else PutEnds(op, rounds, key, n + 1, u)
  {
    if u == Settled(Retry) {
      assert RetriedAt(op, rounds, key, n);
    }
  }

  /** The retry loops of a put. It goes through `used` rounds, until one writes the record and the
      map is decided, or one fails. What decides is what its lookups read, the operation, and the
      order of the extents. Every round that was granted an extent wrote the record of the original
      key and value. If these left room for header and suffix once, they always do, and so no
      round fails for want of it. No buffer is lost. */
  method Put(mb: Mbuff, keySize: nat, g: Geometry, op: Op, rounds: seq<Round>)
      returns (log: seq<(nat, Bytes)>, end: Update, used: nat)
    requires mb.Valid() && 0 < keySize <= |mb.Contents()| && Ok(g)
    requires forall i :: 0 <= i < |rounds| ==> RoundOk(rounds[i], keySize)
    modifies mb, mb.repr
    ensures fresh(mb.repr - old(mb.repr))
    ensures mb.Valid() && old(Total(mb.L())) <= Total(mb.L())
    ensures LogOk(g, old(mb.Contents()), keySize, rounds, log, used)
    ensures PutEnds(op, rounds, old(mb.Contents())[..keySize], used, end)
    ensures !end.Aborted? || old(Roomy(mb.list) && Ended(mb.list)) ==> mb.Contents() == old(mb.Contents())
    ensures old(Roomy(mb.list) && Ended(mb.list)) ==> Roomy(mb.list) && Ended(mb.list)
  {
    log, end, used := [], Settled(Retry), 0;
    ghost var kv, roomy := mb.Contents(), Roomy(mb.list) && Ended(mb.list);
    while used < |rounds|
      invariant fresh(mb.repr - old(mb.repr))
      invariant mb.Valid() && mb.Contents() == kv && old(Total(mb.L())) <= Total(mb.L())
      invariant roomy ==> Roomy(mb.list) && Ended(mb.list)
      invariant LogOk(g, kv, keySize, rounds, log, used)
      invariant Retried(op, rounds, kv[..keySize], used)
    {
      var done;
      done, end, log := LoggedRound(mb, keySize, g, op, rounds, log, used, kv);
      if !done {
        return;
      }
      RoundCounts(op, rounds, kv[..keySize], used, end);
      used := used + 1;
      if end != Settled(Retry) {
        return;
      }
    }
    end := Undecided;
  }

  lemma LogGrows(g: Geometry, kv: Bytes, keySize: nat, rounds: seq<Round>, log: seq<(nat, Bytes)>, used: nat, io: Io)
    requires Ok(g) && keySize <= |kv| && LogOk(g, kv, keySize, rounds, log, used) && used < |rounds|
    requires RoundOk(rounds[used], keySize) && (io.Written? <==> rounds[used].alloc.Granted?)
    requires io.Written? ==>
      rounds[used].ioOk && io.bytes == Record(g, kv, keySize, rounds[used].ts, rounds[used].crc)
    ensures LogOk(g, kv, keySize, rounds, if io.Written? then log + [(used, io.bytes)] else log, used + 1)
  {
    LogAdds(log, used, io);
  }

  lemma LogAdds(log: seq<(nat, Bytes)>, used: nat, io: Io)
    requires forall i :: 0 <= i < |log| ==> log[i].0 < used
    ensures io.Written? ==>
      && Logged(log + [(used, io.bytes)], used)
      && forall i: nat :: i < used ==> (Logged(log + [(used, io.bytes)], i) <==> Logged(log, i))
    ensures !Logged(log, used)
  {
    if io.Written? {
      var more := log + [(used, io.bytes)];
      assert more[|log|].0 == used;
      forall i: nat | i < used ensures Logged(more, i) <==> Logged(log, i) {
        if Logged(log, i) {
          var j :| 0 <= j < |log| && log[j].0 == i;
          assert more[j].0 == i;
        }
        if Logged(more, i) {
          var j :| 0 <= j < |more| && more[j].0 == i;
          assert log[j].0 == i;
        }
      }
    }
  }
}
