/** XXH3 in pieces (src/include/util/xxhash.h): stripes are accumulated against a moving part of
    a secret, the accumulators are scrambled at the end of every block of stripes, and the
    last stripe, which may overlap others, is always held back. The arithmetic is a parameter. */
module Xxh3 {
  import opened Arith
  import opened Octets

  const STRIPE: nat := 64
  const BUFFER: nat := 256
  const MIDSIZE: nat := 240
  const MOD64: nat := 0x1_0000_0000_0000_0000

  /** `acc` takes the stripe's number in its block, which selects the part of the secret. */
  datatype Algo<!A> = Algo(
    perBlock: nat,
    start: A,
    acc: (A, Bytes, nat) -> A,
    scramble: A -> A,
    last: (A, Bytes) -> A,
    merge: (A, nat) -> nat,
    short: Bytes -> nat)

  predicate Ok<A>(f: Algo<A>) { BUFFER / STRIPE <= f.perBlock }

  /** Accumulators, and the stripes of the current block so far. */
  datatype Acc<A> = Acc(a: A, n: nat)

  function Step<A>(f: Algo<A>, s: Acc<A>, stripe: Bytes): Acc<A> {
    var a := f.acc(s.a, stripe, s.n);
    if s.n + 1 == f.perBlock then Acc(f.scramble(a), 0) else Acc(a, s.n + 1)
  }

  /** All whole stripes of `x`. */
  function Feed<A>(f: Algo<A>, s: Acc<A>, x: Bytes): Acc<A>
    decreases |x|
  {
    if |x| < STRIPE then s else Feed(f, Step(f, s, x[..STRIPE]), x[STRIPE..])
  }

  /** All whole stripes of `x` that something follows. */
  function Eat<A>(f: Algo<A>, s: Acc<A>, x: Bytes): Acc<A>
    decreases |x|
  {
    if |x| <= STRIPE then s else Eat(f, Step(f, s, x[..STRIPE]), x[STRIPE..])
  }

  /** The hash of a string. */
  function HashOf<A>(f: Algo<A>, x: Bytes): nat {
    if |x| <= MIDSIZE then f.short(x)
    else f.merge(f.last(Eat(f, Acc(f.start, 0), x).a, x[|x| - STRIPE..]), |x|)
  }

  lemma {:induction false} FeedConcat<A>(f: Algo<A>, s: Acc<A>, x: Bytes, y: Bytes)
    requires |x| % STRIPE == 0
    ensures Feed(f, s, x + y) == Feed(f, Feed(f, s, x), y)
    decreases |x|
  {
    if x == [] {
      assert x + y == y;
    } else {
      assert (x + y)[..STRIPE] == x[..STRIPE] && (x + y)[STRIPE..] == x[STRIPE..] + y;
      FeedConcat(f, Step(f, s, x[..STRIPE]), x[STRIPE..], y);
    }
  }

  lemma {:induction false} EatConcat<A>(f: Algo<A>, s: Acc<A>, x: Bytes, y: Bytes)
    requires |x| % STRIPE == 0 && y != []
    ensures Eat(f, s, x + y) == Eat(f, Feed(f, s, x), y)
    decreases |x|
  {
    if x == [] {
      assert x + y == y;
    } else {
      assert (x + y)[..STRIPE] == x[..STRIPE] && (x + y)[STRIPE..] == x[STRIPE..] + y;
      EatConcat(f, Step(f, s, x[..STRIPE]), x[STRIPE..], y);
    }
  }

  /** What eating leaves is between one byte and one stripe. */
  lemma EatSplit<A>(f: Algo<A>, s: Acc<A>, x: Bytes, m: nat)
    requires m <= |x| && m % STRIPE == 0 && 0 < |x| - m <= STRIPE
    ensures Eat(f, s, x) == Feed(f, s, x[..m])
  {
    assert x == x[..m] + x[m..];
    EatConcat(f, s, x[..m], x[m..]);
  }

  /** What lies before the last stripe, in whole stripes. */
  function Before(n: nat): (m: nat)
    requires 0 < n
    ensures m < n <= m + STRIPE && m % STRIPE == 0
  {
    (n - 1) / STRIPE * STRIPE
  }

  /** The last stripe of `done` and `b` is in `b`, and all before it in `done` and the first `m` of `b`. */
  lemma EndsInBuffer<A>(f: Algo<A>, done: Bytes, b: Bytes, m: nat)
    requires |done| % STRIPE == 0 && STRIPE <= |b| && m == Before(|b|)
    ensures Eat(f, Acc(f.start, 0), done + b) == Feed(f, Feed(f, Acc(f.start, 0), done), b[..m])
    ensures (done + b)[|done + b| - STRIPE..] == b[|b| - STRIPE..]
  {
    EatConcat(f, Acc(f.start, 0), done, b);
    EatSplit(f, Feed(f, Acc(f.start, 0), done), b, m);
  }

  /** The bytes `done` and `kept` and an input that completes `kept` to the buffer `b`. */
  lemma Completes(done: Bytes, kept: Bytes, input: Bytes, load: nat, b: Bytes)
    requires load <= |input| && b == kept + input[..load] && STRIPE <= |b|
    ensures done + b + input[load..] == done + kept + input
    ensures (done + b)[|done + b| - STRIPE..] == b[|b| - STRIPE..]
  {
    assert input == input[..load] + input[load..];
  }

  lemma {:induction false} FeedStays<A>(f: Algo<A>, s: Acc<A>, x: Bytes)
    requires s.n < f.perBlock
    ensures Feed(f, s, x).n < f.perBlock
    decreases |x|
  {
    if STRIPE <= |x| {
      FeedStays(f, Step(f, s, x[..STRIPE]), x[STRIPE..]);
    }
  }

  // ---------------------------------------------------------------- consuming stripes

  /** Stripes of one block, from the stripe numbered `n` on, without scrambling. */
  function Run<A>(f: Algo<A>, a: A, x: Bytes, n: nat): A
    decreases |x|
  {
    if |x| < STRIPE then a else Run(f, f.acc(a, x[..STRIPE], n), x[STRIPE..], n + 1)
  }

  method Accumulate<A>(f: Algo<A>, a: A, x: Bytes, n: nat) returns (r: A)
    requires |x| % STRIPE == 0
    ensures r == Run(f, a, x, n)
  {
    r := a;
    var rest, k := x, n;
    while rest != []
      invariant |rest| % STRIPE == 0 && Run(f, r, rest, k) == Run(f, a, x, n)
      decreases |rest|
    {
      r := f.acc(r, rest[..STRIPE], k);
      rest, k := rest[STRIPE..], k + 1;
    }
  }

  /** Within a block, feeding is running; at its end the accumulators are scrambled. */
  lemma {:induction false} FeedRuns<A>(f: Algo<A>, s: Acc<A>, x: Bytes)
    requires |x| % STRIPE == 0 && s.n + |x| / STRIPE <= f.perBlock && s.n < f.perBlock
    ensures Feed(f, s, x) == if s.n + |x| / STRIPE < f.perBlock then Acc(Run(f, s.a, x, s.n), s.n + |x| / STRIPE)
                             else Acc(f.scramble(Run(f, s.a, x, s.n)), 0)
    decreases |x|
  {
    if x != [] {
      var y := x[STRIPE..];
      assert |y| / STRIPE == |x| / STRIPE - 1;
      if y == [] {
        assert Run(f, s.a, x, s.n) == f.acc(s.a, x[..STRIPE], s.n);
      } else {
        FeedRuns(f, Step(f, s, x[..STRIPE]), y);
      }
    }
  }

  /** Stripes of at most one block, with a scramble where the block ends. */
  method ConsumeStripes<A>(f: Algo<A>, s: Acc<A>, x: Bytes) returns (r: Acc<A>)
    requires s.n < f.perBlock && |x| % STRIPE == 0 && |x| / STRIPE <= f.perBlock
    ensures r == Feed(f, s, x)
  {
    var k := |x| / STRIPE;
    var left := f.perBlock - s.n;
    if left <= k {
      var m := left * STRIPE;
      var x1, x2 := x[..m], x[m..];
      assert x == x1 + x2;
      FeedConcat(f, s, x1, x2);
      FeedRuns(f, s, x1);
      var a := Accumulate(f, s.a, x1, s.n);
      a := f.scramble(a);
      FeedRuns(f, Acc(a, 0), x2);
      a := Accumulate(f, a, x2, 0);
      r := Acc(a, k - left);
    } else {
      FeedRuns(f, s, x);
      var a := Accumulate(f, s.a, x, s.n);
      r := Acc(a, s.n + k);
    }
  }

  // ---------------------------------------------------------------- stripe by stripe

  /** The accumulators after `i` stripes of 64 bytes: each with its number in a block, and scrambled at
      the end of every block. */
  function Stripes<A>(f: Algo<A>, x: Bytes, i: nat): A
    requires 0 < f.perBlock && 64 * i <= |x|
  {
    if i == 0 then f.start
    else
      var a := f.acc(Stripes(f, x, i - 1), x[64 * (i - 1)..64 * i], (i - 1) % f.perBlock);
      if i % f.perBlock == 0 then f.scramble(a) else a
  }

  lemma NextInBlock(i: nat, b: nat)
    requires 0 < b
    ensures 0 <= i % b && (i + 1) % b == if i % b + 1 == b then 0 else i % b + 1
  {
    Divided(i, b);
    var q := i / b;
    assert (q + 1) * b == q * b + b;
    if i % b + 1 == b { DivModUnique(i + 1, b, q + 1, 0); } else { DivModUnique(i + 1, b, q, i % b + 1); }
  }

  lemma StepIsStripe<A>(f: Algo<A>, x: Bytes, i: nat)
    requires 0 < f.perBlock && 64 * (i + 1) <= |x|
    ensures 0 <= i % f.perBlock && 0 <= (i + 1) % f.perBlock
    ensures Step(f, Acc(Stripes(f, x, i), i % f.perBlock), x[64 * i..64 * (i + 1)])
         == Acc(Stripes(f, x, i + 1), (i + 1) % f.perBlock)
  {
    NextInBlock(i, f.perBlock);
    NextInBlock(i + 1, f.perBlock);
  }

  lemma EatOne<A>(f: Algo<A>, s: Acc<A>, x: Bytes, at: nat)
    requires at + 64 < |x|
    ensures Eat(f, s, x[at..]) == Eat(f, Step(f, s, x[at..at + 64]), x[at + 64..])
  {
    assert x[at..][..64] == x[at..at + 64] && x[at..][64..] == x[at + 64..];
  }

  /** All stripes but the last, from stripe `i` on. */
  lemma {:induction false} EatIsStripes<A>(f: Algo<A>, x: Bytes, i: nat, n: nat)
    requires 0 < f.perBlock && i <= n && 64 * n < |x| <= 64 * n + 64
    ensures 0 <= i % f.perBlock && Eat(f, Acc(Stripes(f, x, i), i % f.perBlock), x[64 * i..]).a == Stripes(f, x, n)
    decreases n - i
  {
    NextInBlock(i, f.perBlock);
    if i < n {
      StepIsStripe(f, x, i);
      EatOne(f, Acc(Stripes(f, x, i), i % f.perBlock), x, 64 * i);
      EatIsStripes(f, x, i + 1, n);
    }
  }

  /** XXH3 of up to 240 bytes is a function of its own. Of more, all stripes but the last go through the
      accumulators, and then the last 64 bytes, which may overlap with them. */
  lemma HashByStripes<A>(f: Algo<A>, x: Bytes)
    requires 0 < f.perBlock
    ensures |x| <= 240 ==> HashOf(f, x) == f.short(x)
    ensures |x| > 240 ==> HashOf(f, x) == f.merge(f.last(Stripes(f, x, (|x| - 1) / 64), x[|x| - 64..]), |x|)
  {
    if |x| > 240 {
      EatIsStripes(f, x, 0, (|x| - 1) / 64);
      ModSmall(0, f.perBlock);
      assert x[0..] == x;
    }
  }

  // ---------------------------------------------------------------- one shot

  method OneShot<A>(f: Algo<A>, x: Bytes) returns (h: nat)
    requires Ok(f)
    ensures h == HashOf(f, x)
  {
    if |x| <= MIDSIZE {
      return f.short(x);
    }
    var a, rest := Blocks(f, x);
    var m := Before(|rest|);
    EatSplit(f, Acc(a, 0), rest, m);
    FeedRuns(f, Acc(a, 0), rest[..m]);
    a := Accumulate(f, a, rest[..m], 0);
    a := f.last(a, x[|x| - STRIPE..]);
    h := f.merge(a, |x|);
  }

  /** The whole blocks of a long input that something follows. */
  method Blocks<A>(f: Algo<A>, x: Bytes) returns (a: A, rest: Bytes)
    requires Ok(f) && x != []
    ensures 0 < |rest| <= f.perBlock * STRIPE
    ensures Eat(f, Acc(a, 0), rest) == Eat(f, Acc(f.start, 0), x)
  {
    var len := f.perBlock * STRIPE;
    var blocks := (|x| - 1) / len;
    a, rest := f.start, x;
    LastBlock(|x|, len);
    var n := 0;
    while n < blocks
      invariant 0 <= n <= blocks && Remain(|rest|, |x|, n, len)
      invariant Eat(f, Acc(a, 0), rest) == Eat(f, Acc(f.start, 0), x)
      decreases blocks - n
    {
      BlockFits(|rest|, |x|, len, n);
      a := Block(f, a, rest, len);
      rest, n := rest[len..], n + 1;
    }
  }

  /** What is left of `x` bytes after `n` blocks. */
  predicate Remain(rest: nat, x: nat, n: nat, len: nat) { rest == x - n * len }

  /** One block, and the scramble at its end. */
  method Block<A>(f: Algo<A>, a: A, rest: Bytes, len: nat) returns (r: A)
    requires Ok(f) && len == f.perBlock * STRIPE && len < |rest|
    ensures Eat(f, Acc(r, 0), rest[len..]) == Eat(f, Acc(a, 0), rest)
  {
    var b := rest[..len];
    assert rest == b + rest[len..];
    EatConcat(f, Acc(a, 0), b, rest[len..]);
    FeedRuns(f, Acc(a, 0), b);
    r := Accumulate(f, a, b, 0);
    r := f.scramble(r);
  }

  lemma BlockFits(rest: nat, x: nat, len: nat, n: nat)
    requires 0 < len && 0 < x && n < (x - 1) / len && Remain(rest, x, n, len)
    ensures len < rest && Remain(rest - len, x, n + 1, len)
  {
    Divided(x - 1, len);
    MulMonotone(n + 1, (x - 1) / len, len);
    assert (n + 1) * len == n * len + len;
  }

  lemma LastBlock(x: nat, len: nat)
    requires 0 < len && 0 < x
    ensures 0 <= (x - 1) / len && Remain(x, x, 0, len)
    ensures forall rest: nat {:trigger Remain(rest, x, (x - 1) / len, len)} ::
              Remain(rest, x, (x - 1) / len, len) ==> 0 < rest <= len
  {
    Divided(x - 1, len);
    DivPositive(x - 1, len);
  }

  // ---------------------------------------------------------------- streaming

  /** Accumulators and a buffer. The buffer is consumed only when more input is at hand, and its
      end keeps the last bytes consumed for as long as the last stripe may reach into them. */
  class Stream<!A> {
    const f: Algo<A>
    var acc: Acc<A>
    var total: nat
    var buffer: array<Byte>
    var size: nat
    ghost var done: Bytes

    ghost function Fed(): Bytes
      reads this, buffer
      requires size <= buffer.Length
    {
      done + buffer[..size]
    }

    /** The accumulators hold what was consumed, in multiples of the buffer. */
    ghost predicate Fits()
      reads this, buffer
    {
      && Ok(f) && buffer.Length == BUFFER && size <= BUFFER
      && |done| % BUFFER == 0 && acc == Feed(f, Acc(f.start, 0), done) && acc.n < f.perBlock
    }

    /** The end of the buffer holds the `STRIPE - size` bytes consumed last. */
    ghost predicate Recalls()
      reads this, buffer
      requires buffer.Length == BUFFER
    {
      size < STRIPE && done != [] ==>
        STRIPE <= |done| && buffer[BUFFER - STRIPE + size..] == done[|done| - STRIPE + size..]
    }

    ghost predicate Held()
      reads this, buffer
    {
      Fits() && (done != [] ==> 0 < size) && Recalls()
    }

    /** The length counter has 64 bits. */
    ghost predicate Valid()
      reads this, buffer
    {
      Held() && total == |Fed()| % MOD64
    }

    constructor (f: Algo<A>)
      requires Ok(f)
      ensures Valid() && this.f == f && Fed() == [] && fresh(buffer)
    {
      this.f, acc, total, size, done := f, Acc(f.start, 0), 0, 0, [];
      buffer := new Byte[BUFFER](_ => 0);
      new;
      ModSmall(0, MOD64);
    }

    method Copy(at: nat, src: Bytes)
      requires at + |src| <= buffer.Length
      modifies buffer
      ensures buffer[..] == old(buffer[..at]) + src + old(buffer[at + |src|..])
    {
      ghost var was := buffer[..];
      for i := 0 to |src|
        invariant forall j :: 0 <= j < i ==> buffer[at + j] == src[j]
        invariant forall j :: 0 <= j < buffer.Length && !(at <= j < at + i) ==> buffer[j] == was[j]
      {
        buffer[at + i] := src[i];
      }
    }

    /** Consumes `x`, a buffer's worth. */
    method ConsumeBuffer(x: Bytes)
      requires Ok(f) && |x| == BUFFER && |done| % BUFFER == 0 && acc == Feed(f, Acc(f.start, 0), done)
      requires acc.n < f.perBlock
      modifies this`acc, this`done
      ensures done == old(done) + x && |done| % BUFFER == 0
      ensures acc == Feed(f, Acc(f.start, 0), done) && acc.n < f.perBlock
    {
      FeedConcat(f, Acc(f.start, 0), done, x);
      FeedStays(f, acc, x);
      acc := ConsumeStripes(f, acc, x);
      done := done + x;
    }

    /** Small input goes to the buffer. */
    method Fill(input: Bytes)
      requires Held() && size + |input| <= BUFFER
      modifies this`size, buffer
      ensures Held() && Fed() == old(Fed()) + input
    {
      ghost var was := buffer[..];
      Copy(size, input);
      size := size + |input|;
      assert buffer[..size] == was[..old(size)] + input;
      assert size < STRIPE ==> buffer[BUFFER - STRIPE + size..] == was[BUFFER - STRIPE + old(size)..][|input|..];
    }

    /** The buffer is completed and consumed. Its end then holds the last bytes consumed. */
    method Flush(input: Bytes) returns (rest: Bytes)
      requires Fits() && BUFFER < size + |input| && 0 < size
      modifies this`acc, this`done, this`size, buffer
      ensures Fits() && size == 0 && rest != [] && done + rest == old(Fed()) + input
      ensures STRIPE <= |done| && buffer[BUFFER - STRIPE..] == done[|done| - STRIPE..]
    {
      var load := BUFFER - size;
      ghost var fed := Fed();
      Copy(size, input[..load]);
      rest := input[load..];
      var b := buffer[..];
      assert b == old(buffer[..size]) + input[..load];
      Completes(done, old(buffer[..size]), input, load, b);
      ConsumeBuffer(b);
      size := 0;
    }

    /** Input beyond a buffer's worth is consumed directly, and its last stripe kept. */
    method Direct(input: Bytes) returns (rest: Bytes)
      requires Fits() && size == 0 && BUFFER < |input|
      modifies this`acc, this`done, buffer
      ensures Fits() && size == 0 && 0 < |rest| <= BUFFER && done + rest == old(done) + input
      ensures STRIPE <= |done| && buffer[BUFFER - STRIPE..] == done[|done| - STRIPE..]
    {
      rest := input;
      while BUFFER < |rest|
        invariant Fits() && 0 < |rest| && done + rest == old(done) + input && |old(done)| <= |done|
        invariant |rest| < |input| ==> BUFFER <= |done|
        invariant |rest| <= |input|
        decreases |rest|
      {
        assert done + rest == done + rest[..BUFFER] + rest[BUFFER..];
        ConsumeBuffer(rest[..BUFFER]);
        rest := rest[BUFFER..];
      }
      ghost var d := done;
      Copy(BUFFER - STRIPE, LastConsumed(input, rest));
      LastIsDone(d, old(done), input, rest);
      assert buffer[BUFFER - STRIPE..] == LastConsumed(input, rest);
    }

    /** The input goes to the buffer, or through it and past it. */
    method Take(input: Bytes)
      requires Held()
      modifies this`acc, this`done, this`size, buffer
      ensures Held() && Fed() == old(Fed()) + input
    {
      if size + |input| <= BUFFER {
        Fill(input);
        return;
      }
      var rest := input;
      if size > 0 {
        rest := Flush(input);
      }
      if BUFFER < |rest| {
        rest := Direct(rest);
      }
      Keep(rest);
    }

    method Update(input: Bytes)
      requires Valid()
      modifies this, buffer
      ensures Valid() && Fed() == old(Fed()) + input && buffer == old(buffer)
    {
      ModAdd(|Fed()|, |input|, MOD64);
      total := (total + |input|) % MOD64;
      Take(input);
    }

    /** What is left, never nothing, is kept in the buffer. */
    method Keep(rest: Bytes)
      requires Fits() && size == 0 && 0 < |rest| <= BUFFER
      requires STRIPE <= |done| && buffer[BUFFER - STRIPE..] == done[|done| - STRIPE..]
      modifies this`size, buffer
      ensures Held() && Fed() == old(done) + rest
    {
      ghost var was := buffer[..];
      Copy(0, rest);
      size := |rest|;
      assert buffer[..size] == rest;
      assert size < STRIPE ==> buffer[BUFFER - STRIPE + size..] == was[BUFFER - STRIPE..][size..];
    }

    /** The digest of less than 2^64 bytes. */
    method Digest() returns (h: nat)
      requires Valid() && |Fed()| < MOD64
      ensures h == HashOf(f, Fed())
    {
      ModSmall(|Fed()|, MOD64);
      if total <= MIDSIZE {
        assert done == [] by { NoneDone(); }
        assert Fed() == buffer[..size];
        return f.short(buffer[..size]);
      }
      var a;
      if STRIPE <= size {
        a := LastInBuffer();
      } else {
        a := LastAcross();
      }
      h := f.merge(a, total);
    }

    /** The last stripe is in the buffer. */
    method LastInBuffer() returns (a: A)
      requires Held() && STRIPE <= size
      ensures var x := Fed(); a == f.last(Eat(f, Acc(f.start, 0), x).a, x[|x| - STRIPE..])
    {
      ghost var b := buffer[..size];
      var m := Before(size);
      EndsInBuffer(f, done, b, m);
      assert b[..m] == buffer[..m] && b[size - STRIPE..] == buffer[size - STRIPE..size];
      var s := ConsumeStripes(f, acc, buffer[..m]);
      a := f.last(s.a, buffer[size - STRIPE..size]);
    }

    /** The last stripe starts among the bytes consumed last. */
    method LastAcross() returns (a: A)
      requires Held() && size < STRIPE && done != []
      ensures var x := Fed(); STRIPE <= |x| && a == f.last(Eat(f, Acc(f.start, 0), x).a, x[|x| - STRIPE..])
    {
      EatConcat(f, Acc(f.start, 0), done, buffer[..size]);
      var stripe := buffer[BUFFER - STRIPE + size..] + buffer[..size];
      EndOf(done, buffer[..size], STRIPE);
      a := f.last(acc.a, stripe);
    }

    lemma NoneDone()
      requires Fits() && |done| <= MIDSIZE
      ensures done == []
    {
    }
  }

  /** The end of a string that reaches into its first part. */
  lemma EndOf(x: Bytes, y: Bytes, n: nat)
    requires |y| <= n <= |x| + |y|
    ensures (x + y)[|x + y| - n..] == x[|x| - n + |y|..] + y
  {
  }

  /** The stripe that ends where `rest` starts. */
  function LastConsumed(input: Bytes, rest: Bytes): Bytes
    requires |rest| + STRIPE <= |input|
  {
    input[|input| - |rest| - STRIPE..|input| - |rest|]
  }

  lemma LastIsDone(done: Bytes, before: Bytes, input: Bytes, rest: Bytes)
    requires done + rest == before + input && |rest| + STRIPE <= |input|
    ensures STRIPE <= |done| && done[|done| - STRIPE..] == LastConsumed(input, rest)
  {
    assert |done| == |before| + |input| - |rest|;
    assert done == (done + rest)[..|done|];
    assert (before + input)[|done| - STRIPE..|done|] == LastConsumed(input, rest);
  }

  /** However a string shorter than 2^64 bytes is divided into pieces, hashing them one after the
      other gives the hash of the whole. */
  method InPieces<A>(f: Algo<A>, pieces: seq<Bytes>) returns (h: nat)
    requires Ok(f) && |Concat(pieces, |pieces|)| < MOD64
    ensures h == HashOf(f, Concat(pieces, |pieces|))
  {
    var s := new Stream(f);
    for i := 0 to |pieces|
      invariant s.Valid() && fresh(s) && fresh(s.buffer) && s.f == f && s.Fed() == Concat(pieces, i)
    {
      s.Update(pieces[i]);
    }
    h := s.Digest();
  }
}
