/** Hashing a byte string in pieces (XXH32 and XXH64 of src/include/util/xxhash.h).

    The two algorithms share one shape: four lanes consume stripes of a fixed size, a tail
    shorter than a stripe is kept back, and both are combined at the end. The arithmetic is a
    parameter; module XxHash supplies it. */
module Streaming {
  import opened Arith
  import opened Octets

  datatype Lanes<V> = Lanes(v1: V, v2: V, v3: V, v4: V)

  /** What distinguishes the algorithms. `sticky` tells how the digest learns that a whole stripe was
      consumed, and how many bytes are left: from a flag and a counter kept for the purpose, or
      from the total length. */
  datatype Algo<!V> = Algo(
    lane: nat,
    modulus: nat,
    sticky: bool,
    start: V -> Lanes<V>,
    round: (V, Bytes) -> V,
    merge: Lanes<V> -> V,
    small: V -> V,
    addLen: (V, nat) -> V,
    finalize: (V, Bytes) -> V)

  function Stripe<V>(a: Algo<V>): nat { 4 * a.lane }

  predicate Ok<V>(a: Algo<V>) { 0 < a.lane && 2 * Stripe(a) <= a.modulus && a.modulus % Stripe(a) == 0 }

  /** One stripe goes into the lanes, a quarter each. */
  function Consume<V>(a: Algo<V>, v: Lanes<V>, s: Bytes): Lanes<V>
    requires |s| == Stripe(a)
  {
    var n := a.lane;
    Lanes(a.round(v.v1, s[..n]), a.round(v.v2, s[n..2 * n]), a.round(v.v3, s[2 * n..3 * n]), a.round(v.v4, s[3 * n..]))
  }

  datatype Absorbed<V> = Absorbed(lanes: Lanes<V>, tail: Bytes)

  /** The lanes after all whole stripes of `s`, and what is left of it. */
  function Absorb<V>(a: Algo<V>, v: Lanes<V>, s: Bytes): (r: Absorbed<V>)
    requires Ok(a)
    ensures |r.tail| < Stripe(a)
    decreases |s|
  {
    if |s| < Stripe(a) then Absorbed(v, s)
    else Absorb(a, Consume(a, v, s[..Stripe(a)]), s[Stripe(a)..])
  }

  /** Absorbing a string in two pieces is absorbing it whole. */
  lemma {:induction false} AbsorbConcat<V>(a: Algo<V>, v: Lanes<V>, x: Bytes, y: Bytes)
    requires Ok(a)
    ensures var r := Absorb(a, v, x); Absorb(a, v, x + y) == Absorb(a, r.lanes, r.tail + y)
    decreases |x|
  {
    var n := Stripe(a);
    if n <= |x| {
      assert (x + y)[..n] == x[..n] && (x + y)[n..] == x[n..] + y;
      AbsorbConcat(a, Consume(a, v, x[..n]), x[n..], y);
    }
  }

  lemma {:induction false} TailLength<V>(a: Algo<V>, v: Lanes<V>, s: Bytes)
    requires Ok(a)
    ensures |Absorb(a, v, s).tail| == |s| % Stripe(a)
    decreases |s|
  {
    var n := Stripe(a);
    if n <= |s| {
      TailLength(a, Consume(a, v, s[..n]), s[n..]);
      ModMinus(|s|, n);
    } else {
      ModSmall(|s|, n);
    }
  }

  lemma ModMinus(m: nat, n: nat)
    requires 0 < n <= m
    ensures (m - n) % n == m % n
  {
    var q := (m - n) / n;
    Divided(m - n, n);
    assert (q + 1) * n == q * n + n;
    DivModUnique(m, n, q + 1, (m - n) % n);
  }

  /** The hash of a whole string. */
  function HashOf<V>(a: Algo<V>, seed: V, s: Bytes): V
    requires Ok(a)
  {
    var r := Absorb(a, a.start(seed), s);
    var h := if Stripe(a) <= |s| then a.merge(r.lanes) else a.small(seed);
    a.finalize(a.addLen(h, |s| % a.modulus), r.tail)
  }

  lemma OneStripe<V>(a: Algo<V>, seed: V, s: Bytes)
    requires Ok(a) && Stripe(a) <= |s| < 2 * Stripe(a)
    ensures var n := Stripe(a);
            HashOf(a, seed, s) ==
            a.finalize(a.addLen(a.merge(Consume(a, a.start(seed), s[..n])), |s| % a.modulus), s[n..])
  {
    var n := Stripe(a);
    var v := Consume(a, a.start(seed), s[..n]);
    assert Absorb(a, v, s[n..]) == Absorbed(v, s[n..]);
  }

  /** The digest can tell whether a whole stripe was consumed: it has a flag for that, or the
      total length, which is kept modulo the width of its counter, does not mislead it. */
  predicate Countable<V>(a: Algo<V>, n: nat)
    requires Ok(a)
  {
    a.sticky || (Stripe(a) <= n <==> Stripe(a) <= n % a.modulus)
  }

  lemma CountableBelow<V>(a: Algo<V>, n: nat)
    requires Ok(a) && (a.sticky || n < a.modulus)
    ensures Countable(a, n)
  {
    ModAtMost(n, a.modulus);
  }

  /** The one-shot function: a loop over the whole stripes. */
  method OneShot<V>(a: Algo<V>, seed: V, input: Bytes) returns (h: V)
    requires Ok(a)
    ensures h == HashOf(a, seed, input)
  {
    var n := Stripe(a);
    var v := a.start(seed);
    var rest := input;
    while n <= |rest|
      invariant Absorb(a, v, rest) == Absorb(a, a.start(seed), input)
      decreases |rest|
    {
      v := Consume(a, v, rest[..n]);
      rest := rest[n..];
    }
    h := if n <= |input| then a.merge(v) else a.small(seed);
    TailLength(a, a.start(seed), input);
    var tail := |input| % n;
    assert rest[..tail] == rest;
    h := a.finalize(a.addLen(h, |input| % a.modulus), rest[..tail]);
  }

  /** The streaming state: lanes, total length modulo the width of its counter, a flag, and a
      buffer of one stripe of which `memSize` bytes are in use. */
  class Stream<!V> {
    const a: Algo<V>
    var lanes: Lanes<V>
    var total: nat
    var large: bool
    var mem: array<Byte>
    var memSize: nat
    ghost var seed: V
    ghost var fed: Bytes

    ghost predicate Valid()
      reads this, mem
    {
      && Ok(a) && a.start(seed).v3 == seed && mem.Length == Stripe(a) && memSize < Stripe(a)
      && Absorb(a, a.start(seed), fed) == Absorbed(lanes, mem[..memSize])
      && total == |fed| % a.modulus
      && (large <==> Stripe(a) <= |fed|)
    }

    constructor (a: Algo<V>, seed: V)
      requires Ok(a) && a.start(seed).v3 == seed
      ensures Valid() && this.a == a && this.seed == seed && fed == [] && fresh(mem)
    {
      this.a, this.seed, fed := a, seed, [];
      lanes, total, large, memSize := a.start(seed), 0, false, 0;
      mem := new Byte[Stripe(a)](_ => 0);
      new;
      ModSmall(0, a.modulus);
    }

    /** Copies `src` into the buffer. */
    method Keep(at: nat, src: Bytes)
      requires at + |src| <= mem.Length
      modifies mem
      ensures mem[..at + |src|] == old(mem[..at]) + src
    {
      for i := 0 to |src|
        invariant mem[..at] == old(mem[..at])
        invariant forall j :: 0 <= j < i ==> mem[at + j] == src[j]
      {
        mem[at + i] := src[i];
      }
      assert mem[..at + |src|] == mem[..at] + mem[at..at + |src|];
    }

    /** The buffer is completed to a stripe and consumed. */
    method Flush(input: Bytes) returns (rest: Bytes)
      requires Ok(a) && mem.Length == Stripe(a) && 0 < memSize < Stripe(a) <= memSize + |input|
      modifies this`lanes, this`memSize, mem
      ensures memSize == 0 && Absorb(a, lanes, rest) == old(Absorb(a, lanes, mem[..memSize] + input))
    {
      var n := Stripe(a);
      ghost var s := mem[..memSize] + input;
      Keep(memSize, input[..n - memSize]);
      assert mem[..n] == s[..n];
      lanes := Consume(a, lanes, mem[..n]);
      rest := input[n - memSize..];
      assert rest == s[n..];
      memSize := 0;
    }

    /** Whole stripes go straight into the lanes; the rest into the buffer. */
    method Stripes(input: Bytes)
      requires Ok(a) && mem.Length == Stripe(a) && memSize == 0
      modifies this`lanes, this`memSize, mem
      ensures memSize < Stripe(a) && Absorbed(lanes, mem[..memSize]) == old(Absorb(a, lanes, input))
    {
      var n := Stripe(a);
      var rest := input;
      while n <= |rest|
        invariant Absorb(a, lanes, rest) == old(Absorb(a, lanes, input))
        decreases |rest|
      {
        lanes := Consume(a, lanes, rest[..n]);
        rest := rest[n..];
      }
      Keep(0, rest);
      memSize := |rest|;
    }

    /** The counters take note of the length. */
    method Count(input: Bytes)
      requires Ok(a) && total == |fed| % a.modulus && (large <==> Stripe(a) <= |fed|)
      modifies this`total, this`large, this`fed
      ensures fed == old(fed) + input && total == |fed| % a.modulus && (large <==> Stripe(a) <= |fed|)
    {
      ModAdd(|fed|, |input|, a.modulus);
      total := (total + |input|) % a.modulus;
      fed := fed + input;
      ModAtMost(|fed|, a.modulus);
      large := large || Stripe(a) <= |input| || Stripe(a) <= total;
    }

    method Update(input: Bytes)
      requires Valid()
      modifies this, mem
      ensures Valid() && fed == old(fed) + input && seed == old(seed) && mem == old(mem)
    {
      AbsorbConcat(a, a.start(seed), fed, input);
      Count(input);
      if memSize + |input| < Stripe(a) {
        Keep(memSize, input);
        memSize := memSize + |input|;
      } else {
        var rest := input;
        if memSize > 0 {
          rest := Flush(input);
        } else {
          assert mem[..memSize] + input == input;
        }
        Stripes(rest);
      }
    }

    method Digest() returns (h: V)
      requires Valid() && Countable(a, |fed|)
      ensures h == HashOf(a, seed, fed)
    {
      h := if (if a.sticky then large else Stripe(a) <= total) then a.merge(lanes) else a.small(lanes.v3);
      TailLength(a, a.start(seed), fed);
      ModMod(|fed|, a.modulus, Stripe(a));
      var tail := if a.sticky then memSize else total % Stripe(a);
      h := a.finalize(a.addLen(h, total), mem[..tail]);
    }
  }

  /** However a string is divided into pieces, hashing them one after the other gives the hash
      of the whole. */
  method InPieces<V>(a: Algo<V>, seed: V, pieces: seq<Bytes>) returns (h: V)
    requires Ok(a) && a.start(seed).v3 == seed && Countable(a, |Concat(pieces, |pieces|)|)
    ensures h == HashOf(a, seed, Concat(pieces, |pieces|))
  {
    var s := new Stream(a, seed);
    for i := 0 to |pieces|
      invariant s.Valid() && fresh(s) && fresh(s.mem) && s.a == a && s.seed == seed && s.fed == Concat(pieces, i)
    {
      s.Update(pieces[i]);
    }
    h := s.Digest();
  }
}
