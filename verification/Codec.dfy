/** The record header: packed little-endian fields of two, four and eight bytes
    (src/include/uDepot/lsa/store.hh). */
module Codec {
  import opened Arith
  import opened Octets

  function Pow(k: nat): (p: nat)
    ensures 0 < p
  {
    if k == 0 then 1 else 256 * Pow(k - 1)
  }

  /** The low `k` bytes of `n`, least significant first. */
  function Encode(n: nat, k: nat): (b: Bytes)
    ensures |b| == k
  {
    if k == 0 then [] else [n % 256] + Encode(n / 256, k - 1)
  }

  function Decode(b: Bytes): nat { if b == [] then 0 else b[0] + 256 * Decode(b[1..]) }

  lemma ModSplits(n: nat, p: nat)
    requires 0 < p
    ensures n % (256 * p) == n % 256 + 256 * ((n / 256) % p)
  {
    var q, r := n / 256, n % 256;
    var a, b := q / p, q % p;
    assert q == a * p + b;
    assert n == 256 * q + r;
    assert 256 * (a * p) == a * (256 * p);
    assert n == a * (256 * p) + (256 * b + r);
    assert 0 <= 256 * b + r < 256 * p;
    DivModUnique(n, 256 * p, a, 256 * b + r);
  }

  /** A field of `k` bytes keeps a number up to its width. */
  lemma {:induction false} DecodeEncode(n: nat, k: nat)
    ensures Decode(Encode(n, k)) == n % Pow(k)
  {
    if k > 0 {
      DecodeEncode(n / 256, k - 1);
      ModSplits(n, Pow(k - 1));
      assert Encode(n, k)[1..] == Encode(n / 256, k - 1);
    }
  }

  /** The number survives exactly when it fits. */
  lemma FieldFits(n: nat, k: nat)
    ensures Decode(Encode(n, k)) == n <==> n < Pow(k)
  {
    DecodeEncode(n, k);
  }

  const KEY_BYTES: nat := 2
  const VAL_BYTES: nat := 4
  const TS_BYTES: nat := 8

  function Header(keySize: nat, valSize: nat, ts: nat): (h: Bytes)
    ensures |h| == 14
  {
    Encode(keySize, KEY_BYTES) + Encode(valSize, VAL_BYTES) + Encode(ts, TS_BYTES)
  }

  function KeySize(h: Bytes): nat requires 14 <= |h| { Decode(h[..2]) }
  function ValSize(h: Bytes): nat requires 14 <= |h| { Decode(h[2..6]) }
  function Timestamp(h: Bytes): nat requires 14 <= |h| { Decode(h[6..14]) }

  /** A header read back, at the head of any record, gives the sizes truncated to their fields. */
  lemma HeaderFields(keySize: nat, valSize: nat, ts: nat, rest: Bytes)
    ensures var b := Header(keySize, valSize, ts) + rest;
            KeySize(b) == keySize % Pow(2) && ValSize(b) == valSize % Pow(4) && Timestamp(b) == ts % Pow(8)
  {
    var b := Header(keySize, valSize, ts) + rest;
    assert b[..2] == Encode(keySize, 2) && b[2..6] == Encode(valSize, 4) && b[6..14] == Encode(ts, 8);
    DecodeEncode(keySize, 2);
    DecodeEncode(valSize, 4);
    DecodeEncode(ts, 8);
  }

  lemma {:induction false} EncodeAt(n: nat, k: nat, i: nat)
    requires i < k
    ensures Encode(n, k)[i] == (n / Pow(i)) % 256
  {
    if i > 0 {
      EncodeAt(n / 256, k - 1, i - 1);
      DivTwice(n, Pow(i - 1));
    }
  }

  lemma DivTwice(n: nat, p: nat)
    requires 0 < p
    ensures n / 256 / p == n / (256 * p)
  {
    var q, r := n / 256 / p, n / 256 % p;
    Divided(n / 256, p);
    assert n == 256 * (q * p + r) + n % 256 && 256 * (q * p) == q * (256 * p);
    DivModUnique(n, 256 * p, q, 256 * r + n % 256);
  }

  /** Where every byte of a header is: two bytes of key size, four of value size, eight of timestamp, the
      least significant first. */
  lemma HeaderBytes(keySize: nat, valSize: nat, ts: nat)
    ensures var h := Header(keySize, valSize, ts);
            && h[0] == keySize % 256 && h[1] == (keySize / 256) % 256
            && (forall i {:trigger Pow(i)} :: 0 <= i < 4 ==> h[2 + i] == (valSize / Pow(i)) % 256)
            && (forall i {:trigger Pow(i)} :: 0 <= i < 8 ==> h[6 + i] == (ts / Pow(i)) % 256)
  {
    EncodeAt(keySize, 2, 0);
    EncodeAt(keySize, 2, 1);
    assert Pow(1) == 256;
    forall i | 0 <= i < 4 ensures Encode(valSize, 4)[i] == (valSize / Pow(i)) % 256 { EncodeAt(valSize, 4, i); }
    forall i | 0 <= i < 8 ensures Encode(ts, 8)[i] == (ts / Pow(i)) % 256 { EncodeAt(ts, 8, i); }
  }
}
