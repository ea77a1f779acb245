/** The arithmetic of XXH64 and XXH32 (src/include/util/xxhash.h), and that hashing in pieces
    gives their one-shot values. */
module XxHash {
  import opened Octets
  import opened Streaming

  // ---------------------------------------------------------------- 64 bits

  const P64_1: bv64 := 0x9E3779B185EBCA87
  const P64_2: bv64 := 0xC2B2AE3D27D4EB4F
  const P64_3: bv64 := 0x165667B19E3779F9
  const P64_4: bv64 := 0x85EBCA77C2B2AE63
  const P64_5: bv64 := 0x27D4EB2F165667C5

  function Read64(s: Bytes): bv64 { if s == [] then 0 else (Read64(s[1..]) << 8) | (s[0] as bv64) }

  function Mix64(acc: bv64, input: bv64): bv64 { (acc + input * P64_2).RotateLeft(31) * P64_1 }

  function Round64(acc: bv64, s: Bytes): bv64 { Mix64(acc, Read64(s)) }

  function MergeRound64(acc: bv64, val: bv64): bv64 { (acc ^ Mix64(0, val)) * P64_1 + P64_4 }

  function Merge64(v: Lanes<bv64>): bv64 {
    var h := v.v1.RotateLeft(1) + v.v2.RotateLeft(7) + v.v3.RotateLeft(12) + v.v4.RotateLeft(18);
    MergeRound64(MergeRound64(MergeRound64(MergeRound64(h, v.v1), v.v2), v.v3), v.v4)
  }

  function Avalanche64(h: bv64): bv64 {
    var a := (h ^ (h >> 33)) * P64_2;
    var b := (a ^ (a >> 29)) * P64_3;
    b ^ (b >> 32)
  }

  /** The tail goes in by words of eight bytes, at most one of four, and single bytes. */
  function Finalize64(h: bv64, s: Bytes): bv64
    decreases |s|
  {
    if 8 <= |s| then Finalize64((h ^ Round64(0, s[..8])).RotateLeft(27) * P64_1 + P64_4, s[8..])
    else if 4 <= |s| then Finalize64((h ^ (Read64(s[..4]) * P64_1)).RotateLeft(23) * P64_2 + P64_3, s[4..])
    else if 0 < |s| then Finalize64((h ^ ((s[0] as bv64) * P64_5)).RotateLeft(11) * P64_1, s[1..])
    else Avalanche64(h)
  }

  function Start64(seed: bv64): Lanes<bv64> { Lanes(seed + P64_1 + P64_2, seed + P64_2, seed, seed - P64_1) }

  function Small64(seed: bv64): bv64 { seed + P64_5 }

  const MOD64: nat := 0x1_0000_0000_0000_0000

  function Word64(n: nat): bv64 { (n % MOD64) as bv64 }

  function AddLen64(h: bv64, n: nat): bv64 { h + Word64(n) }

  function Xxh64(): Algo<bv64> {
    Algo(8, MOD64, false, Start64, Round64, Merge64, Small64, AddLen64, Finalize64)
  }

  // ---------------------------------------------------------------- 32 bits

  const P32_1: bv32 := 0x9E3779B1
  const P32_2: bv32 := 0x85EBCA77
  const P32_3: bv32 := 0xC2B2AE3D
  const P32_4: bv32 := 0x27D4EB2F
  const P32_5: bv32 := 0x165667B1

  function Read32(s: Bytes): bv32 { if s == [] then 0 else (Read32(s[1..]) << 8) | (s[0] as bv32) }

  function Mix32(acc: bv32, input: bv32): bv32 { (acc + input * P32_2).RotateLeft(13) * P32_1 }

  function Round32(acc: bv32, s: Bytes): bv32 { Mix32(acc, Read32(s)) }

  function Merge32(v: Lanes<bv32>): bv32 {
    v.v1.RotateLeft(1) + v.v2.RotateLeft(7) + v.v3.RotateLeft(12) + v.v4.RotateLeft(18)
  }

  function Avalanche32(h: bv32): bv32 {
    var a := (h ^ (h >> 15)) * P32_2;
    var b := (a ^ (a >> 13)) * P32_3;
    b ^ (b >> 16)
  }

  function Finalize32(h: bv32, s: Bytes): bv32
    decreases |s|
  {
    if 4 <= |s| then Finalize32((h + Read32(s[..4]) * P32_3).RotateLeft(17) * P32_4, s[4..])
    else if 0 < |s| then Finalize32((h + (s[0] as bv32) * P32_5).RotateLeft(11) * P32_1, s[1..])
    else Avalanche32(h)
  }

  function Start32(seed: bv32): Lanes<bv32> { Lanes(seed + P32_1 + P32_2, seed + P32_2, seed, seed - P32_1) }

  function Small32(seed: bv32): bv32 { seed + P32_5 }

  const MOD32: nat := 0x1_0000_0000

  function Word32(n: nat): bv32 { (n % MOD32) as bv32 }

  function AddLen32(h: bv32, n: nat): bv32 { h + Word32(n) }

  function Xxh32(): Algo<bv32> {
    Algo(4, MOD32, true, Start32, Round32, Merge32, Small32, AddLen32, Finalize32)
  }

  // ---------------------------------------------------------------- in pieces

  /** XXH64 of pieces that together are shorter than 2^64 bytes. */
  method Xxh64InPieces(seed: bv64, pieces: seq<Bytes>) returns (h: bv64)
    requires |Concat(pieces, |pieces|)| < MOD64
    ensures h == HashOf(Xxh64(), seed, Concat(pieces, |pieces|))
  {
    CountableBelow(Xxh64(), |Concat(pieces, |pieces|)|);
    h := InPieces(Xxh64(), seed, pieces);
  }

  /** XXH32 of any pieces: its length counter may wrap. */
  method Xxh32InPieces(seed: bv32, pieces: seq<Bytes>) returns (h: bv32)
    ensures h == HashOf(Xxh32(), seed, Concat(pieces, |pieces|))
  {
    h := InPieces(Xxh32(), seed, pieces);
  }
}
