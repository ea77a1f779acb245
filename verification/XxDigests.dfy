/** XXH64 and XXH32 of particular strings: nothing, and bytes of value one that fill a stripe, every kind
    of word of the tail, and a single byte. Every constant and rotation takes part. */
module XxDigests {
  import opened Octets
  import opened Streaming
  import opened XxHash

  /** `n` bytes of value one. */
  function Ones(n: nat): (s: Bytes)
    ensures |s| == n
  {
    seq(n, _ => 1)
  }

  lemma OnesSplit(n: nat, k: nat)
    requires k <= n
    ensures Ones(n)[..k] == Ones(k) && Ones(n)[k..] == Ones(n - k)
  {
  }

  lemma ReadHalf64()
    ensures Read64(Ones(4)) == 0x0101_0101
  {
    OnesSplit(1, 1);
    assert Read64(Ones(1)) == 0x1;
    OnesSplit(2, 1);
    assert Read64(Ones(2)) == 0x101;
    OnesSplit(3, 1);
    assert Read64(Ones(3)) == 0x1_0101;
    OnesSplit(4, 1);
  }

  lemma ReadSix64()
    ensures Read64(Ones(6)) == 0x101_0101_0101
  {
    ReadHalf64();
    OnesSplit(5, 1);
    assert Read64(Ones(5)) == 0x1_0101_0101;
    OnesSplit(6, 1);
  }

  lemma ReadOnes64()
    ensures Read64(Ones(4)) == 0x0101_0101 && Read64(Ones(8)) == 0x0101_0101_0101_0101
  {
    ReadHalf64();
    ReadSix64();
    OnesSplit(7, 1);
    assert Read64(Ones(7)) == 0x1_0101_0101_0101;
    OnesSplit(8, 1);
  }

  lemma OnesRound64(v: bv64, r: bv64)
    requires r == Mix64(v, 0x0101_0101_0101_0101)
    ensures Round64(v, Ones(8)) == r
  {
    ReadOnes64();
  }

  lemma OnesQuarters(n: nat)
    ensures var s := Ones(4 * n);
            s[..n] == Ones(n) && s[n..2 * n] == Ones(n) && s[2 * n..3 * n] == Ones(n) && s[3 * n..] == Ones(n)
  {
  }

  lemma OnesLanes64(v: Lanes<bv64>)
    ensures Consume(Xxh64(), v, Ones(32)) == Lanes(Round64(v.v1, Ones(8)), Round64(v.v2, Ones(8)),
                                                   Round64(v.v3, Ones(8)), Round64(v.v4, Ones(8)))
  {
    OnesQuarters(8);
  }

  lemma OnesStripe64()
    ensures Merge64(Consume(Xxh64(), Start64(0), Ones(32))) == 0xC898_F406_CA04_C097
  {
    OnesLanes64(Start64(0));
    OnesRound64(0x60EA_27EE_ADC0_B5D6, 0x63DA_89A6_A7C3_C6D7);
    OnesRound64(0xC2B2_AE3D_27D4_EB4F, 0x0E5F_76DC_74EC_F668);
    OnesRound64(0, 0x5247_27C4_1188_5996);
    OnesRound64(0x61C8_864E_7A14_3579, 0xBFC1_FA3D_5EB1_8927);
    OnesMerge64();
  }

  lemma OnesMerge64()
    ensures Merge64(Lanes(0x63DA_89A6_A7C3_C6D7, 0x0E5F_76DC_74EC_F668, 0x5247_27C4_1188_5996, 0xBFC1_FA3D_5EB1_8927))
         == 0xC898_F406_CA04_C097
  {
  }

  lemma OnesWord64()
    ensures Finalize64(0xC898_F406_CA04_C0C4, Ones(13)) == Finalize64(0xFFE7_D79F_B605_9FB5, Ones(5))
  {
    OnesSplit(13, 8);
    OnesRound64(0, Mix64(0, 0x0101_0101_0101_0101));
  }

  lemma OnesHalf64()
    ensures Finalize64(0xFFE7_D79F_B605_9FB5, Ones(5)) == Finalize64(0x6392_5382_05BA_CCE4, Ones(1))
  {
    OnesSplit(5, 4);
    ReadHalf64();
  }

  lemma ByteStep64(h: bv64, s: Bytes)
    requires |s| == 1
    ensures Finalize64(h, s) == Finalize64((h ^ ((s[0] as bv64) * P64_5)).RotateLeft(11) * P64_1, s[1..])
  {
  }

  lemma OnesByte64()
    ensures Finalize64(0x6392_5382_05BA_CCE4, Ones(1)) == Finalize64(0x4B49_5088_AB29_2BEE, Ones(0))
  {
    OnesSplit(1, 1);
    ByteStep64(0x6392_5382_05BA_CCE4, Ones(1));
    ByteMix64(Ones(1)[0]);
  }

  lemma ByteMix64(b: Byte)
    requires b == 1
    ensures (0x6392_5382_05BA_CCE4 ^ ((b as bv64) * P64_5)).RotateLeft(11) * P64_1 == 0x4B49_5088_AB29_2BEE
  {
    assert (b as bv64) == 1;
  }

  lemma OnesEnd64()
    ensures Finalize64(0x4B49_5088_AB29_2BEE, Ones(0)) == 0xE546_6487_A9D0_493F
  {
  }

  lemma Length64()
    ensures AddLen64(0xC898_F406_CA04_C097, 45 % MOD64) == 0xC898_F406_CA04_C0C4
  {
    assert 45 % MOD64 == 45 && Word64(45) == 45;
  }

  lemma OnesSteps64()
    ensures HashOf(Xxh64(), 0, Ones(45)) ==
            Finalize64(AddLen64(Merge64(Consume(Xxh64(), Start64(0), Ones(32))), 45 % MOD64), Ones(13))
  {
    OneStripe(Xxh64(), 0, Ones(45));
    OnesSplit(45, 32);
  }

  lemma Nothing64()
    ensures HashOf(Xxh64(), 0, []) == 0xEF46_DB37_51D8_E999
  {
    assert Avalanche64(0x27D4_EB2F_1656_67C5) == 0xEF46_DB37_51D8_E999;
  }

  /** XXH64 without a seed, of nothing and of 45 bytes of value one: a stripe, a word of eight bytes, one
      of four and a single byte. */
  lemma Digests64()
    ensures HashOf(Xxh64(), 0, []) == 0xEF46_DB37_51D8_E999
    ensures HashOf(Xxh64(), 0, Ones(45)) == 0xE546_6487_A9D0_493F
  {
    Nothing64();
    OnesSteps64();
    OnesStripe64();
    Length64();
    OnesWord64();
    OnesHalf64();
    OnesByte64();
    OnesEnd64();
  }

  // ---------------------------------------------------------------- 32 bits

  lemma ReadOnes32()
    ensures Read32(Ones(4)) == 0x0101_0101
  {
    OnesSplit(1, 1);
    assert Read32(Ones(1)) == 0x1;
    OnesSplit(2, 1);
    assert Read32(Ones(2)) == 0x101;
    OnesSplit(3, 1);
    assert Read32(Ones(3)) == 0x1_0101;
    OnesSplit(4, 1);
  }

  lemma OnesRound32(v: bv32, r: bv32)
    requires r == Mix32(v, 0x0101_0101)
    ensures Round32(v, Ones(4)) == r
  {
    ReadOnes32();
  }

  lemma OnesLanes32(v: Lanes<bv32>)
    ensures Consume(Xxh32(), v, Ones(16)) == Lanes(Round32(v.v1, Ones(4)), Round32(v.v2, Ones(4)),
                                                   Round32(v.v3, Ones(4)), Round32(v.v4, Ones(4)))
  {
    OnesQuarters(4);
  }

  lemma OnesStripe32()
    ensures Merge32(Consume(Xxh32(), Start32(0), Ones(16))) == 0xB8C3_D151
  {
    OnesLanes32(Start32(0));
    OnesRound32(0x2423_4428, 0xF24F_15CA);
    OnesRound32(0x85EB_CA77, 0xFD9B_3A33);
    OnesRound32(0, 0xC0A1_18D5);
    OnesRound32(0x61C8_864F, 0xCBED_3D3E);
  }

  lemma OnesWord32()
    ensures Finalize32(0xB8C3_D166, Ones(5)) == Finalize32(0x72F8_52CD, Ones(1))
  {
    OnesSplit(5, 4);
    ReadOnes32();
  }

  lemma ByteStep32(h: bv32, s: Bytes)
    requires |s| == 1
    ensures Finalize32(h, s) == Finalize32((h + (s[0] as bv32) * P32_5).RotateLeft(11) * P32_1, s[1..])
  {
  }

  lemma ByteMix32(b: Byte)
    requires b == 1
    ensures (0x72F8_52CD + (b as bv32) * P32_5).RotateLeft(11) * P32_1 == 0xCDE8_E12A
  {
    assert (b as bv32) == 1;
  }

  lemma OnesByte32()
    ensures Finalize32(0x72F8_52CD, Ones(1)) == Finalize32(0xCDE8_E12A, Ones(0))
  {
    OnesSplit(1, 1);
    ByteStep32(0x72F8_52CD, Ones(1));
    ByteMix32(Ones(1)[0]);
  }

  lemma OnesEnd32()
    ensures Finalize32(0xCDE8_E12A, Ones(0)) == 0xF9DE_D77A
  {
  }

  lemma Length32()
    ensures AddLen32(0xB8C3_D151, 21 % MOD32) == 0xB8C3_D166
  {
    assert 21 % MOD32 == 21 && Word32(21) == 21;
  }

  lemma OnesSteps32()
    ensures HashOf(Xxh32(), 0, Ones(21)) ==
            Finalize32(AddLen32(Merge32(Consume(Xxh32(), Start32(0), Ones(16))), 21 % MOD32), Ones(5))
  {
    OneStripe(Xxh32(), 0, Ones(21));
    OnesSplit(21, 16);
  }

  lemma Nothing32()
    ensures HashOf(Xxh32(), 0, []) == 0x02CC_5D05
  {
    assert Avalanche32(0x1656_67B1) == 0x02CC_5D05;
  }

  /** XXH32 without a seed, of nothing and of 21 bytes of value one: a stripe, a word and a single byte. */
  lemma Digests32()
    ensures HashOf(Xxh32(), 0, []) == 0x02CC_5D05
    ensures HashOf(Xxh32(), 0, Ones(21)) == 0xF9DE_D77A
  {
    Nothing32();
    OnesSteps32();
    OnesStripe32();
    Length32();
    OnesWord32();
    OnesByte32();
    OnesEnd32();
  }

  // ---------------------------------------------------------------- byte order

  /** Words are read with the least significant byte first. */
  lemma LeastFirst()
    ensures Read64([1, 2]) == 0x0201 && Read32([1, 2]) == 0x0201
  {
    assert [1, 2][1..] == [2] && [2][1..] == [];
    assert Read64([2]) == 2 && Read32([2]) == 2;
  }
}
