/** The published test vector of Speck32/64, computed from the key bytes to the bytes of the block. */
module SpeckExample {
  import opened Powers
  import opened Bytes
  import opened WordBits
  import opened Speck
  import opened SpeckEngine

  const SPECK32 := Variant(2, 20, 7, 2, {8}, 32)
  const SHAPE := Shape(16, 7, 2)
  const KEY: seq<Byte> := [0x19, 0x18, 0x11, 0x10, 0x09, 0x08, 0x01, 0x00]
  const BLOCK: seq<Byte> := [0x65, 0x74, 0x69, 0x4c]
  const WORDS: seq<int> := [0x0100, 0x0908, 0x1110, 0x1918]

  /** Key 1918 1110 0908 0100 takes 6574 694c to a868 42f2, and back. */
  lemma Speck32Vector()
    ensures VariantFor(32) == Some(SPECK32)
    ensures Transformed(SPECK32, true, Expanded(SPECK32, KEY), BLOCK) == [0xa8, 0x68, 0x42, 0xf2]
    ensures Transformed(SPECK32, false, Expanded(SPECK32, KEY), [0xa8, 0x68, 0x42, 0xf2]) == BLOCK
  {
    hide Encrypt, Decrypt, Value, BytesOf, RoundKeys;
    var keys := Expanded(SPECK32, KEY);
    KeyOfVector();
    ValueOfTwo(BLOCK[..2]);
    ValueOfTwo(BLOCK[2..]);
    AllRounds(keys);
    BytesOfTwo(0xa868);
    BytesOfTwo(0x42f2);
    RoundTrip(SPECK32, keys, BLOCK);
  }

  lemma KeyOfVector()
    ensures Expanded(SPECK32, KEY) == RoundKeys(SHAPE, WORDS, 22)
  {
    hide Value, RoundKeys;
    ValueOfTwo(KEY[0..2]);
    ValueOfTwo(KEY[2..4]);
    ValueOfTwo(KEY[4..6]);
    ValueOfTwo(KEY[6..8]);
    assert KeyWords(SPECK32, KEY, 4) == WORDS;
  }

  lemma ValueOfTwo(b: seq<Byte>)
    requires |b| == 2
    ensures Value(b) == 0x100 * b[0] as int + b[1] as int
  {
    assert b[..1][..0] == [];
    assert Value(b[..1]) == b[0] as int;
  }

  lemma BytesOfTwo(v: int)
    ensures BytesOf(v, 2) == [v / 0x100 % 0x100, v % 0x100]
  {
    assert BytesOf(v / 0x100, 1) == BytesOf(v / 0x100 / 0x100, 0) + [v / 0x100 % 0x100];
  }

  /** One round: the bytes `t` of the sum, `r` of the rotated `y`, and `k` of the key. */
  lemma RoundOf(x: int, y: int, k1: bv8, k0: bv8, t1: bv8, t0: bv8, r1: bv8, r0: bv8)
    requires FromTwo(t1, t0) == (x / 0x80 + x % 0x80 * 0x200 + y) % 0x1_0000
    requires FromTwo(r1, r0) == y * 4 % 0x1_0000 + y / 0x4000
    ensures Round(SHAPE, Pair(x, y), FromTwo(k1, k0))
         == Pair(FromTwo(BvXor(t1, k1), BvXor(t0, k0)),
                 FromTwo(BvXor(r1, BvXor(t1, k1)), BvXor(r0, BvXor(t0, k0))))
  {
    hide Round, Xor, FromTwo, BvXor;
    RoundIs(x, y, FromTwo(k1, k0), FromTwo(t1, t0), FromTwo(r1, r0));
    XorOfTwo(t1, t0, k1, k0);
    XorOfTwo(r1, r0, BvXor(t1, k1), BvXor(t0, k0));
  }

  lemma RoundIs(x: int, y: int, k: int, t: int, r: int)
    requires t == (x / 0x80 + x % 0x80 * 0x200 + y) % 0x1_0000 && r == y * 4 % 0x1_0000 + y / 0x4000
    ensures Round(SHAPE, Pair(x, y), k) == Pair(Xor(t, k, 16), Xor(r, Xor(t, k, 16), 16))
  {
    hide Two, Xor;
    PowersOf16();
  }

  lemma PowersOf16()
    ensures Two(16) == 0x1_0000 && Two(7) == 0x80 && Two(9) == 0x200 && Two(2) == 4 && Two(14) == 0x4000
  {
    TwoEight(1);
    TwoAdd(7, 2);
    TwoAdd(7, 7);
  }

  /** After `i` rounds: three words of the key recurrence, the round key, and the block. */
  ghost predicate Reached(keys: seq<int>, i: nat, l0: int, l1: int, l2: int, k: int, p: Pair)
    requires i <= |keys|
  {
    && LWord(SHAPE, WORDS, i) == l0 && LWord(SHAPE, WORDS, i + 1) == l1 && LWord(SHAPE, WORDS, i + 2) == l2
    && KWord(SHAPE, WORDS, i) == k && Encrypt(SHAPE, keys, Pair(0x6574, 0x694c), i) == p
  }

  lemma Next(keys: seq<int>, i: nat, l0: int, l1: int, l2: int, k: int, p: Pair, l3: int, k': int, p': Pair)
    requires i < |keys| == 22 && keys == RoundKeys(SHAPE, WORDS, 22) && Reached(keys, i, l0, l1, l2, k, p)
    requires Round(SHAPE, Pair(l0, k), i) == Pair(l3, k') && Round(SHAPE, p, k) == p'
    ensures Reached(keys, i + 1, l1, l2, l3, k', p')
  {
    hide Round, LWord, KWord;
    ScheduleIsRound(SHAPE, WORDS, i);
  }

  lemma Rounds3(keys: seq<int>)
    requires |keys| == 22 && keys == RoundKeys(SHAPE, WORDS, 22)
    requires Reached(keys, 0, 0x0908, 0x1110, 0x1918, 0x0100, Pair(0x6574, 0x694c))
    ensures Reached(keys, 3, 0x1112, 0x3535, 0x91ad, 0x1458, Pair(0xccd2, 0x71d1))
  {
    hide Round, Reached, RoundKeys;
    RoundOf(0x0908, 0x0100, 0x00, 0x00, 0x11, 0x12, 0x04, 0x00);
    RoundOf(0x6574, 0x694c, 0x01, 0x00, 0x52, 0x16, 0xa5, 0x31);
    Next(keys, 0, 0x0908, 0x1110, 0x1918, 0x0100, Pair(0x6574, 0x694c), 0x1112, 0x1512, Pair(0x5316, 0xf627));
    RoundOf(0x1110, 0x1512, 0x00, 0x01, 0x35, 0x34, 0x54, 0x48);
    RoundOf(0x5316, 0xf627, 0x15, 0x12, 0x22, 0xcd, 0xd8, 0x9f);
    Next(keys, 1, 0x1110, 0x1918, 0x1112, 0x1512, Pair(0x5316, 0xf627), 0x3535, 0x617d, Pair(0x37df, 0xef40));
    RoundOf(0x1918, 0x617d, 0x00, 0x02, 0x91, 0xaf, 0x85, 0xf5);
    RoundOf(0x37df, 0xef40, 0x61, 0x7d, 0xad, 0xaf, 0xbd, 0x03);
    Next(keys, 2, 0x1918, 0x1112, 0x3535, 0x617d, Pair(0x37df, 0xef40), 0x91ad, 0x1458, Pair(0xccd2, 0x71d1));
  }

  lemma Rounds6(keys: seq<int>)
    requires |keys| == 22 && keys == RoundKeys(SHAPE, WORDS, 22)
    requires Reached(keys, 3, 0x1112, 0x3535, 0x91ad, 0x1458, Pair(0xccd2, 0x71d1))
    ensures Reached(keys, 6, 0x3879, 0xd387, 0xd300, 0x0c89, Pair(0x6edf, 0x2c32))
  {
    hide Round, Reached, RoundKeys;
    RoundOf(0x1112, 0x1458, 0x00, 0x03, 0x38, 0x7a, 0x51, 0x60);
    RoundOf(0xccd2, 0x71d1, 0x14, 0x58, 0x17, 0x6a, 0xc7, 0x45);
    Next(keys, 3, 0x1112, 0x3535, 0x91ad, 0x1458, Pair(0xccd2, 0x71d1), 0x3879, 0x6919, Pair(0x0332, 0xc477));
    RoundOf(0x3535, 0x6919, 0x00, 0x04, 0xd3, 0x83, 0xa4, 0x65);
    RoundOf(0x0332, 0xc477, 0x69, 0x19, 0x28, 0x7d, 0x11, 0xdf);
    Next(keys, 4, 0x3535, 0x91ad, 0x3879, 0x6919, Pair(0x0332, 0xc477), 0xd387, 0x77e2, Pair(0x4164, 0x50bb));
    RoundOf(0x91ad, 0x77e2, 0x00, 0x05, 0xd3, 0x05, 0xdf, 0x89);
    RoundOf(0x4164, 0x50bb, 0x77, 0xe2, 0x19, 0x3d, 0x42, 0xed);
    Next(keys, 5, 0x91ad, 0x3879, 0xd387, 0x77e2, Pair(0x4164, 0x50bb), 0xd300, 0x0c89, Pair(0x6edf, 0x2c32));
  }

  lemma Rounds9(keys: seq<int>)
    requires |keys| == 22 && keys == RoundKeys(SHAPE, WORDS, 22)
    requires Reached(keys, 6, 0x3879, 0xd387, 0xd300, 0x0c89, Pair(0x6edf, 0x2c32))
    ensures Reached(keys, 9, 0xfeff, 0xdc85, 0xf198, 0x4e33, Pair(0x6db8, 0xbe47))
  {
    hide Round, Reached, RoundKeys;
    RoundOf(0x3879, 0x0c89, 0x00, 0x06, 0xfe, 0xf9, 0x32, 0x24);
    RoundOf(0x6edf, 0x2c32, 0x0c, 0x89, 0xeb, 0x0f, 0xb0, 0xc8);
    Next(keys, 6, 0x3879, 0xd387, 0xd300, 0x0c89, Pair(0x6edf, 0x2c32), 0xfeff, 0xccdb, Pair(0xe786, 0x574e));
    RoundOf(0xd387, 0xccdb, 0x00, 0x07, 0xdc, 0x82, 0x33, 0x6f);
    RoundOf(0xe786, 0x574e, 0xcc, 0xdb, 0x65, 0x1d, 0x5d, 0x39);
    Next(keys, 7, 0xd387, 0xd300, 0xfeff, 0xccdb, Pair(0xe786, 0x574e), 0xdc85, 0xefea, Pair(0xa9c6, 0xf4ff));
    RoundOf(0xd300, 0xefea, 0x00, 0x08, 0xf1, 0x90, 0xbf, 0xab);
    RoundOf(0xa9c6, 0xf4ff, 0xef, 0xea, 0x82, 0x52, 0xd3, 0xff);
    Next(keys, 8, 0xd300, 0xfeff, 0xdc85, 0xefea, Pair(0xa9c6, 0xf4ff), 0xf198, 0x4e33, Pair(0x6db8, 0xbe47));
  }

  lemma Rounds12(keys: seq<int>)
    requires |keys| == 22 && keys == RoundKeys(SHAPE, WORDS, 22)
    requires Reached(keys, 9, 0xfeff, 0xdc85, 0xf198, 0x4e33, Pair(0x6db8, 0xbe47))
    ensures Reached(keys, 12, 0x4e39, 0x82a7, 0x8b52, 0xee8b, Pair(0xaec5, 0x1eab))
  {
    hide Round, Reached, RoundKeys;
    RoundOf(0xfeff, 0x4e33, 0x00, 0x09, 0x4e, 0x30, 0x38, 0xcd);
    RoundOf(0x6db8, 0xbe47, 0x4e, 0x33, 0x2f, 0x22, 0xf9, 0x1e);
    Next(keys, 9, 0xfeff, 0xdc85, 0xf198, 0x4e33, Pair(0x6db8, 0xbe47), 0x4e39, 0x76f4, Pair(0x6111, 0x980f));
    RoundOf(0xdc85, 0x76f4, 0x00, 0x0a, 0x82, 0xad, 0xdb, 0xd1);
    RoundOf(0x6111, 0x980f, 0x76, 0xf4, 0xba, 0xd1, 0x60, 0x3e);
    Next(keys, 10, 0xdc85, 0xf198, 0x4e39, 0x76f4, Pair(0x6111, 0x980f), 0x82a7, 0x5976, Pair(0xcc25, 0xac1b));
    RoundOf(0xf198, 0x5976, 0x00, 0x0b, 0x8b, 0x59, 0x65, 0xd9);
    RoundOf(0xcc25, 0xac1b, 0x59, 0x76, 0xf7, 0xb3, 0xb0, 0x6e);
    Next(keys, 11, 0xf198, 0x4e39, 0x82a7, 0x5976, Pair(0xcc25, 0xac1b), 0x8b52, 0xee8b, Pair(0xaec5, 0x1eab));
  }

  lemma Rounds15(keys: seq<int>)
    requires |keys| == 22 && keys == RoundKeys(SHAPE, WORDS, 22)
    requires Reached(keys, 12, 0x4e39, 0x82a7, 0x8b52, 0xee8b, Pair(0xaec5, 0x1eab))
    ensures Reached(keys, 15, 0x612b, 0x2a04, 0xeb23, 0xf37e, Pair(0xa628, 0x3a29))
  {
    hide Round, Reached, RoundKeys;
    RoundOf(0x4e39, 0xee8b, 0x00, 0x0c, 0x61, 0x27, 0xba, 0x2f);
    RoundOf(0xaec5, 0x1eab, 0xee, 0x8b, 0xaa, 0x08, 0x7a, 0xac);
    Next(keys, 12, 0x4e39, 0x82a7, 0x8b52, 0xee8b, Pair(0xaec5, 0x1eab), 0x612b, 0xdb04, Pair(0x4483, 0x3e2f));
    RoundOf(0x82a7, 0xdb04, 0x00, 0x0d, 0x2a, 0x09, 0x6c, 0x13);
    RoundOf(0x4483, 0x3e2f, 0xdb, 0x04, 0x44, 0xb8, 0xf8, 0xbc);
    Next(keys, 13, 0x82a7, 0x8b52, 0x612b, 0xdb04, Pair(0x4483, 0x3e2f), 0x2a04, 0x4617, Pair(0x9fbc, 0x6700));
    RoundOf(0x8b52, 0x4617, 0x00, 0x0e, 0xeb, 0x2d, 0x18, 0x5d);
    RoundOf(0x9fbc, 0x6700, 0x46, 0x17, 0xe0, 0x3f, 0x9c, 0x01);
    Next(keys, 14, 0x8b52, 0x612b, 0x2a04, 0x4617, Pair(0x9fbc, 0x6700), 0xeb23, 0xf37e, Pair(0xa628, 0x3a29));
  }

  lemma Rounds18(keys: seq<int>)
    requires |keys| == 22 && keys == RoundKeys(SHAPE, WORDS, 22)
    requires Reached(keys, 15, 0x612b, 0x2a04, 0xeb23, 0xf37e, Pair(0xa628, 0x3a29))
    ensures Reached(keys, 18, 0x4a4f, 0x9018, 0xd6b1, 0xed9b, Pair(0x361f, 0xbc4a))
  {
    hide Round, Reached, RoundKeys;
    RoundOf(0x612b, 0xf37e, 0x00, 0x0f, 0x4a, 0x40, 0xcd, 0xfb);
    RoundOf(0xa628, 0x3a29, 0xf3, 0x7e, 0x8b, 0x75, 0xe8, 0xa4);
    Next(keys, 15, 0x612b, 0x2a04, 0xeb23, 0xf37e, Pair(0xa628, 0x3a29), 0x4a4f, 0x87b4, Pair(0x780b, 0x90af));
    RoundOf(0x2a04, 0x87b4, 0x00, 0x10, 0x90, 0x08, 0x1e, 0xd2);
    RoundOf(0x780b, 0x90af, 0x87, 0xb4, 0xa7, 0x9f, 0x42, 0xbe);
    Next(keys, 16, 0x2a04, 0xeb23, 0x4a4f, 0x87b4, Pair(0x780b, 0x90af), 0x9018, 0x8eca, Pair(0x202b, 0x6295));
    RoundOf(0xeb23, 0x8eca, 0x00, 0x11, 0xd6, 0xa0, 0x3b, 0x2a);
    RoundOf(0x202b, 0x6295, 0x8e, 0xca, 0xb8, 0xd5, 0x8a, 0x55);
    Next(keys, 17, 0xeb23, 0x4a4f, 0x9018, 0x8eca, Pair(0x202b, 0x6295), 0xd6b1, 0xed9b, Pair(0x361f, 0xbc4a));
  }

  lemma Rounds20(keys: seq<int>)
    requires |keys| == 22 && keys == RoundKeys(SHAPE, WORDS, 22)
    requires Reached(keys, 18, 0x4a4f, 0x9018, 0xd6b1, 0xed9b, Pair(0x361f, 0xbc4a))
    ensures Reached(keys, 20, 0xd6b1, 0x8c3d, 0x6b61, 0x8229, Pair(0x7a67, 0xe278))
  {
    hide Round, Reached, RoundKeys;
    RoundOf(0x4a4f, 0xed9b, 0x00, 0x12, 0x8c, 0x2f, 0xb6, 0x6f);
    RoundOf(0x361f, 0xbc4a, 0xed, 0x9b, 0xfa, 0xb6, 0xf1, 0x2a);
    Next(keys, 18, 0x4a4f, 0x9018, 0xd6b1, 0xed9b, Pair(0x361f, 0xbc4a), 0x8c3d, 0x3a52, Pair(0x172d, 0xe607));
    RoundOf(0x9018, 0x3a52, 0x00, 0x13, 0x6b, 0x72, 0xe9, 0x48);
    RoundOf(0x172d, 0xe607, 0x3a, 0x52, 0x40, 0x35, 0x98, 0x1f);
    Next(keys, 19, 0x9018, 0xd6b1, 0x8c3d, 0x3a52, Pair(0x172d, 0xe607), 0x6b61, 0x8229, Pair(0x7a67, 0xe278));
  }

  lemma Rounds22(keys: seq<int>)
    requires |keys| == 22 && keys == RoundKeys(SHAPE, WORDS, 22)
    requires Reached(keys, 20, 0xd6b1, 0x8c3d, 0x6b61, 0x8229, Pair(0x7a67, 0xe278))
    ensures Reached(keys, 22, 0x6b61, 0xe5c2, 0x6869, 0xddfa, Pair(0xa868, 0x42f2))
  {
    hide Round, Reached, RoundKeys;
    RoundOf(0xd6b1, 0x8229, 0x00, 0x14, 0xe5, 0xd6, 0x08, 0xa6);
    RoundOf(0x7a67, 0xe278, 0x82, 0x29, 0xb1, 0x6c, 0x89, 0xe3);
    Next(keys, 20, 0xd6b1, 0x8c3d, 0x6b61, 0x8229, Pair(0x7a67, 0xe278), 0xe5c2, 0xed64, Pair(0x3345, 0xbaa6));
    RoundOf(0x8c3d, 0xed64, 0x00, 0x15, 0x68, 0x7c, 0xb5, 0x93);
    RoundOf(0x3345, 0xbaa6, 0xed, 0x64, 0x45, 0x0c, 0xea, 0x9a);
    Next(keys, 21, 0x8c3d, 0x6b61, 0xe5c2, 0xed64, Pair(0x3345, 0xbaa6), 0x6869, 0xddfa, Pair(0xa868, 0x42f2));
  }

  lemma AllRounds(keys: seq<int>)
    requires keys == RoundKeys(SHAPE, WORDS, 22)
    ensures |keys| == 22 && Encrypt(SHAPE, keys, Pair(0x6574, 0x694c), 22) == Pair(0xa868, 0x42f2)
  {
    hide LWord, KWord, RoundKeys, Encrypt;
    FirstKeyWords(SHAPE, WORDS);
    FirstEncrypt(keys);
    Rounds3(keys);
    Rounds6(keys);
    Rounds9(keys);
    Rounds12(keys);
    Rounds15(keys);
    Rounds18(keys);
    Rounds20(keys);
    Rounds22(keys);
  }

  lemma FirstEncrypt(keys: seq<int>)
    ensures Encrypt(SHAPE, keys, Pair(0x6574, 0x694c), 0) == Pair(0x6574, 0x694c)
  {
  }
}
