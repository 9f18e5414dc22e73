/** The first example of FIPS 180-4: the digest of "abc", computed from the specification. */
module Sha512Example {
  import opened Bytes
  import opened Sha512Words
  import opened Sha512Block
  import opened Sha512

  const ABC: seq<Byte> := [0x61, 0x62, 0x63]

  /** The digest of "abc" is the published one. */
  lemma DigestOfABC()
    ensures Digest(ABC) ==
      StoreBE(0xddaf35a193617aba) + StoreBE(0xcc417349ae204131) + StoreBE(0x12e6fa4e89a97ea2) +
      StoreBE(0x0a9eeee64b55d39a) + StoreBE(0x2192992a274fc1a8) + StoreBE(0x36ba3c23a3feebbd) +
      StoreBE(0x454d4423643ce80e) + StoreBE(0x2a9ac94fa54ca49f)
  {
    hide Blocks, Pad, Compress, StoreBE;
    var p := Pad(ABC);
    PadOfABC();
    OneBlockOnly(INITIAL, p);
    StateOfABC();
    StoredEight(Blocks(INITIAL, p));
  }

  lemma StoredEight(h: seq<Word>)
    requires |h| == 8
    ensures Stored(h) == StoreWord(h[0]) + StoreWord(h[1]) + StoreWord(h[2])
      + StoreWord(h[3]) + StoreWord(h[4]) + StoreWord(h[5])
      + StoreWord(h[6]) + StoreWord(h[7])
  {
    hide StoreWord, Stored;
    StoredFour(h, 0);
    StoredFour(h, 4);
    StoredNone();
    assert h[..0] == [] && h[..8] == h && h[..0 + 4] == h[..4] && h[..4 + 4] == h[..8];
  }

  lemma StoredNone()
    ensures Stored([]) == []
  {
  }

  lemma StoredFour(h: seq<Word>, i: nat)
    requires i + 4 <= |h|
    ensures Stored(h[..i + 4]) == Stored(h[..i]) + StoreWord(h[i]) + StoreWord(h[i + 1])
      + StoreWord(h[i + 2]) + StoreWord(h[i + 3])
  {
    hide StoreWord, Stored;
    StoredFront(h, i);
    StoredFront(h, i + 1);
    StoredFront(h, i + 2);
    StoredFront(h, i + 3);
  }

  lemma StoredFront(h: seq<Word>, i: nat)
    requires i < |h|
    ensures Stored(h[..i + 1]) == Stored(h[..i]) + StoreWord(h[i])
  {
    hide StoreWord;
    assert h[..i + 1][..i] == h[..i];
  }

  lemma OneBlockOnly(h: seq<Word>, p: seq<Byte>)
    requires |h| == 8 && |p| == 128
    ensures Blocks(h, p) == Compress(h, p)
  {
    hide Compress;
    assert p[..128] == p && |p[128..]| == 0;
  }

  // The block

  lemma PadOfABC()
    ensures Pad(ABC) == [0x61, 0x62, 0x63, 0x80] + Zeros(108) + LengthField(3) && |Pad(ABC)| == 128
  {
    hide LengthField;
  }

  lemma WordsOfABC()
    ensures |Pad(ABC)| == 128 && var b := BlockWords(Pad(ABC));
      && b[0] == Word(0x6162638000000000) && b[15] == Word(0x18)
      && forall i :: 0 < i < 15 ==> b[i] == Word(0)
  {
    hide Pad, WordAt, StoreBE, LoadBE;
    PadOfABC();
    var p := Pad(ABC);
    LengthOfABC();
    assert p[0..8] == [0x61, 0x62, 0x63, 0x80, 0, 0, 0, 0];
    FirstWordOfABC();
    LoadedWord(p, 0, 0x6162638000000000);
    assert p[120..128] == StoreBE(24);
    StoredBytes(24, StoreBE(24));
    LoadedWord(p, 15, 24);
    StoredBytes(0, StoreBE(0));
    forall i | 0 < i < 15 ensures WordAt(p, i) == Word(0) {
      assert p[8 * i..8 * i + 8] == Zeros(8);
      LoadedWord(p, i, 0);
    }
  }

  lemma LoadedWord(p: seq<Byte>, i: nat, x: bv64)
    requires |p| == 128 && i < 16 && LoadBE(p[8 * i..8 * i + 8]) == x as int
    ensures WordAt(p, i) == Word(x)
  {
    hide LoadBE;
  }

  lemma LengthOfABC()
    ensures LengthField(3) == StoreBE(0) + StoreBE(24) && StoreBE(0) == Zeros(8)
  {
    hide BytesOf;
    StoreOfZero(8);
  }

  lemma {:induction false} StoreOfZero(n: nat)
    ensures BytesOf(0, n) == Zeros(n)
  {
    if n > 0 {
      StoreOfZero(n - 1);
    }
  }

  lemma FirstWordOfABC()
    ensures LoadBE([0x61, 0x62, 0x63, 0x80, 0, 0, 0, 0]) == 0x6162638000000000
  {
    ValueOfFour([0x61, 0x62, 0x63, 0x80]);
    ValueSnoc([0x61, 0x62, 0x63, 0x80], 0);
    ValueSnoc([0x61, 0x62, 0x63, 0x80, 0], 0);
    ValueSnoc([0x61, 0x62, 0x63, 0x80, 0, 0], 0);
    ValueSnoc([0x61, 0x62, 0x63, 0x80, 0, 0, 0], 0);
    assert [0x61, 0x62, 0x63, 0x80] + [0] == [0x61, 0x62, 0x63, 0x80, 0];
    assert [0x61, 0x62, 0x63, 0x80, 0] + [0] == [0x61, 0x62, 0x63, 0x80, 0, 0];
    assert [0x61, 0x62, 0x63, 0x80, 0, 0] + [0] == [0x61, 0x62, 0x63, 0x80, 0, 0, 0];
    assert [0x61, 0x62, 0x63, 0x80, 0, 0, 0] + [0] == [0x61, 0x62, 0x63, 0x80, 0, 0, 0, 0];
  }

  lemma ValueOfFour(s: seq<Byte>)
    requires |s| == 4
    ensures Value(s) == 0x100_0000 * s[0] as int + 0x1_0000 * s[1] as int + 0x100 * s[2] as int + s[3] as int
  {
    ValueSnoc(s[..3], s[3]);
    ValueSnoc(s[..2], s[2]);
    ValueSnoc(s[..1], s[1]);
    ValueSnoc(s[..0], s[0]);
    assert s[..3] + [s[3]] == s && s[..2] + [s[2]] == s[..3] && s[..1] + [s[1]] == s[..2] && s[..0] + [s[0]] == s[..1];
  }

  lemma ValueSnoc(s: seq<Byte>, b: Byte)
    ensures Value(s + [b]) == 256 * Value(s) + b as int
  {
  }

  // The rounds

  function Start(): Regs {
    FromState(INITIAL)
  }

  /** One more word of the schedule and one more round. */
  lemma NextRound(b: seq<Word>, t: nat, k: bv64)
    requires |b| == 16 && t < 80 && |K512| == 80 && K512[t] == k
    ensures t >= 16 ==>
      (Schedule(b, t) == Scheduled(Schedule(b, t - 2), Schedule(b, t - 7), Schedule(b, t - 15), Schedule(b, t - 16)))
    ensures Rounds(Start(), b, t + 1) == Step(Rounds(Start(), b, t), k, Schedule(b, t))
  {
    hide Step, Scheduled;
  }

  lemma Constants0()
    ensures |K512| == 80
    ensures K512[0] == 0x428a2f98d728ae22 && K512[1] == 0x7137449123ef65cd
    ensures K512[2] == 0xb5c0fbcfec4d3b2f && K512[3] == 0xe9b5dba58189dbbc
    ensures K512[4] == 0x3956c25bf348b538 && K512[5] == 0x59f111f1b605d019
    ensures K512[6] == 0x923f82a4af194f9b && K512[7] == 0xab1c5ed5da6d8118
    ensures K512[8] == 0xd807aa98a3030242 && K512[9] == 0x12835b0145706fbe
    ensures K512[10] == 0x243185be4ee4b28c && K512[11] == 0x550c7dc3d5ffb4e2
    ensures K512[12] == 0x72be5d74f27b896f && K512[13] == 0x80deb1fe3b1696b1
    ensures K512[14] == 0x9bdc06a725c71235 && K512[15] == 0xc19bf174cf692694
  {
  }

  lemma Rounds16(b: seq<Word>)
    requires |b| == 16
    requires Rounds(Start(), b, 0) == Regs(
        Word(0x6a09e667f3bcc908), Word(0xbb67ae8584caa73b), Word(0x3c6ef372fe94f82b), Word(0xa54ff53a5f1d36f1),
        Word(0x510e527fade682d1), Word(0x9b05688c2b3e6c1f), Word(0x1f83d9abfb41bd6b), Word(0x5be0cd19137e2179))
    requires Schedule(b, 0) == Word(0x6162638000000000) && Schedule(b, 1) == Word(0x0000000000000000)
    requires Schedule(b, 2) == Word(0x0000000000000000) && Schedule(b, 3) == Word(0x0000000000000000)
    requires Schedule(b, 4) == Word(0x0000000000000000) && Schedule(b, 5) == Word(0x0000000000000000)
    requires Schedule(b, 6) == Word(0x0000000000000000) && Schedule(b, 7) == Word(0x0000000000000000)
    requires Schedule(b, 8) == Word(0x0000000000000000) && Schedule(b, 9) == Word(0x0000000000000000)
    requires Schedule(b, 10) == Word(0x0000000000000000) && Schedule(b, 11) == Word(0x0000000000000000)
    requires Schedule(b, 12) == Word(0x0000000000000000) && Schedule(b, 13) == Word(0x0000000000000000)
    requires Schedule(b, 14) == Word(0x0000000000000000) && Schedule(b, 15) == Word(0x0000000000000018)
    ensures Rounds(Start(), b, 16) == Regs(
        Word(0x0ae07c86b1181c75), Word(0xfa967eed85a08028), Word(0x44249631255d2ca0), Word(0x5e41214388186c14),
        Word(0xa77b7c035dd4c161), Word(0x874bfe5f6aae9f2f), Word(0x860acf9effba6f61), Word(0xcdf3bff2883fc9d9))
  {
    hide Rounds, Schedule, Start;
    Constants0();
    NextRound(b, 0, 0x428a2f98d728ae22);
    NextRound(b, 1, 0x7137449123ef65cd);
    NextRound(b, 2, 0xb5c0fbcfec4d3b2f);
    NextRound(b, 3, 0xe9b5dba58189dbbc);
    NextRound(b, 4, 0x3956c25bf348b538);
    NextRound(b, 5, 0x59f111f1b605d019);
    NextRound(b, 6, 0x923f82a4af194f9b);
    NextRound(b, 7, 0xab1c5ed5da6d8118);
    NextRound(b, 8, 0xd807aa98a3030242);
    NextRound(b, 9, 0x12835b0145706fbe);
    NextRound(b, 10, 0x243185be4ee4b28c);
    NextRound(b, 11, 0x550c7dc3d5ffb4e2);
    NextRound(b, 12, 0x72be5d74f27b896f);
    NextRound(b, 13, 0x80deb1fe3b1696b1);
    NextRound(b, 14, 0x9bdc06a725c71235);
    NextRound(b, 15, 0xc19bf174cf692694);
  }

  lemma Constants16()
    ensures |K512| == 80
    ensures K512[16] == 0xe49b69c19ef14ad2 && K512[17] == 0xefbe4786384f25e3
    ensures K512[18] == 0x0fc19dc68b8cd5b5 && K512[19] == 0x240ca1cc77ac9c65
    ensures K512[20] == 0x2de92c6f592b0275 && K512[21] == 0x4a7484aa6ea6e483
    ensures K512[22] == 0x5cb0a9dcbd41fbd4 && K512[23] == 0x76f988da831153b5
    ensures K512[24] == 0x983e5152ee66dfab && K512[25] == 0xa831c66d2db43210
    ensures K512[26] == 0xb00327c898fb213f && K512[27] == 0xbf597fc7beef0ee4
    ensures K512[28] == 0xc6e00bf33da88fc2 && K512[29] == 0xd5a79147930aa725
    ensures K512[30] == 0x06ca6351e003826f && K512[31] == 0x142929670a0e6e70
  {
  }

  lemma Rounds32(b: seq<Word>)
    requires |b| == 16
    requires Rounds(Start(), b, 16) == Regs(
        Word(0x0ae07c86b1181c75), Word(0xfa967eed85a08028), Word(0x44249631255d2ca0), Word(0x5e41214388186c14),
        Word(0xa77b7c035dd4c161), Word(0x874bfe5f6aae9f2f), Word(0x860acf9effba6f61), Word(0xcdf3bff2883fc9d9))
    requires Schedule(b, 0) == Word(0x6162638000000000) && Schedule(b, 1) == Word(0x0000000000000000)
    requires Schedule(b, 2) == Word(0x0000000000000000) && Schedule(b, 3) == Word(0x0000000000000000)
    requires Schedule(b, 4) == Word(0x0000000000000000) && Schedule(b, 5) == Word(0x0000000000000000)
    requires Schedule(b, 6) == Word(0x0000000000000000) && Schedule(b, 7) == Word(0x0000000000000000)
    requires Schedule(b, 8) == Word(0x0000000000000000) && Schedule(b, 9) == Word(0x0000000000000000)
    requires Schedule(b, 10) == Word(0x0000000000000000) && Schedule(b, 11) == Word(0x0000000000000000)
    requires Schedule(b, 12) == Word(0x0000000000000000) && Schedule(b, 13) == Word(0x0000000000000000)
    requires Schedule(b, 14) == Word(0x0000000000000000) && Schedule(b, 15) == Word(0x0000000000000018)
    ensures Rounds(Start(), b, 32) == Regs(
        Word(0xff4d3f1f0d46a736), Word(0x4c4fbbb75f1873a6), Word(0x74bf40f869094c63), Word(0xe62349090f47d30a),
        Word(0x3cd388e119e8162e), Word(0x73e025d91b9efea3), Word(0xf0aec2fe1437f085), Word(0x0fcdf99710f21584))
    ensures Schedule(b, 16) == Word(0x6162638000000000) && Schedule(b, 17) == Word(0x00030000000000c0)
    ensures Schedule(b, 18) == Word(0x0a9699a24c700003) && Schedule(b, 19) == Word(0x00000c0060000603)
    ensures Schedule(b, 20) == Word(0x549ef62639858996) && Schedule(b, 21) == Word(0x00c0003300003c00)
    ensures Schedule(b, 22) == Word(0x1497007a8a0e9dbc) && Schedule(b, 23) == Word(0x62e56500cc0780f0)
    ensures Schedule(b, 24) == Word(0x7760dd475a538797) && Schedule(b, 25) == Word(0xf1554b711c1c0003)
    ensures Schedule(b, 26) == Word(0xca2993a4345d9ff2) && Schedule(b, 27) == Word(0x5e0e66b5c783dd32)
    ensures Schedule(b, 28) == Word(0xe25a625d00494b62) && Schedule(b, 29) == Word(0x9f44486fb1e4fbd2)
    ensures Schedule(b, 30) == Word(0xb31b8c2b06085f2f) && Schedule(b, 31) == Word(0x0e987660934142f6)
  {
    hide Rounds, Schedule, Start;
    Constants16();
    NextRound(b, 16, 0xe49b69c19ef14ad2);
    NextRound(b, 17, 0xefbe4786384f25e3);
    NextRound(b, 18, 0x0fc19dc68b8cd5b5);
    NextRound(b, 19, 0x240ca1cc77ac9c65);
    NextRound(b, 20, 0x2de92c6f592b0275);
    NextRound(b, 21, 0x4a7484aa6ea6e483);
    NextRound(b, 22, 0x5cb0a9dcbd41fbd4);
    NextRound(b, 23, 0x76f988da831153b5);
    NextRound(b, 24, 0x983e5152ee66dfab);
    NextRound(b, 25, 0xa831c66d2db43210);
    NextRound(b, 26, 0xb00327c898fb213f);
    NextRound(b, 27, 0xbf597fc7beef0ee4);
    NextRound(b, 28, 0xc6e00bf33da88fc2);
    NextRound(b, 29, 0xd5a79147930aa725);
    NextRound(b, 30, 0x06ca6351e003826f);
    NextRound(b, 31, 0x142929670a0e6e70);
  }

  lemma Constants32()
    ensures |K512| == 80
    ensures K512[32] == 0x27b70a8546d22ffc && K512[33] == 0x2e1b21385c26c926
    ensures K512[34] == 0x4d2c6dfc5ac42aed && K512[35] == 0x53380d139d95b3df
    ensures K512[36] == 0x650a73548baf63de && K512[37] == 0x766a0abb3c77b2a8
    ensures K512[38] == 0x81c2c92e47edaee6 && K512[39] == 0x92722c851482353b
    ensures K512[40] == 0xa2bfe8a14cf10364 && K512[41] == 0xa81a664bbc423001
    ensures K512[42] == 0xc24b8b70d0f89791 && K512[43] == 0xc76c51a30654be30
    ensures K512[44] == 0xd192e819d6ef5218 && K512[45] == 0xd69906245565a910
    ensures K512[46] == 0xf40e35855771202a && K512[47] == 0x106aa07032bbd1b8
  {
  }

  lemma Rounds48(b: seq<Word>)
    requires |b| == 16
    requires Rounds(Start(), b, 32) == Regs(
        Word(0xff4d3f1f0d46a736), Word(0x4c4fbbb75f1873a6), Word(0x74bf40f869094c63), Word(0xe62349090f47d30a),
        Word(0x3cd388e119e8162e), Word(0x73e025d91b9efea3), Word(0xf0aec2fe1437f085), Word(0x0fcdf99710f21584))
    requires Schedule(b, 16) == Word(0x6162638000000000) && Schedule(b, 17) == Word(0x00030000000000c0)
    requires Schedule(b, 18) == Word(0x0a9699a24c700003) && Schedule(b, 19) == Word(0x00000c0060000603)
    requires Schedule(b, 20) == Word(0x549ef62639858996) && Schedule(b, 21) == Word(0x00c0003300003c00)
    requires Schedule(b, 22) == Word(0x1497007a8a0e9dbc) && Schedule(b, 23) == Word(0x62e56500cc0780f0)
    requires Schedule(b, 24) == Word(0x7760dd475a538797) && Schedule(b, 25) == Word(0xf1554b711c1c0003)
    requires Schedule(b, 26) == Word(0xca2993a4345d9ff2) && Schedule(b, 27) == Word(0x5e0e66b5c783dd32)
    requires Schedule(b, 28) == Word(0xe25a625d00494b62) && Schedule(b, 29) == Word(0x9f44486fb1e4fbd2)
    requires Schedule(b, 30) == Word(0xb31b8c2b06085f2f) && Schedule(b, 31) == Word(0x0e987660934142f6)
    ensures Rounds(Start(), b, 48) == Regs(
        Word(0x6b69fc1bb482feac), Word(0xf61e672694de2d67), Word(0x021fbadbabab5ac6), Word(0xc47c9d5c7ea8a234),
        Word(0x35264334c03ac8ad), Word(0xc6bc35740d8daa9a), Word(0xe95c2a57572d64d9), Word(0x858d832ae0e8911c))
    ensures Schedule(b, 32) == Word(0xa4af2cfd09fbb924) && Schedule(b, 33) == Word(0xad289e2e0bd53186)
    ensures Schedule(b, 34) == Word(0x3c74563aa2f9673e) && Schedule(b, 35) == Word(0x6ccdcd14cc14b53f)
    ensures Schedule(b, 36) == Word(0xc3f925b337f22bde) && Schedule(b, 37) == Word(0x5bcc77a75ad95b54)
    ensures Schedule(b, 38) == Word(0x3ec2257adca09a52) && Schedule(b, 39) == Word(0x28246960001fc5eb)
    ensures Schedule(b, 40) == Word(0x04e33a75ce2be88a) && Schedule(b, 41) == Word(0x7d5314b3c359e0e7)
    ensures Schedule(b, 42) == Word(0xaef7a285ff251266) && Schedule(b, 43) == Word(0x0b8472581deea04f)
    ensures Schedule(b, 44) == Word(0xb174e26eddc7b033) && Schedule(b, 45) == Word(0x5d63bae58ddd88de)
    ensures Schedule(b, 46) == Word(0x4c044007b744ccbb) && Schedule(b, 47) == Word(0xe6a9aa4d74dc7d43)
  {
    hide Rounds, Schedule, Start;
    Constants32();
    NextRound(b, 32, 0x27b70a8546d22ffc);
    NextRound(b, 33, 0x2e1b21385c26c926);
    NextRound(b, 34, 0x4d2c6dfc5ac42aed);
    NextRound(b, 35, 0x53380d139d95b3df);
    NextRound(b, 36, 0x650a73548baf63de);
    NextRound(b, 37, 0x766a0abb3c77b2a8);
    NextRound(b, 38, 0x81c2c92e47edaee6);
    NextRound(b, 39, 0x92722c851482353b);
    NextRound(b, 40, 0xa2bfe8a14cf10364);
    NextRound(b, 41, 0xa81a664bbc423001);
    NextRound(b, 42, 0xc24b8b70d0f89791);
    NextRound(b, 43, 0xc76c51a30654be30);
    NextRound(b, 44, 0xd192e819d6ef5218);
    NextRound(b, 45, 0xd69906245565a910);
    NextRound(b, 46, 0xf40e35855771202a);
    NextRound(b, 47, 0x106aa07032bbd1b8);
  }

  lemma Constants48()
    ensures |K512| == 80
    ensures K512[48] == 0x19a4c116b8d2d0c8 && K512[49] == 0x1e376c085141ab53
    ensures K512[50] == 0x2748774cdf8eeb99 && K512[51] == 0x34b0bcb5e19b48a8
    ensures K512[52] == 0x391c0cb3c5c95a63 && K512[53] == 0x4ed8aa4ae3418acb
    ensures K512[54] == 0x5b9cca4f7763e373 && K512[55] == 0x682e6ff3d6b2b8a3
    ensures K512[56] == 0x748f82ee5defb2fc && K512[57] == 0x78a5636f43172f60
    ensures K512[58] == 0x84c87814a1f0ab72 && K512[59] == 0x8cc702081a6439ec
    ensures K512[60] == 0x90befffa23631e28 && K512[61] == 0xa4506cebde82bde9
    ensures K512[62] == 0xbef9a3f7b2c67915 && K512[63] == 0xc67178f2e372532b
  {
  }

  lemma Rounds64(b: seq<Word>)
    requires |b| == 16
    requires Rounds(Start(), b, 48) == Regs(
        Word(0x6b69fc1bb482feac), Word(0xf61e672694de2d67), Word(0x021fbadbabab5ac6), Word(0xc47c9d5c7ea8a234),
        Word(0x35264334c03ac8ad), Word(0xc6bc35740d8daa9a), Word(0xe95c2a57572d64d9), Word(0x858d832ae0e8911c))
    requires Schedule(b, 32) == Word(0xa4af2cfd09fbb924) && Schedule(b, 33) == Word(0xad289e2e0bd53186)
    requires Schedule(b, 34) == Word(0x3c74563aa2f9673e) && Schedule(b, 35) == Word(0x6ccdcd14cc14b53f)
    requires Schedule(b, 36) == Word(0xc3f925b337f22bde) && Schedule(b, 37) == Word(0x5bcc77a75ad95b54)
    requires Schedule(b, 38) == Word(0x3ec2257adca09a52) && Schedule(b, 39) == Word(0x28246960001fc5eb)
    requires Schedule(b, 40) == Word(0x04e33a75ce2be88a) && Schedule(b, 41) == Word(0x7d5314b3c359e0e7)
    requires Schedule(b, 42) == Word(0xaef7a285ff251266) && Schedule(b, 43) == Word(0x0b8472581deea04f)
    requires Schedule(b, 44) == Word(0xb174e26eddc7b033) && Schedule(b, 45) == Word(0x5d63bae58ddd88de)
    requires Schedule(b, 46) == Word(0x4c044007b744ccbb) && Schedule(b, 47) == Word(0xe6a9aa4d74dc7d43)
    ensures Rounds(Start(), b, 64) == Regs(
        Word(0xab44e86276478d85), Word(0xa81dedbb9f19e643), Word(0xcfcd928c5424e2b6), Word(0x3857dfd2fc37d3ba),
        Word(0xcd881ee59ca6bc53), Word(0x84058865d60a05fa), Word(0x09aee5bda1644de5), Word(0xa6af4e9c9f807e51))
    ensures Schedule(b, 48) == Word(0xebeaf1237248019c) && Schedule(b, 49) == Word(0x361e80b2d00f3193)
    ensures Schedule(b, 50) == Word(0x2e9839125df3b175) && Schedule(b, 51) == Word(0x3319629293ad5363)
    ensures Schedule(b, 52) == Word(0x9cbc5d89ac1b89d5) && Schedule(b, 53) == Word(0x275e23ffeeca50b7)
    ensures Schedule(b, 54) == Word(0x3b80d680bf69ef58) && Schedule(b, 55) == Word(0x0d0696933945a125)
    ensures Schedule(b, 56) == Word(0x7533eabcb786ff00) && Schedule(b, 57) == Word(0xb89826cee6fbf0e5)
    ensures Schedule(b, 58) == Word(0x249b4fbcad623e9f) && Schedule(b, 59) == Word(0x4aea9df2b02d6f1e)
    ensures Schedule(b, 60) == Word(0x2cc57475a55e8d8f) && Schedule(b, 61) == Word(0xb2574ae938d8be89)
    ensures Schedule(b, 62) == Word(0xc1b35a57b16d6aea) && Schedule(b, 63) == Word(0xcc4918b5949206bb)
  {
    hide Rounds, Schedule, Start;
    Constants48();
    NextRound(b, 48, 0x19a4c116b8d2d0c8);
    NextRound(b, 49, 0x1e376c085141ab53);
    NextRound(b, 50, 0x2748774cdf8eeb99);
    NextRound(b, 51, 0x34b0bcb5e19b48a8);
    NextRound(b, 52, 0x391c0cb3c5c95a63);
    NextRound(b, 53, 0x4ed8aa4ae3418acb);
    NextRound(b, 54, 0x5b9cca4f7763e373);
    NextRound(b, 55, 0x682e6ff3d6b2b8a3);
    NextRound(b, 56, 0x748f82ee5defb2fc);
    NextRound(b, 57, 0x78a5636f43172f60);
    NextRound(b, 58, 0x84c87814a1f0ab72);
    NextRound(b, 59, 0x8cc702081a6439ec);
    NextRound(b, 60, 0x90befffa23631e28);
    NextRound(b, 61, 0xa4506cebde82bde9);
    NextRound(b, 62, 0xbef9a3f7b2c67915);
    NextRound(b, 63, 0xc67178f2e372532b);
  }

  lemma Constants64()
    ensures |K512| == 80
    ensures K512[64] == 0xca273eceea26619c && K512[65] == 0xd186b8c721c0c207
    ensures K512[66] == 0xeada7dd6cde0eb1e && K512[67] == 0xf57d4f7fee6ed178
    ensures K512[68] == 0x06f067aa72176fba && K512[69] == 0x0a637dc5a2c898a6
    ensures K512[70] == 0x113f9804bef90dae && K512[71] == 0x1b710b35131c471b
    ensures K512[72] == 0x28db77f523047d84 && K512[73] == 0x32caab7b40c72493
    ensures K512[74] == 0x3c9ebe0a15c9bebc && K512[75] == 0x431d67c49c100d4c
    ensures K512[76] == 0x4cc5d4becb3e42b6 && K512[77] == 0x597f299cfc657e2a
    ensures K512[78] == 0x5fcb6fab3ad6faec && K512[79] == 0x6c44198c4a475817
  {
  }

  lemma Rounds80(b: seq<Word>)
    requires |b| == 16
    requires Rounds(Start(), b, 64) == Regs(
        Word(0xab44e86276478d85), Word(0xa81dedbb9f19e643), Word(0xcfcd928c5424e2b6), Word(0x3857dfd2fc37d3ba),
        Word(0xcd881ee59ca6bc53), Word(0x84058865d60a05fa), Word(0x09aee5bda1644de5), Word(0xa6af4e9c9f807e51))
    requires Schedule(b, 48) == Word(0xebeaf1237248019c) && Schedule(b, 49) == Word(0x361e80b2d00f3193)
    requires Schedule(b, 50) == Word(0x2e9839125df3b175) && Schedule(b, 51) == Word(0x3319629293ad5363)
    requires Schedule(b, 52) == Word(0x9cbc5d89ac1b89d5) && Schedule(b, 53) == Word(0x275e23ffeeca50b7)
    requires Schedule(b, 54) == Word(0x3b80d680bf69ef58) && Schedule(b, 55) == Word(0x0d0696933945a125)
    requires Schedule(b, 56) == Word(0x7533eabcb786ff00) && Schedule(b, 57) == Word(0xb89826cee6fbf0e5)
    requires Schedule(b, 58) == Word(0x249b4fbcad623e9f) && Schedule(b, 59) == Word(0x4aea9df2b02d6f1e)
    requires Schedule(b, 60) == Word(0x2cc57475a55e8d8f) && Schedule(b, 61) == Word(0xb2574ae938d8be89)
    requires Schedule(b, 62) == Word(0xc1b35a57b16d6aea) && Schedule(b, 63) == Word(0xcc4918b5949206bb)
    ensures Rounds(Start(), b, 80) == Regs(
        Word(0x73a54f399fa4b1b2), Word(0x10d9c4c4295599f6), Word(0xd67806db8b148677), Word(0x654ef9abec389ca9),
        Word(0xd08446aa79693ed7), Word(0x9bb4d39778c07f9e), Word(0x25c96a7768fb2aa3), Word(0xceb9fc3691ce8326))
    ensures Schedule(b, 64) == Word(0x5099c3add79f90ec) && Schedule(b, 65) == Word(0x5ea81d78e7660bf1)
    ensures Schedule(b, 66) == Word(0xebee6267405ac2a9) && Schedule(b, 67) == Word(0xb01f21926108a4ab)
    ensures Schedule(b, 68) == Word(0x786433dd2fe65556) && Schedule(b, 69) == Word(0xc54a6eaa24a0552c)
    ensures Schedule(b, 70) == Word(0xb3c8f1530bdbaa9e) && Schedule(b, 71) == Word(0xbb8abfe56f469338)
    ensures Schedule(b, 72) == Word(0xf63d4265cc1c5a78) && Schedule(b, 73) == Word(0xbe8355ea73129afb)
    ensures Schedule(b, 74) == Word(0x49e2db8ebdcfbeb5) && Schedule(b, 75) == Word(0x82269d4a883a3d99)
    ensures Schedule(b, 76) == Word(0xfdf53df3011f362b) && Schedule(b, 77) == Word(0x464af5671d71c12e)
    ensures Schedule(b, 78) == Word(0xe449b68198ec611c) && Schedule(b, 79) == Word(0x92aeeed1a7bcf7d2)
  {
    hide Rounds, Schedule, Start;
    Constants64();
    NextRound(b, 64, 0xca273eceea26619c);
    NextRound(b, 65, 0xd186b8c721c0c207);
    NextRound(b, 66, 0xeada7dd6cde0eb1e);
    NextRound(b, 67, 0xf57d4f7fee6ed178);
    NextRound(b, 68, 0x06f067aa72176fba);
    NextRound(b, 69, 0x0a637dc5a2c898a6);
    NextRound(b, 70, 0x113f9804bef90dae);
    NextRound(b, 71, 0x1b710b35131c471b);
    NextRound(b, 72, 0x28db77f523047d84);
    NextRound(b, 73, 0x32caab7b40c72493);
    NextRound(b, 74, 0x3c9ebe0a15c9bebc);
    NextRound(b, 75, 0x431d67c49c100d4c);
    NextRound(b, 76, 0x4cc5d4becb3e42b6);
    NextRound(b, 77, 0x597f299cfc657e2a);
    NextRound(b, 78, 0x5fcb6fab3ad6faec);
    NextRound(b, 79, 0x6c44198c4a475817);
  }

  lemma StateOfABC()
    ensures |Pad(ABC)| == 128
    ensures Compress(INITIAL, Pad(ABC)) == [
    Word(0xddaf35a193617aba), Word(0xcc417349ae204131), Word(0x12e6fa4e89a97ea2), Word(0x0a9eeee64b55d39a),
    Word(0x2192992a274fc1a8), Word(0x36ba3c23a3feebbd), Word(0x454d4423643ce80e), Word(0x2a9ac94fa54ca49f)]
  {
    hide Rounds, Schedule, Pad, Start, BlockWords;
    WordsOfABC();
    var b := BlockWords(Pad(ABC));
    ScheduleStart(b);
    RoundsStart(b);
    Rounds16(b);
    Rounds32(b);
    Rounds48(b);
    Rounds64(b);
    Rounds80(b);
    AddedUp(b);
  }

  lemma ScheduleStart(b: seq<Word>)
    requires |b| == 16
    ensures forall t :: 0 <= t < 16 ==> Schedule(b, t) == b[t]
  {
  }

  lemma RoundsStart(b: seq<Word>)
    requires |b| == 16
    ensures Rounds(Start(), b, 0) == Regs(
        Word(0x6a09e667f3bcc908), Word(0xbb67ae8584caa73b), Word(0x3c6ef372fe94f82b), Word(0xa54ff53a5f1d36f1),
        Word(0x510e527fade682d1), Word(0x9b05688c2b3e6c1f), Word(0x1f83d9abfb41bd6b), Word(0x5be0cd19137e2179))
  {
  }

  lemma AddedUp(b: seq<Word>)
    requires |b| == 16
    requires Rounds(Start(), b, 80) == Regs(
        Word(0x73a54f399fa4b1b2), Word(0x10d9c4c4295599f6), Word(0xd67806db8b148677), Word(0x654ef9abec389ca9),
        Word(0xd08446aa79693ed7), Word(0x9bb4d39778c07f9e), Word(0x25c96a7768fb2aa3), Word(0xceb9fc3691ce8326))
    ensures CompressWords(INITIAL, b) == [
    Word(0xddaf35a193617aba), Word(0xcc417349ae204131), Word(0x12e6fa4e89a97ea2), Word(0x0a9eeee64b55d39a),
    Word(0x2192992a274fc1a8), Word(0x36ba3c23a3feebbd), Word(0x454d4423643ce80e), Word(0x2a9ac94fa54ca49f)]
  {
    hide Rounds;
  }
}
