/** The block function of SHA-512: a rolling schedule of 16 words and registers that change names instead
    of places, against section 6.4.2 of FIPS 180-4.
 */
module Sha512Block {
  import opened Bytes
  import opened Powers
  import opened Sha512Words

  /** The numbers of 64 bits. */
  type U64 = v: int | 0 <= v < 0x1_0000_0000_0000_0000 witness 0

  // Words in memory

  /** The number stored in eight bytes, the most significant first. */
  function LoadBE(s: seq<Byte>): (v: U64)
    requires |s| == 8
  {
    ValueBound(s);
    TwoSixtyFour();
    Value(s)
  }

  function StoreBE(v: int): (s: seq<Byte>)
    ensures |s| == 8
  {
    BytesOf(v, 8)
  }

  lemma TwoSixtyFour()
    ensures Two(64) == 0x1_0000_0000_0000_0000
  {
    TwoThirtyTwo();
    TwoAdd(32, 32);
  }

  /** Byte `j` holds the eight bits from `8 (7 - j)` on; loading undoes storing, and the other way round. */
  lemma StoredBytes(v: U64, s: seq<Byte>)
    requires |s| == 8
    ensures forall j :: 0 <= j < 8 ==> StoreBE(v)[j] == v / Two(8 * (7 - j)) % 256
    ensures LoadBE(StoreBE(v)) == v && StoreBE(LoadBE(s)) == s
  {
    hide Two, BytesOf, Value;
    TwoSixtyFour();
    forall j | 0 <= j < 8 ensures StoreBE(v)[j] == v / Two(8 * (7 - j)) % 256 {
      ByteAt(v, 8, 7 - j);
    }
    ValueOfBytes(v, 8);
    BytesOfValue(s);
  }

  function StoreWord(w: Word): (s: seq<Byte>)
    ensures |s| == 8
  {
    StoreBE(w.bits as int)
  }

  function WordAt(b: seq<Byte>, i: nat): Word
    requires |b| == 128 && i < 16
  {
    Word(LoadBE(b[8 * i..8 * i + 8]) as bv64)
  }

  /** The sixteen words of a block of bytes. */
  function BlockWords(b: seq<Byte>): (w: seq<Word>)
    requires |b| == 128
    ensures |w| == 16
  {
    seq(16, i requires 0 <= i < 16 => WordAt(b, i))
  }

  /** The round constants, in rows of sixteen. */
  const ROW0: seq<bv64> := [
    0x428a_2f98_d728_ae22, 0x7137_4491_23ef_65cd, 0xb5c0_fbcf_ec4d_3b2f, 0xe9b5_dba5_8189_dbbc,
    0x3956_c25b_f348_b538, 0x59f1_11f1_b605_d019, 0x923f_82a4_af19_4f9b, 0xab1c_5ed5_da6d_8118,
    0xd807_aa98_a303_0242, 0x1283_5b01_4570_6fbe, 0x2431_85be_4ee4_b28c, 0x550c_7dc3_d5ff_b4e2,
    0x72be_5d74_f27b_896f, 0x80de_b1fe_3b16_96b1, 0x9bdc_06a7_25c7_1235, 0xc19b_f174_cf69_2694]

  const ROW1: seq<bv64> := [
    0xe49b_69c1_9ef1_4ad2, 0xefbe_4786_384f_25e3, 0x0fc1_9dc6_8b8c_d5b5, 0x240c_a1cc_77ac_9c65,
    0x2de9_2c6f_592b_0275, 0x4a74_84aa_6ea6_e483, 0x5cb0_a9dc_bd41_fbd4, 0x76f9_88da_8311_53b5,
    0x983e_5152_ee66_dfab, 0xa831_c66d_2db4_3210, 0xb003_27c8_98fb_213f, 0xbf59_7fc7_beef_0ee4,
    0xc6e0_0bf3_3da8_8fc2, 0xd5a7_9147_930a_a725, 0x06ca_6351_e003_826f, 0x1429_2967_0a0e_6e70]

  const ROW2: seq<bv64> := [
    0x27b7_0a85_46d2_2ffc, 0x2e1b_2138_5c26_c926, 0x4d2c_6dfc_5ac4_2aed, 0x5338_0d13_9d95_b3df,
    0x650a_7354_8baf_63de, 0x766a_0abb_3c77_b2a8, 0x81c2_c92e_47ed_aee6, 0x9272_2c85_1482_353b,
    0xa2bf_e8a1_4cf1_0364, 0xa81a_664b_bc42_3001, 0xc24b_8b70_d0f8_9791, 0xc76c_51a3_0654_be30,
    0xd192_e819_d6ef_5218, 0xd699_0624_5565_a910, 0xf40e_3585_5771_202a, 0x106a_a070_32bb_d1b8]

  const ROW3: seq<bv64> := [
    0x19a4_c116_b8d2_d0c8, 0x1e37_6c08_5141_ab53, 0x2748_774c_df8e_eb99, 0x34b0_bcb5_e19b_48a8,
    0x391c_0cb3_c5c9_5a63, 0x4ed8_aa4a_e341_8acb, 0x5b9c_ca4f_7763_e373, 0x682e_6ff3_d6b2_b8a3,
    0x748f_82ee_5def_b2fc, 0x78a5_636f_4317_2f60, 0x84c8_7814_a1f0_ab72, 0x8cc7_0208_1a64_39ec,
    0x90be_fffa_2363_1e28, 0xa450_6ceb_de82_bde9, 0xbef9_a3f7_b2c6_7915, 0xc671_78f2_e372_532b]

  const ROW4: seq<bv64> := [
    0xca27_3ece_ea26_619c, 0xd186_b8c7_21c0_c207, 0xeada_7dd6_cde0_eb1e, 0xf57d_4f7f_ee6e_d178,
    0x06f0_67aa_7217_6fba, 0x0a63_7dc5_a2c8_98a6, 0x113f_9804_bef9_0dae, 0x1b71_0b35_131c_471b,
    0x28db_77f5_2304_7d84, 0x32ca_ab7b_40c7_2493, 0x3c9e_be0a_15c9_bebc, 0x431d_67c4_9c10_0d4c,
    0x4cc5_d4be_cb3e_42b6, 0x597f_299c_fc65_7e2a, 0x5fcb_6fab_3ad6_faec, 0x6c44_198c_4a47_5817]

  const K512: seq<bv64> := ROW0 + ROW1 + ROW2 + ROW3 + ROW4

  lemma ConstantCount()
    ensures |K512| == 80
  {
  }

  // The specification

  datatype Regs = Regs(a: Word, b: Word, c: Word, d: Word, e: Word, f: Word, g: Word, h: Word)

  /** One round with its constant `k` and schedule word `w`. */
  function Step(r: Regs, k: bv64, w: Word): Regs {
    var t1, t2 := T1(r.h, r.e, r.f, r.g, k, w), T2(r.a, r.b, r.c);
    Regs(Sum(t1, t2), r.a, r.b, r.c, Sum(r.d, t1), r.e, r.f, r.g)
  }

  /** Word `t` of the message schedule of a block of 16 words. */
  function Schedule(block: seq<Word>, t: nat): Word
    requires |block| == 16
  {
    if t < 16 then block[t]
    else Scheduled(Schedule(block, t - 2), Schedule(block, t - 7), Schedule(block, t - 15), Schedule(block, t - 16))
  }

  function Rounds(r: Regs, block: seq<Word>, t: nat): Regs
    requires |block| == 16 && t <= 80
  {
    ConstantCount();
    if t == 0 then r else Step(Rounds(r, block, t - 1), K512[t - 1], Schedule(block, t - 1))
  }

  function FromState(h: seq<Word>): Regs
    requires |h| == 8
  {
    Regs(h[0], h[1], h[2], h[3], h[4], h[5], h[6], h[7])
  }

  function AddState(r: Regs, h: seq<Word>): (s: seq<Word>)
    requires |h| == 8
    ensures |s| == 8
  {
    [Sum(r.a, h[0]), Sum(r.b, h[1]), Sum(r.c, h[2]), Sum(r.d, h[3]),
     Sum(r.e, h[4]), Sum(r.f, h[5]), Sum(r.g, h[6]), Sum(r.h, h[7])]
  }

  /** The hash value after one more block of 16 words. */
  function CompressWords(h: seq<Word>, block: seq<Word>): (s: seq<Word>)
    requires |h| == 8 && |block| == 16
    ensures |s| == 8
  {
    AddState(Rounds(FromState(h), block, 80), h)
  }

  // Rounds

  /** The new values of `d` and `h`; the other registers take their new roles by renaming. */
  method Round(i: nat, w: Word, a: Word, b: Word, c: Word, d: Word, e: Word, f: Word, g: Word, h: Word,
               ghost block: seq<Word>, ghost start: Regs)
    returns (d': Word, h': Word)
    requires |block| == 16 && i < 80 && w == Schedule(block, i)
    requires Regs(a, b, c, d, e, f, g, h) == Rounds(start, block, i)
    ensures Regs(h', a, b, c, d', e, f, g) == Rounds(start, block, i + 1)
  {
    hide K512, Schedule, T1, T2, Sum, CodeT1;
    ConstantCount();
    var t1 := CodeT1(h, e, f, g, K512[i], w);
    T1InOrder(h, e, f, g, K512[i], w);
    h' := T2(a, b, c);
    d' := Sum(d, t1);
    h' := Sum(h', t1);
    SumCommutes(t1, T2(a, b, c));
  }

  // The rolling schedule

  /** `x` holds the sixteen schedule words before `t`, each at its index modulo 16. */
  ghost predicate Rolling(x: array<Word>, block: seq<Word>, t: nat)
    requires |block| == 16
    reads x
  {
    x.Length == 16 && forall k: nat :: k < t <= k + 16 ==> x[k % 16] == Schedule(block, k)
  }

  /** The first 16 words are those of the block. */
  method LoadStep(x: array<Word>, j: nat, bytes: seq<Byte>) returns (w: Word)
    requires |bytes| == 128 && j < 16 && Rolling(x, BlockWords(bytes), j)
    modifies x
    ensures w == Schedule(BlockWords(bytes), j) && Rolling(x, BlockWords(bytes), j + 1)
  {
    hide WordAt;
    w := WordAt(bytes, j);
    x[j] := w;
  }

  /** `X[j] += s0 + s1 + X[j + 9]`, with indices modulo 16: word `i + j` of the schedule. */
  method ScheduleStep(x: array<Word>, j: nat, ghost block: seq<Word>, ghost i: nat) returns (w: Word)
    requires |block| == 16 && Rolling(x, block, i + j) && 16 <= i && i % 16 == 0 && j < 16
    modifies x
    ensures w == Schedule(block, i + j) && Rolling(x, block, i + j + 1)
  {
    hide Scheduled, CodeScheduled;
    ghost var t := i + j;
    Residues(i, j);
    var s0 := x[(j + 1) % 16];
    var s1 := x[(j + 14) % 16];
    assert s0 == Schedule(block, t - 15) && s1 == Schedule(block, t - 2);
    assert x[(j + 9) % 16] == Schedule(block, t - 7) && x[j] == Schedule(block, t - 16);
    ghost var before := x[..];
    w := CodeScheduled(x[j], s0, s1, x[(j + 9) % 16]);
    ScheduledInOrder(s1, x[(j + 9) % 16], s0, x[j]);
    x[j] := w;
    assert w == Schedule(block, t);
    forall k: nat | k < t + 1 <= k + 16 ensures x[k % 16] == Schedule(block, k) {
      if k < t {
        OtherResidue(k, t);
        assert before[k % 16] == Schedule(block, k);
      }
    }
  }

  lemma Residues(i: nat, j: nat)
    requires i % 16 == 0 && i >= 16 && j < 16
    ensures (j + 1) % 16 == (i + j - 15) % 16 && (j + 14) % 16 == (i + j - 2) % 16
    ensures (j + 9) % 16 == (i + j - 7) % 16 && j == (i + j - 16) % 16 && (i + j) % 16 == j
  {
    ResidueOf(i, j);
    ResidueOf(i, j + 1);
    ResidueOf(i, j + 14);
    ResidueOf(i, j + 9);
  }

  lemma ResidueOf(i: nat, j: nat)
    requires i % 16 == 0 && i >= 16
    ensures (i + j - 16) % 16 == j % 16 && (i + j) % 16 == j % 16
  {
  }

  lemma OtherResidue(k: nat, t: nat)
    requires k < t < k + 16
    ensures k % 16 != t % 16
  {
  }

  lemma RollingStart(x: array<Word>, block: seq<Word>)
    requires |block| == 16 && x.Length == 16
    ensures Rolling(x, block, 0)
  {
  }

  /** The first sixteen rounds, on the words of the block. */
  method FirstRounds(bytes: seq<Byte>, x: array<Word>, r: Regs) returns (r': Regs)
    requires |bytes| == 128 && x.Length == 16
    modifies x
    ensures Rolling(x, BlockWords(bytes), 16) && r' == Rounds(r, BlockWords(bytes), 16)
  {
    hide WordAt, Rounds, Schedule, Rolling;
    var a, b, c, d, e, f, g, h := r.a, r.b, r.c, r.d, r.e, r.f, r.g, r.h;
    var t1: Word;
    ghost var block, start := BlockWords(bytes), r;
    RollingStart(x, block);
    NoRounds(start, block);
    t1 := LoadStep(x, 0, bytes);
    d, h := Round(0, t1, a, b, c, d, e, f, g, h, block, start);
    t1 := LoadStep(x, 1, bytes);
    c, g := Round(1, t1, h, a, b, c, d, e, f, g, block, start);
    t1 := LoadStep(x, 2, bytes);
    b, f := Round(2, t1, g, h, a, b, c, d, e, f, block, start);
    t1 := LoadStep(x, 3, bytes);
    a, e := Round(3, t1, f, g, h, a, b, c, d, e, block, start);
    t1 := LoadStep(x, 4, bytes);
    h, d := Round(4, t1, e, f, g, h, a, b, c, d, block, start);
    t1 := LoadStep(x, 5, bytes);
    g, c := Round(5, t1, d, e, f, g, h, a, b, c, block, start);
    t1 := LoadStep(x, 6, bytes);
    f, b := Round(6, t1, c, d, e, f, g, h, a, b, block, start);
    t1 := LoadStep(x, 7, bytes);
    e, a := Round(7, t1, b, c, d, e, f, g, h, a, block, start);
    t1 := LoadStep(x, 8, bytes);
    d, h := Round(8, t1, a, b, c, d, e, f, g, h, block, start);
    t1 := LoadStep(x, 9, bytes);
    c, g := Round(9, t1, h, a, b, c, d, e, f, g, block, start);
    t1 := LoadStep(x, 10, bytes);
    b, f := Round(10, t1, g, h, a, b, c, d, e, f, block, start);
    t1 := LoadStep(x, 11, bytes);
    a, e := Round(11, t1, f, g, h, a, b, c, d, e, block, start);
    t1 := LoadStep(x, 12, bytes);
    h, d := Round(12, t1, e, f, g, h, a, b, c, d, block, start);
    t1 := LoadStep(x, 13, bytes);
    g, c := Round(13, t1, d, e, f, g, h, a, b, c, block, start);
    t1 := LoadStep(x, 14, bytes);
    f, b := Round(14, t1, c, d, e, f, g, h, a, b, block, start);
    t1 := LoadStep(x, 15, bytes);
    e, a := Round(15, t1, b, c, d, e, f, g, h, a, block, start);
    r' := Regs(a, b, c, d, e, f, g, h);
  }

  lemma NoRounds(start: Regs, block: seq<Word>)
    requires |block| == 16
    ensures Rounds(start, block, 0) == start
  {
  }

  /** The sixteen rounds from round `i` on, their schedule words computed on the way. */
  method ScheduledRounds(i: nat, x: array<Word>, r: Regs, ghost block: seq<Word>, ghost start: Regs) returns (r': Regs)
    requires |block| == 16 && 16 <= i <= 64 && i % 16 == 0 && Rolling(x, block, i)
    requires r == Rounds(start, block, i)
    modifies x
    ensures Rolling(x, block, i + 16) && r' == Rounds(start, block, i + 16)
  {
    hide Rounds, Schedule, Rolling;
    r' := EightRounds(i, 0, x, r, block, start);
    r' := EightRounds(i, 8, x, r', block, start);
  }

  /** Eight of them, after which every register has its name again. */
  method EightRounds(i: nat, j: nat, x: array<Word>, r: Regs, ghost block: seq<Word>, ghost start: Regs)
    returns (r': Regs)
    requires |block| == 16 && 16 <= i <= 64 && i % 16 == 0 && j <= 8 && Rolling(x, block, i + j)
    requires r == Rounds(start, block, i + j)
    modifies x
    ensures Rolling(x, block, i + j + 8) && r' == Rounds(start, block, i + j + 8)
  {
    hide Rounds, Schedule, Rolling;
    var a, b, c, d, e, f, g, h := r.a, r.b, r.c, r.d, r.e, r.f, r.g, r.h;
    var t1: Word;
    t1 := ScheduleStep(x, j + 0, block, i);
    d, h := Round(i + (j + 0), t1, a, b, c, d, e, f, g, h, block, start);
    t1 := ScheduleStep(x, j + 1, block, i);
    c, g := Round(i + (j + 1), t1, h, a, b, c, d, e, f, g, block, start);
    t1 := ScheduleStep(x, j + 2, block, i);
    b, f := Round(i + (j + 2), t1, g, h, a, b, c, d, e, f, block, start);
    t1 := ScheduleStep(x, j + 3, block, i);
    a, e := Round(i + (j + 3), t1, f, g, h, a, b, c, d, e, block, start);
    t1 := ScheduleStep(x, j + 4, block, i);
    h, d := Round(i + (j + 4), t1, e, f, g, h, a, b, c, d, block, start);
    t1 := ScheduleStep(x, j + 5, block, i);
    g, c := Round(i + (j + 5), t1, d, e, f, g, h, a, b, c, block, start);
    t1 := ScheduleStep(x, j + 6, block, i);
    f, b := Round(i + (j + 6), t1, c, d, e, f, g, h, a, b, block, start);
    t1 := ScheduleStep(x, j + 7, block, i);
    e, a := Round(i + (j + 7), t1, b, c, d, e, f, g, h, a, block, start);
    r' := Regs(a, b, c, d, e, f, g, h);
  }

  // Blocks

  function Compress(h: seq<Word>, b: seq<Byte>): (s: seq<Word>)
    requires |h| == 8 && |b| == 128
    ensures |s| == 8
  {
    CompressWords(h, BlockWords(b))
  }

  /** The hash value after all full blocks of `m`. */
  function Blocks(h: seq<Word>, m: seq<Byte>): (s: seq<Word>)
    requires |h| == 8
    ensures |s| == 8
    decreases |m|
  {
    if |m| < 128 then h else Blocks(Compress(h, m[..128]), m[128..])
  }

  /** One block into the state. */
  method OneBlock(state: array<Word>, bytes: seq<Byte>, x: array<Word>)
    requires state.Length == 8 && |bytes| == 128 && x.Length == 16 && x != state
    modifies state, x
    ensures state[..] == Compress(old(state[..]), bytes)
  {
    hide Rounds, Rolling, BlockWords, Sum;
    ghost var before := state[..];
    var start := Regs(state[0], state[1], state[2], state[3], state[4], state[5], state[6], state[7]);
    assert start == FromState(before);
    var r := FirstRounds(bytes, x, start);
    var i := 16;
    while i < 80
      invariant 16 <= i <= 80 && i % 16 == 0
      invariant Rolling(x, BlockWords(bytes), i) && r == Rounds(start, BlockWords(bytes), i)
      invariant state[..] == before
      decreases 80 - i
    {
      r := ScheduledRounds(i, x, r, BlockWords(bytes), start);
      i := i + 16;
    }
    AddRegs(state, r);
  }

  /** `state[0] += a` and so on. */
  method AddRegs(state: array<Word>, r: Regs)
    requires state.Length == 8
    modifies state
    ensures state[..] == AddState(r, old(state[..]))
  {
    hide Sum;
    state[0] := Sum(r.a, state[0]);
    state[1] := Sum(r.b, state[1]);
    state[2] := Sum(r.c, state[2]);
    state[3] := Sum(r.d, state[3]);
    state[4] := Sum(r.e, state[4]);
    state[5] := Sum(r.f, state[5]);
    state[6] := Sum(r.g, state[6]);
    state[7] := Sum(r.h, state[7]);
  }

  /** `num` blocks from the front of `bytes` into the state. */
  method BlockDataOrder(state: array<Word>, bytes: seq<Byte>, num: nat)
    requires state.Length == 8 && 128 * num <= |bytes|
    modifies state
    ensures state[..] == Blocks(old(state[..]), bytes[..128 * num])
  {
    hide Compress;
    var x := new Word[16](_ => Word(0));
    var rest, n := bytes, num;
    while n > 0
      invariant 0 <= n <= num && 128 * n <= |rest|
      invariant Blocks(state[..], rest[..128 * n]) == Blocks(old(state[..]), bytes[..128 * num])
      decreases n
    {
      assert rest[..128 * n][..128] == rest[..128] && rest[..128 * n][128..] == rest[128..][..128 * (n - 1)];
      OneBlock(state, rest[..128], x);
      rest, n := rest[128..], n - 1;
    }
  }

  /** Full blocks may be hashed ahead. */
  lemma {:induction false} BlocksAppend(h: seq<Word>, m: seq<Byte>, tail: seq<Byte>)
    requires |h| == 8 && |m| % 128 == 0
    ensures Blocks(h, m + tail) == Blocks(Blocks(h, m), tail)
    decreases |m|
  {
    hide Compress;
    if |m| == 0 {
      assert m + tail == tail;
    } else {
      assert (m + tail)[..128] == m[..128] && (m + tail)[128..] == m[128..] + tail;
      BlocksAppend(Compress(h, m[..128]), m[128..], tail);
    }
  }

  /** Only full blocks count. */
  lemma {:induction false} BlocksFloor(h: seq<Word>, m: seq<Byte>)
    requires |h| == 8
    ensures Blocks(h, m) == Blocks(h, m[..|m| - |m| % 128])
    decreases |m|
  {
    hide Compress;
    if |m| >= 128 {
      var n := |m| - |m| % 128;
      assert m[..n][..128] == m[..128] && m[128..][..n - 128] == m[..n][128..];
      BlocksFloor(Compress(h, m[..128]), m[128..]);
    }
  }
}
