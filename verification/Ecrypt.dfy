/** djb/salsa20.c: the reference cipher, block by block with a 64-bit counter among its input words. */
module Ecrypt {
  import opened Words
  import opened ModArith
  import opened Bytes
  import opened Salsa20

  // A block of output

  /** The first sixteen lines of the loop, which work on the columns. */
  method Columns(x: array<Limb>)
    requires x.Length == 16
    modifies x
    ensures x[..] == ColumnRound(old(x[..]))
  {
    hide Mix;
    MixStep(x, 4, 0, 12, 7);
    MixStep(x, 8, 4, 0, 9);
    MixStep(x, 12, 8, 4, 13);
    MixStep(x, 0, 12, 8, 18);
    MixStep(x, 9, 5, 1, 7);
    MixStep(x, 13, 9, 5, 9);
    MixStep(x, 1, 13, 9, 13);
    MixStep(x, 5, 1, 13, 18);
    MixStep(x, 14, 10, 6, 7);
    MixStep(x, 2, 14, 10, 9);
    MixStep(x, 6, 2, 14, 13);
    MixStep(x, 10, 6, 2, 18);
    MixStep(x, 3, 15, 11, 7);
    MixStep(x, 7, 3, 15, 9);
    MixStep(x, 11, 7, 3, 13);
    MixStep(x, 15, 11, 7, 18);
  }

  /** The other sixteen lines, which work on the rows. */
  method Rows(x: array<Limb>)
    requires x.Length == 16
    modifies x
    ensures x[..] == RowRound(old(x[..]))
  {
    hide Mix;
    MixStep(x, 1, 0, 3, 7);
    MixStep(x, 2, 1, 0, 9);
    MixStep(x, 3, 2, 1, 13);
    MixStep(x, 0, 3, 2, 18);
    MixStep(x, 6, 5, 4, 7);
    MixStep(x, 7, 6, 5, 9);
    MixStep(x, 4, 7, 6, 13);
    MixStep(x, 5, 4, 7, 18);
    MixStep(x, 11, 10, 9, 7);
    MixStep(x, 8, 11, 10, 9);
    MixStep(x, 9, 8, 11, 13);
    MixStep(x, 10, 9, 8, 18);
    MixStep(x, 12, 15, 14, 7);
    MixStep(x, 13, 12, 15, 9);
    MixStep(x, 14, 13, 12, 13);
    MixStep(x, 15, 14, 13, 18);
  }

  method WordToByte(output: array<Byte>, input: array<Limb>)
    requires output.Length == 64 && input.Length == 16
    modifies output
    ensures output[..] == BytesFrom(Core(input[..])) && input[..] == old(input[..])
  {
    hide RowRound, ColumnRound, DoubleRounds, BytesFrom, Added;
    ghost var start := input[..];
    var x := new Limb[16](_ => 0);
    var i := 0;
    while i < 16
      invariant 0 <= i <= 16 && x[..i] == start[..i] && input[..] == start
    {
      x[i] := input[i];
      i := i + 1;
    }
    assert x[..] == start;
    NoDoubleRounds(start);
    i := 20;
    while i > 0
      invariant 0 <= i <= 20 && i % 2 == 0 && input[..] == start
      invariant x[..] == DoubleRounds(start, (20 - i) / 2)
    {
      Columns(x);
      Rows(x);
      OneDoubleRound(start, (20 - i) / 2);
      i := i - 2;
    }
    AddAndStore(output, input, x);
  }

  // The counter

  const TWO32 := 0x1_0000_0000

  function Counter(x: State): nat {
    x[8] + TWO32 * x[9]
  }

  /** The input words with the counter moved on by `j`, modulo 2^64. */
  function Advanced(x: State, j: nat): State {
    var c := Counter(x) + j;
    x[8 := c % TWO32][9 := c / TWO32 % TWO32]
  }

  lemma AdvancedNone(x: State)
    ensures Advanced(x, 0) == x
  {
    DivModUnique(Counter(x), x[9], x[8], TWO32);
    DivModUnique(x[9], 0, x[9], TWO32);
  }

  /** The code's increment: the low word, and the high word when the low one comes out zero. */
  lemma AdvancedOnce(x: State, j: nat)
    ensures var y := Advanced(x, j);
      && var low := Plus(y[8], 1);
         Advanced(x, j + 1) == if low == 0 then y[8 := low][9 := Plus(y[9], 1)] else y[8 := low]
  {
    var c := Counter(x) + j;
    var q, r := c / TWO32, c % TWO32;
    if r + 1 < TWO32 {
      DivModUnique(r + 1, 0, r + 1, TWO32);
      DivModUnique(c + 1, q, r + 1, TWO32);
    } else {
      DivModUnique(r + 1, 1, 0, TWO32);
      DivModUnique(c + 1, q + 1, 0, TWO32);
      ModPlus(q, 1, TWO32);
    }
  }

  /** Output byte `i` from the input words `x` on. */
  function OutByte(x: State, i: nat): Byte {
    BytesFrom(Core(Advanced(x, i / 64)))[i % 64]
  }

  function Enciphered(x: State, b: seq<Byte>): (r: seq<Byte>)
    ensures |r| == |b|
  {
    seq(|b|, i requires 0 <= i < |b| => XorByte(b[i], OutByte(x, i)))
  }

  // The context

  /** "expand 16-byte k". */
  const TAU: seq<Byte> := [101, 120, 112, 97, 110, 100, 32, 49, 54, 45, 98, 121, 116, 101, 32, 107]

  lemma TauIsText()
    ensures |TAU| == 16 && forall i :: 0 <= i < 16 ==> TAU[i] == "expand 16-byte k"[i] as int
  {
  }

  class ECRYPT_ctx {
    const input: array<Limb>

    constructor ()
      ensures input.Length == 16 && fresh(input)
    {
      input := new Limb[16](_ => 0);
    }

    method KeySetup(k: seq<Byte>, kbits: Limb)
      requires input.Length == 16 && |k| >= if kbits == 256 then 32 else 16
      modifies input
      ensures var (s, o) := if kbits == 256 then (SIGMA, 16) else (TAU, 0);
        input[..] == [FromLittle(s[..4]), FromLittle(k[..4]), FromLittle(k[4..8]), FromLittle(k[8..12]),
                      FromLittle(k[12..16]),
                      FromLittle(s[4..8]), old(input[6]), old(input[7]), old(input[8]), old(input[9]),
                      FromLittle(s[8..12]), FromLittle(k[o..o + 4]), FromLittle(k[o + 4..o + 8]),
                      FromLittle(k[o + 8..o + 12]),
                      FromLittle(k[o + 12..o + 16]), FromLittle(s[12..16])]
    {
      hide FromLittle;
      KeyWords(k, 0, 1);
      assert k[0..4] == k[..4];
      var constants := TAU;
      if kbits == 256 {
        KeyWords(k, 16, 11);
        constants := SIGMA;
      } else {
        KeyWords(k, 0, 11);
      }
      input[0], input[5] := FromLittle(constants[..4]), FromLittle(constants[4..8]);
      input[10], input[15] := FromLittle(constants[8..12]), FromLittle(constants[12..16]);
    }

    /** Four words of the key, from byte `o` to the input words from `at` on. */
    method KeyWords(k: seq<Byte>, o: nat, at: nat)
      requires input.Length == 16 && o + 16 <= |k| && at + 4 <= 16
      modifies input
      ensures input[at] == FromLittle(k[o..o + 4]) && input[at + 1] == FromLittle(k[o + 4..o + 8])
      ensures input[at + 2] == FromLittle(k[o + 8..o + 12]) && input[at + 3] == FromLittle(k[o + 12..o + 16])
      ensures forall i :: 0 <= i < 16 && !(at <= i < at + 4) ==> input[i] == old(input[i])
    {
      hide FromLittle;
      input[at], input[at + 1] := FromLittle(k[o..o + 4]), FromLittle(k[o + 4..o + 8]);
      input[at + 2], input[at + 3] := FromLittle(k[o + 8..o + 12]), FromLittle(k[o + 12..o + 16]);
    }

    method IvSetup(iv: seq<Byte>)
      requires input.Length == 16 && |iv| == 8
      modifies input
      ensures input[..] == old(input[..])[6 := FromLittle(iv[..4])][7 := FromLittle(iv[4..])][8 := 0][9 := 0]
    {
      hide FromLittle;
      input[6], input[7] := FromLittle(iv[..4]), FromLittle(iv[4..]);
      input[8], input[9] := 0, 0;
    }

    /** Message and ciphertext may be the same array; the context moves on by the blocks begun. */
    method EncryptBytes(m: array<Byte>, c: array<Byte>, bytes: Limb)
      requires input.Length == 16 && m.Length >= bytes && c.Length >= bytes
      modifies c, input
      ensures c[..] == Enciphered(old(input[..]), old(m[..bytes])) + old(c[bytes..])
      ensures input[..] == Advanced(old(input[..]), (bytes + 63) / 64)
    {
      hide BytesFrom, Core, Advanced, XorByte, Plus;
      ghost var x, m0, c0 := input[..], m[..], c[..];
      AdvancedNone(x);
      if bytes == 0 {
        return;
      }
      var output := new Byte[64](_ => 0);
      var left, at := bytes, 0;
      ghost var j := 0;
      while true
        invariant left > 0 && at == 64 * j && left + at == bytes
        invariant input[..] == Advanced(x, j)
        invariant forall t :: 0 <= t < at ==> c[t] == XorByte(m0[t], OutByte(x, t))
        invariant forall t :: at <= t < m.Length ==> m[t] == m0[t]
        invariant forall t :: at <= t < c.Length ==> c[t] == c0[t]
        decreases left
      {
        WordToByte(output, input);
        AdvancedOnce(x, j);
        input[8] := Plus(input[8], 1);
        if input[8] == 0 {
          input[9] := Plus(input[9], 1);
        }
        BlockBytes(x, j);
        if left <= 64 {
          XorBlock(m, c, at, left, output);
          LastBlock(bytes, j, left);
          assert c[bytes..] == c0[bytes..];
          assert c[..bytes] == Enciphered(x, m0[..bytes]);
          assert c[..] == c[..bytes] + c[bytes..];
          return;
        }
        XorBlock(m, c, at, 64, output);
        left, at, j := left - 64, at + 64, j + 1;
      }
    }
  }

  lemma LastBlock(bytes: nat, j: nat, left: nat)
    requires 0 < left <= 64 && bytes == 64 * j + left
    ensures (bytes + 63) / 64 == j + 1
  {
  }

  lemma BlockBytes(x: State, j: nat)
    ensures forall t :: 64 * j <= t < 64 * j + 64 ==> OutByte(x, t) == BytesFrom(Core(Advanced(x, j)))[t - 64 * j]
  {
    hide BytesFrom, Core, Advanced;
    forall t | 64 * j <= t < 64 * j + 64 ensures OutByte(x, t) == BytesFrom(Core(Advanced(x, j)))[t - 64 * j] {
      DivModUnique(t, j, t - 64 * j, 64);
    }
  }

  /** `c[i] = m[i] ^ output[i]` for `n` bytes from `at` on. */
  method XorBlock(m: array<Byte>, c: array<Byte>, at: nat, n: nat, output: array<Byte>)
    requires at + n <= m.Length && at + n <= c.Length && n <= output.Length && output != m && output != c
    modifies c
    ensures forall t :: 0 <= t < c.Length ==>
      (c[t] == if at <= t < at + n then XorByte(old(m[t]), output[t - at]) else old(c[t]))
  {
    hide XorByte;
    var i := 0;
    while i < n
      invariant 0 <= i <= n && output[..] == old(output[..])
      invariant forall t :: 0 <= t < c.Length ==>
        (c[t] == if at <= t < at + i then XorByte(old(m[t]), output[t - at]) else old(c[t]))
      invariant forall t :: at + i <= t < m.Length ==> m[t] == old(m[t])
    {
      c[at + i] := XorByte(m[at + i], output[i]);
      i := i + 1;
    }
  }

  // The same stream

  /** The input words after key and nonce setup with a 256-bit key. */
  function StartState(k: seq<Byte>, iv: seq<Byte>): State
    requires |k| == 32 && |iv| == 8
  {
    [FromLittle(SIGMA[..4]), FromLittle(k[..4]), FromLittle(k[4..8]), FromLittle(k[8..12]),
     FromLittle(k[12..16]), FromLittle(SIGMA[4..8]), FromLittle(iv[..4]), FromLittle(iv[4..]),
     0, 0, FromLittle(SIGMA[8..12]), FromLittle(k[16..20]),
     FromLittle(k[20..24]), FromLittle(k[24..28]), FromLittle(k[28..]), FromLittle(SIGMA[12..])]
  }

  method Setup(x: ECRYPT_ctx, k: seq<Byte>, iv: seq<Byte>)
    requires x.input.Length == 16 && |k| == 32 && |iv| == 8
    modifies x.input
    ensures x.input[..] == StartState(k, iv)
  {
    hide FromLittle;
    x.KeySetup(k, 256);
    x.IvSetup(iv);
    assert k[28..] == k[28..32] && SIGMA[12..] == SIGMA[12..16];
  }

  /** The bytes that salsa20.c lays out are the words that the reference sets up. */
  lemma SameWords(k: seq<Byte>, iv: seq<Byte>, blk: Limb)
    requires |k| == 32 && |iv| == 8
    ensures WordsOf(Layout(k, iv + ToLittle(blk) + [0, 0, 0, 0])) == Advanced(StartState(k, iv), blk)
  {
    hide FromLittle, ToLittle, Layout, StartState;
    var n := iv + ToLittle(blk) + [0, 0, 0, 0];
    var b, x := Layout(k, n), StartState(k, iv);
    FromToLittle(blk, [0, 0, 0, 0]);
    ZeroWord();
    DivModUnique(blk, 0, blk, TWO32);
    LayoutFirst(k, n);
    LayoutLast(k, n);
    StartWords(k, iv);
    assert n[..4] == iv[..4] && n[4..8] == iv[4..] && n[8..12] == ToLittle(blk) && n[12..] == [0, 0, 0, 0];
    forall i | 0 <= i < 16 ensures WordsOf(b)[i] == Advanced(x, blk)[i] {
    }
  }

  /** The first half of the layout, word by word. */
  lemma LayoutFirst(k: seq<Byte>, n: seq<Byte>)
    requires |k| == 32 && |n| == 16
    ensures var b := Layout(k, n);
      && b[0..4] == SIGMA[..4] && b[4..8] == k[..4] && b[8..12] == k[4..8] && b[12..16] == k[8..12]
      && b[16..20] == k[12..16] && b[20..24] == SIGMA[4..8] && b[24..28] == n[..4] && b[28..32] == n[4..8]
  {
    var b := Layout(k, n);
    assert b[0..4] == SIGMA[..4];
    assert b[4..8] == k[..4];
    assert b[8..12] == k[4..8];
    assert b[12..16] == k[8..12];
    assert b[16..20] == k[12..16];
    assert b[20..24] == SIGMA[4..8];
    assert b[24..28] == n[..4];
    assert b[28..32] == n[4..8];
  }

  lemma LayoutLast(k: seq<Byte>, n: seq<Byte>)
    requires |k| == 32 && |n| == 16
    ensures var b := Layout(k, n);
      && b[32..36] == n[8..12] && b[36..40] == n[12..] && b[40..44] == SIGMA[8..12] && b[44..48] == k[16..20]
      && b[48..52] == k[20..24] && b[52..56] == k[24..28] && b[56..60] == k[28..] && b[60..64] == SIGMA[12..]
  {
    var b := Layout(k, n);
    assert b[32..36] == n[8..12];
    assert b[36..40] == n[12..];
    assert b[40..44] == SIGMA[8..12];
    assert b[44..48] == k[16..20];
    assert b[48..52] == k[20..24];
    assert b[52..56] == k[24..28];
    assert b[56..60] == k[28..];
    assert b[60..64] == SIGMA[12..];
  }

  /** The words of the start state, one by one. */
  lemma StartWords(k: seq<Byte>, iv: seq<Byte>)
    requires |k| == 32 && |iv| == 8
    ensures var x := StartState(k, iv);
      && x[0] == FromLittle(SIGMA[..4]) && x[1] == FromLittle(k[..4]) && x[2] == FromLittle(k[4..8])
      && x[3] == FromLittle(k[8..12]) && x[4] == FromLittle(k[12..16]) && x[5] == FromLittle(SIGMA[4..8])
      && x[6] == FromLittle(iv[..4]) && x[7] == FromLittle(iv[4..]) && x[8] == 0 && x[9] == 0
      && x[10] == FromLittle(SIGMA[8..12]) && x[11] == FromLittle(k[16..20]) && x[12] == FromLittle(k[20..24])
      && x[13] == FromLittle(k[24..28]) && x[14] == FromLittle(k[28..]) && x[15] == FromLittle(SIGMA[12..])
  {
    hide FromLittle;
  }

  lemma ZeroWord()
    ensures FromLittle([0, 0, 0, 0]) == 0
  {
    assert BytesOf(0, 4) == [0, 0, 0, 0];
    FromToLittle(0, [0, 0, 0, 0]);
  }

  /** From stream index 0 on, salsa20.c encrypts as the reference does. */
  lemma SameStream(k: seq<Byte>, iv: seq<Byte>, b: seq<Byte>)
    requires |k| == 32 && |iv| == 8 && |b| <= TWO32
    ensures Crypted(k, iv, 0, b) == Enciphered(StartState(k, iv), b)
  {
    hide Layout, WordsOf, BytesFrom, Core, Advanced, XorByte, StartState;
    forall i | 0 <= i < |b| ensures StreamByte(k, iv, Index(0, i)) == OutByte(StartState(k, iv), i) {
      DivModUnique(i, 0, i, TWO32);
      SameWords(k, iv, i / 64);
    }
  }

  /** Both ciphers over the same message. */
  method BothAgree(key: array<Byte>, nonce: array<Byte>, m: array<Byte>, a: array<Byte>, c: array<Byte>)
    requires key.Length == 32 && nonce.Length == 8 && m.Length == a.Length == c.Length < TWO32
    requires a[..] == m[..] && a !in {key, nonce, m} && c !in {key, nonce, m, a}
    modifies a, c
    ensures a[..] == c[..]
  {
    hide Crypted, Enciphered, StartState, Advanced;
    var n := m.Length;
    var status := Crypt32(key, nonce, 0, a, n);
    var x := new ECRYPT_ctx();
    Setup(x, key[..], nonce[..]);
    x.EncryptBytes(m, c, n);
    assert m[..n] == m[..] && key[..32] == key[..] && nonce[..8] == nonce[..];
    SameStream(key[..], nonce[..], m[..]);
  }
}
