/** Streaming SHA-512: `SHA512_Init`, `SHA512_Update` and `SHA512_Final` hash the padded message, however it
    was split over the calls.
 */
module Sha512 {
  import opened Bytes
  import opened Sha512Words
  import opened Sha512Block
  import opened ModArith

  const SHA512_DIGEST_LENGTH := 64

  const INITIAL: seq<Word> := [
    Word(0x6a09_e667_f3bc_c908), Word(0xbb67_ae85_84ca_a73b), Word(0x3c6e_f372_fe94_f82b), Word(0xa54f_f53a_5f1d_36f1),
    Word(0x510e_527f_ade6_82d1), Word(0x9b05_688c_2b3e_6c1f), Word(0x1f83_d9ab_fb41_bd6b), Word(0x5be0_cd19_137e_2179)]

  const TWO64 := 0x1_0000_0000_0000_0000

  // The specification: padding and digest

  function Zeros(n: nat): (z: seq<Byte>)
    ensures |z| == n
  {
    seq(n, _ => 0)
  }

  /** The bit length of the message as a 128-bit number, modulo 2^128, most significant byte first. */
  function LengthField(n: nat): (s: seq<Byte>)
    ensures |s| == 16
  {
    StoreBE(8 * n / TWO64 % TWO64) + StoreBE(8 * n % TWO64)
  }

  lemma Filled(n: nat)
    ensures (n + 1 + (111 - n) % 128 + 16) % 128 == 0
  {
    var q, z := n / 128, (111 - n) % 128;
    var k := (111 - n) / 128;
    assert 111 - n == 128 * k + z;
    DivModUnique(n + 1 + z + 16, 1 - k, 0, 128);
  }

  /** Section 5.1.2 of FIPS 180-4, on bytes: a one bit, the fewest zeros that fill up to a block of 128
      bytes, and the length. */
  function Pad(m: seq<Byte>): (s: seq<Byte>)
    ensures |s| % 128 == 0 && m <= s
  {
    Filled(|m|);
    m + [0x80] + Zeros((111 - |m|) % 128) + LengthField(|m|)
  }

  /** What the padding is for: the message, a one bit, fewer zeros than a block, and the length in bits,
      modulo 2^128, at the end of the last block. */
  lemma PadMeans(m: seq<Byte>)
    ensures var s, n := Pad(m), |m|;
      && |s| % 128 == 0 && n + 17 <= |s| < n + 17 + 128
      && s[..n] == m && s[n] == 0x80 && (forall i :: n < i < |s| - 16 ==> s[i] == 0)
      && Value(s[|s| - 16..]) == 8 * n % (TWO64 * TWO64)
  {
    hide LengthField, Zeros, Value;
    var n, z := |m|, (111 - |m|) % 128;
    var s := Pad(m);
    ZerosAt(z);
    assert s[..n] == m && s[n] == 0x80;
    assert s[n + 1..n + 1 + z] == Zeros(z) && s[|s| - 16..] == LengthField(n);
    forall i | n < i < |s| - 16 ensures s[i] == 0 {
      assert s[i] == s[n + 1..n + 1 + z][i - (n + 1)];
    }
    LengthValue(n);
  }

  lemma ZerosAt(n: nat)
    ensures forall i :: 0 <= i < n ==> Zeros(n)[i] == 0
  {
  }

  lemma LengthValue(n: nat)
    ensures Value(LengthField(n)) == 8 * n % (TWO64 * TWO64)
  {
    hide Value, StoreBE;
    var q, r := 8 * n / TWO64, 8 * n % TWO64;
    TwoSixtyFour();
    ValueAppend(StoreBE(q % TWO64), StoreBE(r));
    StoredBytes(q % TWO64, StoreBE(q % TWO64));
    StoredBytes(r, StoreBE(r));
    DivModUnique(8 * n, q / TWO64, q % TWO64 * TWO64 + r, TWO64 * TWO64);
  }

  function Stored(h: seq<Word>): (s: seq<Byte>)
    ensures |s| == 8 * |h|
  {
    if |h| == 0 then [] else Stored(h[..|h| - 1]) + StoreWord(h[|h| - 1])
  }

  function Digest(m: seq<Byte>): seq<Byte> {
    Stored(Blocks(INITIAL, Pad(m)))
  }

  // The context

  class SHA512_CTX {
    const h: array<Word>
    const p: array<Byte>
    var Nl: U64
    var Nh: U64
    var num: nat
    var md_len: nat

    constructor ()
      ensures h.Length == 8 && p.Length == 128 && fresh(h) && fresh(p)
    {
      h, p := new Word[8](_ => Word(0)), new Byte[128](_ => 0);
      Nl, Nh, num, md_len := 0, 0, 0, 0;
    }

    /** The context after the bytes `m`: full blocks are hashed, the rest is buffered, and `Nh:Nl` counts
        bits modulo 2^128. */
    ghost predicate Absorbed(m: seq<Byte>)
      reads this, h, p
    {
      Buffered(m) && Counted(|m|) && md_len == SHA512_DIGEST_LENGTH
    }

    ghost predicate Buffered(m: seq<Byte>)
      reads this`num, h, p
    {
      && h.Length == 8 && p.Length == 128
      && h[..] == Blocks(INITIAL, m)
      && num == |m| % 128
      && p[..num] == m[|m| - num..]
    }

    ghost predicate Counted(n: nat)
      reads this`Nl, this`Nh
    {
      Nl == 8 * n % TWO64 && Nh == 8 * n / TWO64 % TWO64
    }

    method Init()
      requires h.Length == 8 && p.Length == 128
      modifies this, h
      ensures Absorbed([])
    {
      h[0], h[1], h[2], h[3] := INITIAL[0], INITIAL[1], INITIAL[2], INITIAL[3];
      h[4], h[5], h[6], h[7] := INITIAL[4], INITIAL[5], INITIAL[6], INITIAL[7];
      assert h[..] == INITIAL;
      Nl, Nh, num, md_len := 0, 0, 0, SHA512_DIGEST_LENGTH;
    }

    /** The bit count: a 64-bit length in bytes is added to the 128-bit counter. */
    method Count(len: nat, ghost n: nat)
      requires len < TWO64 && Counted(n)
      modifies this`Nl, this`Nh
      ensures Counted(n + len)
    {
      var l := (Nl + len * 8 % TWO64) % TWO64;
      if l < Nl {
        Nh := (Nh + 1) % TWO64;
      }
      Nh := (Nh + len / 0x2000_0000_0000_0000) % TWO64;
      Nl := l;
      CountStep(8 * n, len);
    }

    /** Absorbs `data`, whatever is buffered. */
    method Update(data: seq<Byte>, ghost m: seq<Byte>)
      requires Absorbed(m) && |data| < TWO64
      modifies this`Nl, this`Nh, this`num, h, p
      ensures Absorbed(m + data)
    {
      hide Buffered, Counted;
      if |data| == 0 {
        assert m + data == m;
        return;
      }
      Count(|data|, |m|);
      Take(data, m);
    }

    /** The bytes of `SHA512_Update`, after the count. */
    method Take(data: seq<Byte>, ghost m: seq<Byte>)
      requires Buffered(m)
      modifies this`num, h, p
      ensures Buffered(m + data)
    {
      hide Blocks;
      ghost var done := m[..|m| - num];
      BlocksFloor(INITIAL, m);
      FloorIsFull(m);
      var rest := data;
      if num != 0 {
        var n := p.Length - num;
        if |rest| < n {
          Extend(rest, done);
          assert done + (m[|m| - old(num)..] + data) == m + data;
          return;
        } else {
          done := Fill(rest[..n], done);
          rest := rest[n..];
        }
      }
      assert done + rest == m + data;
      TakeAligned(rest, done);
    }

    /** The buffer does not fill up. */
    method Extend(data: seq<Byte>, ghost done: seq<Byte>)
      requires h.Length == 8 && p.Length == 128 && |done| % 128 == 0 && h[..] == Blocks(INITIAL, done)
      requires num + |data| < 128
      modifies this`num, p
      ensures Buffered(done + (old(p[..num]) + data))
    {
      hide Blocks;
      MemCopy(p, num, data);
      num := num + |data|;
      assert p[..num] == old(p[..num]) + data;
      Leftover(done, p[..num]);
    }

    /** The buffer fills up and is hashed. */
    method Fill(data: seq<Byte>, ghost done: seq<Byte>) returns (ghost done': seq<Byte>)
      requires h.Length == 8 && p.Length == 128 && |done| % 128 == 0 && h[..] == Blocks(INITIAL, done)
      requires num + |data| == 128
      modifies this`num, p, h
      ensures done' == done + (old(p[..num]) + data) && |done'| % 128 == 0
      ensures num == 0 && h[..] == Blocks(INITIAL, done')
    {
      hide Blocks;
      MemCopy(p, num, data);
      assert p[..] == old(p[..num]) + data;
      num := 0;
      BlockDataOrder(h, p[..], 1);
      OneMore(INITIAL, done, p[..]);
      done' := done + p[..];
    }

    /** Full blocks are hashed where they are, the rest goes to the empty buffer. */
    method TakeAligned(data: seq<Byte>, ghost done: seq<Byte>)
      requires h.Length == 8 && p.Length == 128 && num == 0
      requires |done| % 128 == 0 && h[..] == Blocks(INITIAL, done)
      modifies this`num, h, p
      ensures Buffered(done + data)
    {
      hide Blocks;
      var rest := data;
      ghost var done' := done;
      if |rest| >= p.Length {
        var full := |rest| / p.Length;
        BlockDataOrder(h, rest, full);
        BlocksAppend(INITIAL, done, rest[..128 * full]);
        SplitRest(done, rest, full);
        done' := done + rest[..128 * full];
        rest := rest[|rest| - |rest| % p.Length..];
      }
      if |rest| != 0 {
        MemCopy(p, 0, rest);
        num := |rest|;
      }
      assert p[..num] == rest;
      Leftover(done', rest);
    }

    /** Writes the digest of all the bytes absorbed, unless `out` is null. */
    method Final(out: array?<Byte>, ghost m: seq<Byte>) returns (ok: bool)
      requires Absorbed(m) && (out != null ==> out.Length >= SHA512_DIGEST_LENGTH && out != p)
      modifies h, p, out
      ensures h[..] == Blocks(INITIAL, Pad(m))
      ensures ok <==> out != null
      ensures ok ==> out[..64] == Digest(m) && out[64..] == old(out[64..])
    {
      hide Blocks, Pad;
      FinishPadding(m);
      if out == null {
        return false;
      }
      StoreWords(out, h);
      ok := true;
    }

    /** The padding of `SHA512_Final`: one block more, or two. */
    method FinishPadding(ghost m: seq<Byte>)
      requires Absorbed(m)
      modifies h, p
      ensures h[..] == Blocks(INITIAL, Pad(m))
    {
      hide Blocks, Pad, Zeros, StoreBE;
      ghost var done, tail;
      var n;
      n, done, tail := EndMark(m);
      LengthBlock(n);
      assert p[..] == tail + Zeros(112 - n) + LengthField(|m|);
      BlockDataOrder(h, p[..], 1);
      OneMore(INITIAL, done, p[..]);
    }

    /** The end mark, and a block of its own for it if the length does not fit behind it. */
    method EndMark(ghost m: seq<Byte>) returns (n: nat, ghost done: seq<Byte>, ghost tail: seq<Byte>)
      requires Buffered(m)
      modifies h, p
      ensures n == |tail| <= 112 && p[..n] == tail
      ensures |done| % 128 == 0 && h[..] == Blocks(INITIAL, done)
      ensures Pad(m) == done + (tail + Zeros(112 - n) + LengthField(|m|))
    {
      hide Blocks, Pad, LengthField;
      done, tail := m[..|m| - num], p[..num];
      BlocksFloor(INITIAL, m);
      FloorIsFull(m);
      n := num;
      p[n] := 0x80;
      n := n + 1;
      assert p[..n] == tail + [0x80];
      if n > p.Length - 16 {
        LongPad(m, done, tail);
        done := CloseBlock(n, done);
        n, tail := 0, [];
      } else {
        ShortPad(m, done, tail);
        tail := p[..n];
      }
    }

    /** Zeros up to the end of the block, which is hashed. */
    method CloseBlock(n: nat, ghost done: seq<Byte>) returns (ghost done': seq<Byte>)
      requires h.Length == 8 && p.Length == 128 && n <= 128
      requires |done| % 128 == 0 && h[..] == Blocks(INITIAL, done)
      modifies h, p
      ensures done' == done + (old(p[..n]) + Zeros(128 - n)) && |done'| % 128 == 0
      ensures h[..] == Blocks(INITIAL, done')
    {
      hide Blocks, Zeros;
      MemCopy(p, n, Zeros(p.Length - n));
      assert p[..] == old(p[..n]) + Zeros(128 - n);
      BlockDataOrder(h, p[..], 1);
      OneMore(INITIAL, done, p[..]);
      done' := done + p[..];
    }

    /** Zeros and the length after the first `n` bytes. */
    method LengthBlock(n: nat)
      requires p.Length == 128 && n <= 112
      modifies p
      ensures p[..] == old(p[..n]) + Zeros(112 - n) + StoreBE(Nh) + StoreBE(Nl)
    {
      hide StoreBE, Zeros;
      MemCopy(p, n, Zeros(p.Length - 16 - n));
      assert p[..112] == old(p[..n]) + Zeros(112 - n);
      MemCopy(p, 112, StoreBE(Nh));
      assert p[..120] == old(p[..n]) + Zeros(112 - n) + StoreBE(Nh);
      MemCopy(p, 120, StoreBE(Nl));
    }
  }

  lemma FloorIsFull(m: seq<Byte>)
    ensures |m[..|m| - |m| % 128]| % 128 == 0
  {
    DivModUnique(|m| - |m| % 128, |m| / 128, 0, 128);
  }

  /** The length still fits behind the message. */
  lemma ShortPad(m: seq<Byte>, done: seq<Byte>, tail: seq<Byte>)
    requires m == done + tail && |tail| == |m| % 128 < 112
    ensures Pad(m) == done + ((tail + [0x80]) + Zeros(112 - (|tail| + 1)) + LengthField(|m|))
  {
    hide LengthField;
    PadLength(|m|);
  }

  /** The padding takes a block more. */
  lemma LongPad(m: seq<Byte>, done: seq<Byte>, tail: seq<Byte>)
    requires m == done + tail && |tail| == |m| % 128 >= 112
    ensures Pad(m) == (done + (tail + [0x80] + Zeros(127 - |tail|))) + ([] + Zeros(112) + LengthField(|m|))
  {
    hide LengthField;
    PadLength(|m|);
    assert Zeros(239 - |tail|) == Zeros(127 - |tail|) + Zeros(112);
  }

  /** `memcpy` and `memset` into a buffer. */
  method MemCopy(p: array<Byte>, at: nat, s: seq<Byte>)
    requires at + |s| <= p.Length
    modifies p
    ensures p[..] == old(p[..at]) + s + old(p[at + |s|..])
    ensures p[..at] == old(p[..at]) && p[at..at + |s|] == s && p[at + |s|..] == old(p[at + |s|..])
  {
    forall i | 0 <= i < |s| {
      p[at + i] := s[i];
    }
  }

  /** The words of the state, most significant byte first. */
  method StoreWords(out: array<Byte>, h: array<Word>)
    requires h.Length == 8 && out.Length >= 64
    modifies out
    ensures out[..64] == Stored(h[..]) && out[64..] == old(out[64..])
    ensures h[..] == old(h[..])
  {
    var i := 0;
    ghost var words := h[..];
    while i < 8
      invariant 0 <= i <= 8 && h[..] == words
      invariant out[..8 * i] == Stored(words[..i]) && out[64..] == old(out[64..])
    {
      MemCopy(out, 8 * i, StoreWord(h[i]));
      assert words[..i + 1][..i] == words[..i];
      i := i + 1;
    }
    assert words[..8] == words;
  }

  lemma CountStep(b: nat, len: nat)
    requires len < TWO64
    ensures var l := (b % TWO64 + len * 8 % TWO64) % TWO64;
      && l == (b + 8 * len) % TWO64
      && ((if l < b % TWO64 then (b / TWO64 % TWO64 + 1) % TWO64 else b / TWO64 % TWO64)
        + len / 0x2000_0000_0000_0000) % TWO64
         == (b + 8 * len) / TWO64 % TWO64
  {
    var q, x, k, y := b / TWO64, b % TWO64, len / 0x2000_0000_0000_0000, len * 8 % TWO64;
    DivModUnique(8 * len, k, 8 * (len % 0x2000_0000_0000_0000), TWO64);
    var carry := if x + y < TWO64 then 0 else 1;
    DivModUnique(x + y, carry, x + y - carry * TWO64, TWO64);
    DivModUnique(b + 8 * len, q + k + carry, x + y - carry * TWO64, TWO64);
    ModPlus(q % TWO64 + carry, k, TWO64);
    ModPlus(q, carry, TWO64);
    ModPlus(q, carry + k, TWO64);
    ModPlus(q, 0, TWO64);
    ModPlus(q % TWO64, carry + k, TWO64);
  }

  lemma OneMore(h: seq<Word>, done: seq<Byte>, b: seq<Byte>)
    requires |h| == 8 && |done| % 128 == 0 && |b| == 128
    ensures Blocks(h, done + b) == Blocks(Blocks(h, done), b[..128 * 1])
    ensures |done + b| % 128 == 0
  {
    hide Blocks;
    DivModUnique(|done| + 128, |done| / 128 + 1, 0, 128);
    BlocksAppend(h, done, b);
    assert b[..128] == b;
  }

  lemma SplitRest(done: seq<Byte>, rest: seq<Byte>, full: nat)
    requires full == |rest| / 128 && |done| % 128 == 0
    ensures |rest| - |rest| % 128 == 128 * full
    ensures |done + rest[..128 * full]| % 128 == 0
    ensures done + rest[..128 * full] + rest[128 * full..] == done + rest
  {
    DivModUnique(|done| + 128 * full, |done| / 128 + full, 0, 128);
  }

  /** What is left below a block stays out of the state. */
  lemma Leftover(done: seq<Byte>, rest: seq<Byte>)
    requires |done| % 128 == 0 && |rest| < 128
    ensures Blocks(INITIAL, done + rest) == Blocks(INITIAL, done)
    ensures |done + rest| % 128 == |rest| && (done + rest)[|done + rest| - |rest|..] == rest
  {
    hide Compress;
    BlocksAppend(INITIAL, done, rest);
    DivModUnique(|done| + |rest|, |done| / 128, |rest|, 128);
  }

  lemma PadLength(n: nat)
    ensures (111 - n) % 128 == if n % 128 < 112 then 111 - n % 128 else 239 - n % 128
  {
    var r := n % 128;
    DivModUnique(111 - n, if r < 112 then -(n / 128) else -(n / 128) - 1, if r < 112 then 111 - r else 239 - r, 128);
  }

  // Whole messages

  /** `SHA512`: one update with everything. */
  method Hash(data: seq<Byte>, out: array?<Byte>)
    requires |data| < TWO64 && (out != null ==> out.Length >= SHA512_DIGEST_LENGTH)
    modifies out
    ensures out != null ==> out[..64] == Digest(data) && out[64..] == old(out[64..])
  {
    hide Digest, INITIAL, Blocks, SHA512_CTX.Absorbed;
    var ctx := new SHA512_CTX();
    ctx.Init();
    ctx.Update(data, []);
    assert [] + data == data;
    var ok := ctx.Final(out, data);
  }

  function Joined(chunks: seq<seq<Byte>>): seq<Byte> {
    if |chunks| == 0 then [] else Joined(chunks[..|chunks| - 1]) + chunks[|chunks| - 1]
  }

  /** Any run of updates gives the digest of all the bytes, in whatever pieces they came. */
  method HashInPieces(chunks: seq<seq<Byte>>, out: array<Byte>)
    requires out.Length >= SHA512_DIGEST_LENGTH && forall i :: 0 <= i < |chunks| ==> |chunks[i]| < TWO64
    modifies out
    ensures out[..64] == Digest(Joined(chunks))
  {
    hide Digest, INITIAL, SHA512_CTX.Absorbed;
    var ctx := new SHA512_CTX();
    ctx.Init();
    var i := 0;
    while i < |chunks|
      invariant 0 <= i <= |chunks| && fresh(ctx) && fresh(ctx.h) && fresh(ctx.p)
      invariant ctx.Absorbed(Joined(chunks[..i]))
    {
      ctx.Update(chunks[i], Joined(chunks[..i]));
      assert chunks[..i + 1][..i] == chunks[..i];
      i := i + 1;
    }
    assert chunks[..i] == chunks;
    var ok := ctx.Final(out, Joined(chunks));
  }
}
