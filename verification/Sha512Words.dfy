/** Words of SHA-512 and the functions on them, of section 4.1.3 of FIPS 180-4. */
module Sha512Words {

  /** A 64-bit word; the wrapper keeps its bits out of proofs about places. */
  datatype Word = Word(bits: bv64)

  function Rotated(x: bv64, n: bv7): bv64
    requires 0 < n < 64
  {
    (x >> n) | (x << (64 - n))
  }

  function BigSigma0(x: bv64): bv64 {
    Rotated(x, 28) ^ Rotated(x, 34) ^ Rotated(x, 39)
  }

  function BigSigma1(x: bv64): bv64 {
    Rotated(x, 14) ^ Rotated(x, 18) ^ Rotated(x, 41)
  }

  function SmallSigma0(x: bv64): bv64 {
    Rotated(x, 1) ^ Rotated(x, 8) ^ (x >> 7)
  }

  function SmallSigma1(x: bv64): bv64 {
    Rotated(x, 19) ^ Rotated(x, 61) ^ (x >> 6)
  }

  function Ch(x: bv64, y: bv64, z: bv64): bv64 {
    (x & y) ^ (!x & z)
  }

  function Maj(x: bv64, y: bv64, z: bv64): bv64 {
    (x & y) ^ (x & z) ^ (y & z)
  }

  /** Rotations are to the right: with no bit to move round on the right side or on the left one they are
      shifts, and at every amount in use they are the bit-vector's own. */
  lemma RotatedRight(x: bv64, n: bv7)
    requires 0 < n < 64
    ensures x >> n == 0 ==> Rotated(x, n) == x << (64 - n)
    ensures x << (64 - n) == 0 ==> Rotated(x, n) == x >> n
    ensures Rotated(x, 28) == x.RotateRight(28) && Rotated(x, 34) == x.RotateRight(34)
    ensures Rotated(x, 39) == x.RotateRight(39) && Rotated(x, 14) == x.RotateRight(14)
    ensures Rotated(x, 18) == x.RotateRight(18) && Rotated(x, 41) == x.RotateRight(41)
    ensures Rotated(x, 1) == x.RotateRight(1) && Rotated(x, 8) == x.RotateRight(8)
    ensures Rotated(x, 19) == x.RotateRight(19) && Rotated(x, 61) == x.RotateRight(61)
  {
  }

  // Sums, modulo 2^64

  function Sum(a: Word, b: Word): Word {
    Word(a.bits + b.bits)
  }

  function T1(h: Word, e: Word, f: Word, g: Word, k: bv64, w: Word): Word {
    Word(h.bits + BigSigma1(e.bits) + Ch(e.bits, f.bits, g.bits) + k + w.bits)
  }

  function T2(a: Word, b: Word, c: Word): Word {
    Word(BigSigma0(a.bits) + Maj(a.bits, b.bits, c.bits))
  }

  /** A word of the schedule from the words 2, 7, 15 and 16 places before. */
  function Scheduled(w2: Word, w7: Word, w15: Word, w16: Word): Word {
    Word(SmallSigma1(w2.bits) + w7.bits + SmallSigma0(w15.bits) + w16.bits)
  }

  // The sums as the code orders them

  function CodeT1(h: Word, e: Word, f: Word, g: Word, k: bv64, w: Word): Word {
    Word(w.bits + (h.bits + BigSigma1(e.bits) + Ch(e.bits, f.bits, g.bits) + k))
  }

  function CodeScheduled(x: Word, s0: Word, s1: Word, y: Word): Word {
    Word(x.bits + (SmallSigma0(s0.bits) + SmallSigma1(s1.bits) + y.bits))
  }

  lemma T1InOrder(h: Word, e: Word, f: Word, g: Word, k: bv64, w: Word)
    ensures CodeT1(h, e, f, g, k, w) == T1(h, e, f, g, k, w)
  {
    hide BigSigma1, Ch;
  }

  lemma ScheduledInOrder(w2: Word, w7: Word, w15: Word, w16: Word)
    ensures CodeScheduled(w16, w15, w2, w7) == Scheduled(w2, w7, w15, w16)
  {
    hide SmallSigma0, SmallSigma1;
  }

  lemma SumCommutes(a: Word, b: Word)
    ensures Sum(a, b) == Sum(b, a)
  {
  }
}
