/** Bytes, and numbers stored in them with the most significant byte first. */
module Bytes {
  import opened ModArith
  import opened Powers

  type Byte = b: int | 0 <= b < 256 witness 0

  /** The number whose base-256 digits are `b`. */
  function Value(b: seq<Byte>): int {
    if |b| == 0 then 0 else Value(b[..|b| - 1]) * 256 + b[|b| - 1]
  }

  /** The low `n` bytes of `v`. */
  function BytesOf(v: int, n: nat): (b: seq<Byte>)
    ensures |b| == n
    decreases n
  {
    if n == 0 then [] else BytesOf(v / 256, n - 1) + [v % 256]
  }

  lemma TwoEight(n: nat)
    ensures Two(8) == 256 && Two(8 * (n + 1)) == 256 * Two(8 * n)
  {
    assert Two(3) == 8;
    TwoAdd(3, 3);
    TwoAdd(6, 2);
    TwoAdd(8 * n, 8);
  }

  lemma {:induction false} ValueBound(b: seq<Byte>)
    ensures 0 <= Value(b) < Two(8 * |b|)
  {
    hide Two;
    if |b| > 0 {
      ValueBound(b[..|b| - 1]);
      TwoEight(|b| - 1);
    } else {
      TwoEight(0);
      assert Two(0) == 1;
    }
  }

  lemma {:induction false} ValueOfBytes(v: int, n: nat)
    requires 0 <= v < Two(8 * n)
    ensures Value(BytesOf(v, n)) == v
    decreases n
  {
    if n > 0 {
      TwoEight(n - 1);
      ValueOfBytes(v / 256, n - 1);
      assert BytesOf(v, n)[..n - 1] == BytesOf(v / 256, n - 1);
    }
  }

  lemma {:induction false} BytesOfValue(b: seq<Byte>)
    ensures BytesOf(Value(b), |b|) == b
  {
    if |b| > 0 {
      var n := |b|;
      var front, last := b[..n - 1], b[n - 1];
      DivModUnique(Value(b), Value(front), last, 256);
      BytesOfValue(front);
      assert b == front + [last];
    }
  }

  /** The bytes of one number behind those of another. */
  lemma {:induction false} ValueAppend(a: seq<Byte>, b: seq<Byte>)
    ensures Value(a + b) == Value(a) * Two(8 * |b|) + Value(b)
  {
    hide Two;
    if |b| == 0 {
      assert a + b == a && Two(0) == 1 by { TwoNone(); }
    } else {
      var n := |b| - 1;
      assert (a + b)[..|a + b| - 1] == a + b[..n];
      ValueAppend(a, b[..n]);
      TwoEight(n);
      Weighted(Value(a), Two(8 * n), Value(b[..n]));
    }
  }

  lemma TwoNone()
    ensures Two(0) == 1
  {
  }

  lemma Weighted(a: int, t: int, v: int)
    ensures (a * t + v) * 256 == a * (256 * t) + v * 256
  {
  }

  /** Byte `j` from the right. */
  lemma {:induction false} ByteAt(v: int, n: nat, j: nat)
    requires j < n
    ensures BytesOf(v, n)[n - 1 - j] == v / Two(8 * j) % 256
    decreases n
  {
    if j > 0 {
      ByteAt(v / 256, n - 1, j - 1);
      TwoEight(j - 1);
      DivDiv(v, 256, Two(8 * (j - 1)));
    }
  }
}
