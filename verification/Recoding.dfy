/** The scalar recodings behind `ec_mul`, `ec_mul_window` and `ec_twin_mul`: which digits they read off
    the limbs, and why those digits sum to the scalar.
 */
module Recoding {
  import opened Words
  import opened Limbs
  import opened ModArith
  import opened Powers

  function Bit(v: int, j: nat): int {
    (v / Two(j)) % 2
  }

  lemma {:induction false} PowIsTwo(i: nat)
    ensures Pow(i) == Two(32 * i)
  {
    if i != 0 {
      PowIsTwo(i - 1);
      TwoAdd(32 * (i - 1), 32);
      TwoThirtyTwo();
    }
  }

  lemma BitSucc(v: int, j: nat)
    ensures Bit(v, j + 1) == Bit(v / 2, j)
  {
    DivDiv(v, 2, Two(j));
  }

  /** A multiple of `2^n` does not show below bit `n`. */
  lemma BitBelow(v: int, k: int, n: nat, j: nat)
    requires j < n
    ensures Bit(v + k * Two(n), j) == Bit(v, j)
  {
    hide Two;
    TwoAdd(j, n - j);
    TwoNext(n - j - 1);
    var a, b := Two(j), Two(n - j - 1);
    EvenMultiple(k, a, b);
    AddMultiple(v, 2 * (k * b), a);
    EvenSum(v / a, k * b);
  }

  lemma TwoNext(n: nat)
    ensures Two(n + 1) == 2 * Two(n)
  {
  }

  lemma EvenMultiple(k: int, a: int, b: int)
    ensures k * (a * (2 * b)) == a * (2 * (k * b))
  {
  }

  lemma EvenSum(x: int, y: int)
    ensures (x + 2 * y) % 2 == x % 2
  {
  }

  lemma AddMultiple(v: int, k: int, m: int)
    requires m > 0
    ensures (v + m * k) / m == v / m + k
  {
    assert v + m * k == m * (v / m + k) + v % m;
    DivModUnique(v + m * k, v / m + k, v % m, m);
  }

  /** Reading a bit of a number off its limbs. */
  lemma LimbBit(s: seq<Limb>, i: nat, b: nat)
    requires i < |s| && b < 32
    ensures Bit(Val(s), 32 * i + b) == Bit(s[i], b)
  {
    hide Val, Pow, Two, Bit;
    assert s == s[..i] + ([s[i]] + s[i + 1..]);
    ValAppend(s[..i], [s[i]] + s[i + 1..]);
    ValAppend([s[i]], s[i + 1..]);
    SingleLimb(s[i]);
    PowIsTwo(i);
    PowIsTwo(1);
    ValBound(s[..i]);
    BitShift(Val(s[..i]), Val([s[i]] + s[i + 1..]), 32 * i, b);
    var k := Val(s[i + 1..]);
    assert Two(32) * k == k * Two(32);
    BitBelow(s[i], k, 32, b);
  }

  lemma BitShift(low: int, v: int, n: nat, b: nat)
    requires 0 <= low < Two(n)
    ensures Bit(low + Two(n) * v, n + b) == Bit(v, b)
  {
    TwoAdd(n, b);
    DivDiv(low + Two(n) * v, Two(n), Two(b));
    DivModUnique(low + Two(n) * v, v, low, Two(n));
  }

  // The signed digits of d: bits of d + d/2 less bits of d/2

  function Digit(d: int, j: nat): int {
    Bit(d + d / 2, j) - Bit(d / 2, j)
  }

  /** The multiple collected once the digits from `j` up have been consumed. */
  function Prefix(d: int, j: nat): int {
    (d + d / 2) / Two(j) - (d / 2) / Two(j)
  }

  lemma PrefixStep(d: int, j: nat)
    ensures Prefix(d, j) == 2 * Prefix(d, j + 1) + Digit(d, j)
  {
    HalfStep(d + d / 2, j);
    HalfStep(d / 2, j);
  }

  lemma HalfStep(v: int, j: nat)
    ensures v / Two(j) == 2 * (v / Two(j + 1)) + Bit(v, j)
  {
    DivDiv(v, Two(j), 2);
    assert Two(j) * 2 == Two(j + 1);
  }

  lemma PrefixDone(d: int)
    ensures Prefix(d, 0) == d
  {
  }

  /** Before any digit, the collected multiple is the carry of `d + d/2`. */
  lemma PrefixTop(d: int, n: nat, s: int, c: int)
    requires 0 <= d < Two(n) && 0 <= c <= 1 && 0 <= s < Two(n)
    requires s + c * Two(n) == d + d / 2
    ensures Prefix(d, n) == c
  {
    DivModUnique(d + d / 2, c, s, Two(n));
    DivModUnique(d / 2, 0, d / 2, Two(n));
  }

  /** The collected multiple from the remainder of `d` alone. */
  lemma PrefixRemainder(d: int, j: nat)
    ensures var m := Two(j + 1);
      Prefix(d, j) == 2 * (d / m) + (3 * (d % m)) / m
  {
    var p, m := Two(j), Two(j + 1);
    assert m == 2 * p;
    DivDiv(3 * d, 2, p);
    DivDiv(d, 2, p);
    assert (3 * d) / 2 == d + d / 2;
    assert 2 * p == m;
    var q, r := d / m, d % m;
    assert 3 * d == 3 * r + m * (3 * q);
    AddMultiple(3 * r, 3 * q, m);
  }

  /** Two neighbouring prefixes are never both odd. */
  lemma PrefixParity(d: int, j: nat)
    ensures Prefix(d, j) % 2 == 0 || Prefix(d, j + 1) % 2 == 0
  {
    hide *;
    PrefixRemainder(d, j);
    PrefixRemainder(d, j + 1);
    TwoNext(j + 1);
    RemainderThird(d, Two(j + 1), Two(j + 2), Prefix(d, j), Prefix(d, j + 1));
  }

  /** No two neighbouring digits are nonzero. */
  lemma NonAdjacent(d: int, j: nat)
    ensures Digit(d, j) == 0 || Digit(d, j + 1) == 0
    ensures -1 <= Digit(d, j) <= 1
  {
    hide *;
    PrefixParity(d, j);
    PrefixStep(d, j);
    PrefixStep(d, j + 1);
    DigitRange(d, j);
    DigitRange(d, j + 1);
    if Prefix(d, j) % 2 == 0 {
      EvenDigit(Prefix(d, j), Prefix(d, j + 1), Digit(d, j));
    } else {
      EvenDigit(Prefix(d, j + 1), Prefix(d, j + 2), Digit(d, j + 1));
    }
  }

  lemma EvenDigit(p: int, p': int, d: int)
    requires p == 2 * p' + d && p % 2 == 0 && -1 <= d <= 1
    ensures d == 0
  {
  }

  lemma DigitRange(d: int, j: nat)
    ensures -1 <= Digit(d, j) <= 1
  {
  }

  /** The parities of neighbouring prefixes exclude each other. */
  lemma RemainderThird(d: int, m: int, n: int, p: int, p': int)
    requires m > 0 && n == 2 * m
    requires p == 2 * (d / m) + (3 * (d % m)) / m
    requires p' == 2 * (d / n) + (3 * (d % n)) / n
    ensures p % 2 == 0 || p' % 2 == 0
  {
    RemainderHalf(d, m);
    ThirdParity(d % m, m, (d / m) % 2);
    EvenSum((3 * (d % m)) / m, d / m);
    EvenSum((3 * (d % n)) / n, d / n);
  }

  lemma RemainderHalf(d: int, m: int)
    requires m > 0
    ensures d % (2 * m) == m * ((d / m) % 2) + d % m
  {
    var q, r := d / m, d % m;
    var q', b := q / 2, q % 2;
    RemainderHalfArith(m, q', b, r);
    MulLe(b, 1, m);
    assert b * m == m * b;
    DivModUnique(d, q', m * b + r, 2 * m);
  }

  lemma RemainderHalfArith(m: int, q: int, b: int, r: int)
    ensures m * (2 * q + b) + r == (2 * m) * q + (m * b + r)
  {
  }

  lemma ThirdParity(r: int, m: int, b: int)
    requires 0 <= r < m && 0 <= b <= 1
    ensures ((3 * r) / m) % 2 == 0 || ((3 * (m * b + r)) / (2 * m)) % 2 == 0
  {
    if m <= 3 * r < 2 * m {
      if b == 0 {
        DivModUnique(3 * (m * b + r), 0, 3 * r, 2 * m);
      } else {
        DivModUnique(3 * (m * b + r), 2, 3 * r - m, 2 * m);
      }
    } else if 3 * r < m {
      DivModUnique(3 * r, 0, 3 * r, m);
    } else {
      DivModUnique(3 * r, 2, 3 * r - 2 * m, m);
    }
  }

  /** `(lo >>> 1) | (hi & 1) << 31`: limb `i` of `d >> 1`. */
  function ShiftedLimb(lo: Limb, hi: Limb): Limb {
    lo / 2 + 0x8000_0000 * (hi % 2)
  }

  /** The limb above `i`, or 0 above the top one. */
  function Above(d: seq<Limb>, i: nat): Limb
    requires i < |d|
  {
    if i + 1 < |d| then d[i + 1] else 0
  }

  lemma BitZero(v: int)
    ensures Bit(v, 0) == v % 2
  {
  }

  lemma ShiftedBit(d: seq<Limb>, i: nat, b: nat)
    requires i < |d| && b < 32
    ensures Bit(ShiftedLimb(d[i], Above(d, i)), b) == Bit(Val(d) / 2, 32 * i + b)
  {
    hide Val, Bit, Two;
    var lo, x := d[i] / 2, Above(d, i) % 2;
    TwoThirtyTwo();
    BitSucc(Val(d), 32 * i + b);
    if b < 31 {
      assert x * Two(31) == 0x8000_0000 * x;
      BitBelow(lo, x, 31, b);
      BitSucc(d[i], b);
      LimbBit(d, i, b + 1);
    } else {
      BitTop(lo, x);
      assert 32 * i + b + 1 == 32 * (i + 1) + 0;
      if i + 1 < |d| {
        LimbBit(d, i + 1, 0);
        BitZero(d[i + 1]);
      } else {
        BitBeyond(d);
      }
    }
  }

  lemma BitTop(lo: int, x: int)
    requires 0 <= lo < 0x8000_0000 && 0 <= x <= 1
    ensures Bit(lo + 0x8000_0000 * x, 31) == x
  {
    TwoThirtyTwo();
    DivModUnique(lo + 0x8000_0000 * x, x, lo, 0x8000_0000);
  }

  lemma BitBeyond(d: seq<Limb>)
    ensures Bit(Val(d), 32 * |d|) == 0
  {
    ValBound(d);
    PowIsTwo(|d|);
    DivModUnique(Val(d), 0, Val(d), Two(32 * |d|));
  }

  /** The digit at `j`, as the code reads it from `h = d + d/2 (mod 2^bits)` and the limbs of `d`. */
  lemma DigitFromLimbs(h: seq<Limb>, d: seq<Limb>, c: int, j: nat)
    requires |h| == |d| && j < 32 * |d|
    requires Val(h) + c * Pow(|d|) == Val(d) + Val(d) / 2
    ensures var i, b := j / 32, j % 32;
      Digit(Val(d), j) == Bit(h[i], b) - Bit(ShiftedLimb(d[i], Above(d, i)), b)
  {
    hide Val, Bit, Two, Pow;
    var i, b := j / 32, j % 32;
    LimbBit(h, i, b);
    ShiftedBit(d, i, b);
    PowIsTwo(|d|);
    BitBelow(Val(h), c, 32 * |d|, j);
  }
}
