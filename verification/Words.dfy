/** Machine words of the Java code, and the number a little-endian array of 32-bit limbs stands for.

    A Java `int` used as a limb is kept by its unsigned value (`x & LONG_MASK`).  A Java `long` is
    kept by its signed value and wraps explicitly (`ToLong`).
 */
module Words {

  type Limb = x: int | 0 <= x < 0x1_0000_0000

  /** Two's complement wrap to a signed 64-bit `long`. */
  function ToLong(v: int): (r: int)
    ensures -0x8000_0000_0000_0000 <= r < 0x8000_0000_0000_0000
    ensures r % 0x1_0000_0000_0000_0000 == v % 0x1_0000_0000_0000_0000
    ensures -0x8000_0000_0000_0000 <= v < 0x8000_0000_0000_0000 ==> r == v
  {
    var u := v % 0x1_0000_0000_0000_0000;
    if u < 0x8000_0000_0000_0000 then u else u - 0x1_0000_0000_0000_0000
  }

  /** The cast `(int) c`, read as an unsigned limb. */
  function Low(c: int): Limb {
    c % 0x1_0000_0000
  }

  /** The arithmetic shift `c >> 32` of a `long`. */
  function Asr32(c: int): int {
    c / 0x1_0000_0000
  }

  /** The logical shift `c >>> 32` of a `long`. */
  function Lsr32(c: int): (r: int)
    ensures 0 <= r < 0x1_0000_0000
  {
    (c % 0x1_0000_0000_0000_0000) / 0x1_0000_0000
  }

  /** A `long` that has wrapped past its sign still splits exactly into a limb and a logical carry. */
  lemma UnsignedSplit(v: int)
    requires 0 <= v < 0x1_0000_0000_0000_0000
    ensures v == Low(ToLong(v)) + 0x1_0000_0000 * Lsr32(ToLong(v))
  {
  }

  /** The signed reading of a limb, as Java's comparison operators see it. */
  function Signed(x: Limb): int {
    if x < 0x8000_0000 then x else x - 0x1_0000_0000
  }

  /** The weight of limb `n`. */
  function Pow(n: nat): (r: int)
    ensures r >= 1
  {
    if n == 0 then 1 else 0x1_0000_0000 * Pow(n - 1)
  }

  /** The number that a little-endian sequence of limbs stands for. */
  function Val(s: seq<Limb>): int {
    if s == [] then 0 else Val(s[..|s| - 1]) + s[|s| - 1] * Pow(|s| - 1)
  }

  ghost function V(a: array<Limb>): int
    reads a
  {
    Val(a[..])
  }

  lemma {:induction false} ValBound(s: seq<Limb>)
    ensures 0 <= Val(s) < Pow(|s|)
  {
    if s != [] {
      var n := |s| - 1;
      ValBound(s[..n]);
      MulLe(s[n], 0xFFFF_FFFF, Pow(n));
    }
  }

  lemma MulLe(x: int, y: int, w: int)
    requires 0 <= x <= y && 0 <= w
    ensures 0 <= x * w <= y * w
  {
  }

  lemma ValSnoc(s: seq<Limb>, i: nat)
    requires i < |s|
    ensures Val(s[..i + 1]) == Val(s[..i]) + s[i] * Pow(i)
  {
    assert s[..i + 1][..i] == s[..i];
  }

  lemma {:induction false} PowAdd(m: nat, n: nat)
    ensures Pow(m + n) == Pow(m) * Pow(n)
  {
    if n != 0 {
      PowAdd(m, n - 1);
      calc {
        Pow(m + n);
        0x1_0000_0000 * (Pow(m) * Pow(n - 1));
        Pow(m) * (0x1_0000_0000 * Pow(n - 1));
      }
    }
  }

  lemma {:induction false} ValAppend(s: seq<Limb>, t: seq<Limb>)
    ensures Val(s + t) == Val(s) + Pow(|s|) * Val(t)
  {
    if t == [] {
      assert s + t == s;
    } else {
      var n := |t| - 1;
      assert (s + t)[..|s + t| - 1] == s + t[..n];
      ValAppend(s, t[..n]);
      PowAdd(|s|, n);
      Regroup(Pow(|s|), Val(t[..n]), t[n], Pow(n));
    }
  }

  lemma Regroup(a: int, v: int, t: int, b: int)
    ensures a * v + t * (a * b) == a * (v + t * b)
  {
  }

  /** Numbers with the same limbs count are equal only when the limbs are. */
  lemma {:induction false} ValInjective(s: seq<Limb>, t: seq<Limb>)
    requires |s| == |t| && Val(s) == Val(t)
    ensures s == t
  {
    if s != [] {
      var n := |s| - 1;
      ValBound(s[..n]);
      ValBound(t[..n]);
      var p := Pow(n);
      if s[n] < t[n] {
        MulLe(s[n] + 1, t[n], p);
      } else if t[n] < s[n] {
        MulLe(t[n] + 1, s[n], p);
      }
      ValInjective(s[..n], t[..n]);
      assert s == s[..n] + [s[n]] && t == t[..n] + [t[n]];
    }
  }

  lemma {:induction false} ValZero(s: seq<Limb>)
    requires forall i :: 0 <= i < |s| ==> s[i] == 0
    ensures Val(s) == 0
  {
    if s != [] {
      ValZero(s[..|s| - 1]);
    }
  }

  /** One carry step of a limb loop: adding limb sums keeps the running equation. */
  lemma CarryStep(v: int, c: int, p: int, total: int, z: int, c': int, w: int)
    requires v + c * p == total
    requires z + 0x1_0000_0000 * c' == w + c
    ensures v + z * p + c' * (0x1_0000_0000 * p) == total + w * p
  {
    calc {
      v + z * p + c' * (0x1_0000_0000 * p);
      v + (z + 0x1_0000_0000 * c') * p;
      v + (w + c) * p;
      v + w * p + c * p;
    }
  }

  lemma Product32(x: Limb, y: Limb)
    ensures 0 <= x * y <= 0xFFFF_FFFF * 0xFFFF_FFFF
  {
    MulLe(x, 0xFFFF_FFFF, y);
    MulLe(y, 0xFFFF_FFFF, 0xFFFF_FFFF);
  }
}
