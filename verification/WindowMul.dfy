/** `ec_mul_window`: the same signed digits, three at a time through precomputed multiples 3s and 5s. */
module WindowMultiplication {
  import opened Words
  import opened Curves
  import opened Multiples
  import opened Jacobians
  import opened Powers
  import opened Recoding
  import opened Provider
  import opened ScalarMultiplication

  /** The precomputed odd multiples, on buffers of their own. */
  ghost predicate OddMultiples(e: ECCProvider, c: Curve, r: JacobianPoint,
                               s: AffinePoint, s3: AffinePoint, s5: AffinePoint)
    reads s.x, s.y, s3.x, s3.y, s5.x, s5.y
  {
    && Addend(e, c, r, s) && Addend(e, c, r, s3) && Addend(e, c, r, s5)
    && s3.Value() == Times(c, 3, s.Value()) && s5.Value() == Times(c, 5, s.Value())
    && s.y !in {s3.x, s3.y, s5.x, s5.y} && s3.y !in {s.x, s5.x, s5.y} && s5.y !in {s.x, s3.x}
  }

  lemma MultiplesAreCombinations(c: Curve, q: Point)
    ensures Combination(c, 3, q, 0, q) == Times(c, 3, q)
    ensures Combination(c, 5, q, 0, q) == Times(c, 5, q)
    ensures Combination(c, 1, q, 0, q) == q
  {
    hide Plus, Times, Combination;
    CombinationSingle(c, 3, q);
    CombinationSingle(c, 5, q);
    CombinationOne(c, q);
  }

  /** The digit two tests of the source read: 1, -1 or 0. */
  function DigitAt(hi: Limb, ki: Limb, j: nat): int {
    Bit(hi, j % 32) - Bit(ki, j % 32)
  }

  /** `r = 4 r`. */
  method QuadrupleStep(e: ECCProvider, r: JacobianPoint, ghost c: Curve, ghost m: int, ghost q: Point)
    requires e.Valid() && e.Apart(r) && IsP384(c) && OnCurve(c, q)
    requires Holds(c, r, m, q, 0, q)
    modifies r.x, r.y, r.z, e.t1, e.t2, e.a
    ensures Holds(c, r, 4 * m, q, 0, q)
  {
    hide Plus, Combination, OnCurve, IsGroup, Represents;
    DoubleStep(e, r, c, m, q, 0, q);
    DoubleStep(e, r, c, 2 * m, q, 0, q);
    assert 2 * (2 * m) == 4 * m;
  }

  /** A turn of the window loop: one zero digit, or a nonzero digit together with the two below it. */
  method EcMulWindowAux(e: ECCProvider, r: JacobianPoint, j0: int,
                        hi: Limb, kai: Limb, kip1: Limb, hi2: Limb, kai2: Limb, ki2p1: Limb,
                        s: AffinePoint, s3: AffinePoint, s5: AffinePoint, ghost c: Curve, ghost m: int)
    returns (j: int)
    requires e.Valid() && e.Apart(r) && IsP384(c) && OddMultiples(e, c, r, s, s3, s5) && j0 >= 2
    requires Holds(c, r, m, s.Value(), 0, s.Value())
    modifies r.x, r.y, r.z, s.y, s3.y, s5.y, e.t1, e.t2, e.t3, e.a
    ensures OddMultiples(e, c, r, s, s3, s5) && s.Value() == old(s.Value())
    ensures var d, d2 := DigitAt(hi, ShiftedLimb(kai, kip1), j0), DigitAt(hi2, ShiftedLimb(kai2, ki2p1), j0 - 2);
      if d == 0 then j == j0 - 1 && Holds(c, r, 2 * m, s.Value(), 0, s.Value())
      else j == j0 - 3 && Holds(c, r, 8 * m + 4 * d + d2, s.Value(), 0, s.Value())
  {
    hide Bit, Plus, Times, Combination, OnCurve, IsGroup, Represents, ShiftedLimb, Holds, IsP384, Two;
    j := j0;
    var ki := ShiftedLimb(kai, kip1);
    ghost var v := s.Value();
    BitRange(hi, j % 32);
    BitRange(ki, j % 32);
    DoubleStep(e, r, c, m, v, 0, v);
    if Tests(hi, j) && !Tests(ki, j) {
      j := j - 2;
      WindowUp(e, r, hi2, ShiftedLimb(kai2, ki2p1), j, s, s3, s5, c, 2 * m);
      j := j - 1;
    } else if !Tests(hi, j) && Tests(ki, j) {
      j := j - 2;
      WindowDown(e, r, hi2, ShiftedLimb(kai2, ki2p1), j, s, s3, s5, c, 2 * m);
      j := j - 1;
    } else {
      j := j - 1;
    }
  }

  /** A digit 1 with the digit two below it: add 5s, 3s or s. */
  method WindowUp(e: ECCProvider, r: JacobianPoint, hi2: Limb, ki2: Limb, j: nat,
                  s: AffinePoint, s3: AffinePoint, s5: AffinePoint, ghost c: Curve, ghost m: int)
    requires e.Valid() && e.Apart(r) && IsP384(c) && OddMultiples(e, c, r, s, s3, s5)
    requires Holds(c, r, m, s.Value(), 0, s.Value())
    modifies r.x, r.y, r.z, e.t1, e.t2, e.t3, e.a
    ensures OddMultiples(e, c, r, s, s3, s5) && s.Value() == old(s.Value())
    ensures Holds(c, r, 4 * m + 4 + DigitAt(hi2, ki2, j), s.Value(), 0, s.Value())
  {
    hide Bit, Plus, Times, Combination, OnCurve, IsGroup, Represents;
    ghost var v := s.Value();
    MultiplesAreCombinations(c, v);
    BitRange(hi2, j % 32);
    BitRange(ki2, j % 32);
    if Tests(hi2, j) && !Tests(ki2, j) {
      QuadrupleStep(e, r, c, m, v);
      AddStep(e, r, s5, c, 4 * m, v, 0, v, 5, 0);
    } else if !Tests(hi2, j) && Tests(ki2, j) {
      QuadrupleStep(e, r, c, m, v);
      AddStep(e, r, s3, c, 4 * m, v, 0, v, 3, 0);
    } else {
      AddStep(e, r, s, c, m, v, 0, v, 1, 0);
      QuadrupleStep(e, r, c, m + 1, v);
    }
  }

  /** A digit -1 with the digit two below it: subtract 3s, 5s or s. */
  method WindowDown(e: ECCProvider, r: JacobianPoint, hi2: Limb, ki2: Limb, j: nat,
                    s: AffinePoint, s3: AffinePoint, s5: AffinePoint, ghost c: Curve, ghost m: int)
    requires e.Valid() && e.Apart(r) && IsP384(c) && OddMultiples(e, c, r, s, s3, s5)
    requires Holds(c, r, m, s.Value(), 0, s.Value())
    modifies r.x, r.y, r.z, s.y, s3.y, s5.y, e.t1, e.t2, e.t3, e.a
    ensures OddMultiples(e, c, r, s, s3, s5) && s.Value() == old(s.Value())
    ensures Holds(c, r, 4 * m - 4 + DigitAt(hi2, ki2, j), s.Value(), 0, s.Value())
  {
    hide Bit, Plus, Times, Combination, OnCurve, IsGroup, Represents;
    ghost var v := s.Value();
    MultiplesAreCombinations(c, v);
    BitRange(hi2, j % 32);
    BitRange(ki2, j % 32);
    if Tests(hi2, j) && !Tests(ki2, j) {
      QuadrupleStep(e, r, c, m, v);
      SubStep(e, r, s3, c, 4 * m, v, 0, v, 3, 0);
    } else if !Tests(hi2, j) && Tests(ki2, j) {
      QuadrupleStep(e, r, c, m, v);
      SubStep(e, r, s5, c, 4 * m, v, 0, v, 5, 0);
    } else {
      SubStep(e, r, s, c, m, v, 0, v, 1, 0);
      QuadrupleStep(e, r, c, m - 1, v);
    }
  }

  /** The digits the window loop leaves: two, one or none. */
  method EcMulWindowFinish(e: ECCProvider, r: JacobianPoint, j: int, hi: Limb, ki: Limb, s: AffinePoint,
                           ghost c: Curve, ghost m: int, ghost d0: int, ghost d1: int)
    requires e.Valid() && e.Apart(r) && IsP384(c) && Addend(e, c, r, s) && -1 <= j <= 1
    requires Holds(c, r, m, s.Value(), 0, s.Value())
    requires d0 == Bit(hi, 0) - Bit(ki, 1) && d1 == Bit(hi, 1) - Bit(ki, 2)
    requires d0 == 0 || d1 == 0
    modifies r.x, r.y, r.z, s.y, e.t1, e.t2, e.t3, e.a
    ensures s.y[..] == old(s.y[..]) && Addend(e, c, r, s)
    ensures Holds(c, r, if j == 1 then 4 * m + 2 * d1 + d0 else if j == 0 then 2 * m + d0 else m,
                  s.Value(), 0, s.Value())
  {
    hide Bit, Plus, Times, Combination, OnCurve, IsGroup, Represents;
    ghost var v := s.Value();
    BitRange(hi, 0);
    BitRange(hi, 1);
    BitRange(ki, 1);
    BitRange(ki, 2);
    CombinationOne(c, v);
    if j == 1 {
      DoubleStep(e, r, c, m, v, 0, v);
      if Tests(hi, 1) && !Tests(ki, 2) {
        AddStep(e, r, s, c, 2 * m, v, 0, v, 1, 0);
        DoubleStep(e, r, c, 2 * m + 1, v, 0, v);
      } else if !Tests(hi, 1) && Tests(ki, 2) {
        SubStep(e, r, s, c, 2 * m, v, 0, v, 1, 0);
        DoubleStep(e, r, c, 2 * m - 1, v, 0, v);
      } else {
        DoubleStep(e, r, c, 2 * m, v, 0, v);
        if Tests(hi, 0) && !Tests(ki, 1) {
          AddStep(e, r, s, c, 2 * (2 * m), v, 0, v, 1, 0);
        } else if !Tests(hi, 0) && Tests(ki, 1) {
          SubStep(e, r, s, c, 2 * (2 * m), v, 0, v, 1, 0);
        }
      }
    } else if j == 0 {
      DoubleStep(e, r, c, m, v, 0, v);
      if Tests(hi, 0) && !Tests(ki, 1) {
        AddStep(e, r, s, c, 2 * m, v, 0, v, 1, 0);
      } else if !Tests(hi, 0) && Tests(ki, 1) {
        SubStep(e, r, s, c, 2 * m, v, 0, v, 1, 0);
      }
    }
  }

  /** Three digits at once, the middle one zero. */
  lemma PrefixThree(d: int, j: nat)
    requires j >= 2 && Digit(d, j) != 0
    ensures Prefix(d, j - 2) == 8 * Prefix(d, j + 1) + 4 * Digit(d, j) + Digit(d, j - 2)
  {
    hide Prefix, Digit;
    NonAdjacent(d, j - 1);
    PrefixStep(d, j);
    PrefixStep(d, j - 1);
    PrefixStep(d, j - 2);
  }

  /** `r = d * s` for every 384-bit `d`; the guard `c > 0` never ends the loop early. */
  method EcMulWindow(e: ECCProvider, r: JacobianPoint, d: array<Limb>,
                     s: AffinePoint, s3: AffinePoint, s5: AffinePoint, ghost c: Curve)
    requires e.Valid() && e.Apart(r) && IsP384(c) && OddMultiples(e, c, r, s, s3, s5)
    requires d.Length == 12 && e.Foreign(d) && d !in {r.x, r.y, r.z, s.y, s3.y, s5.y}
    modifies e.h, r.x, r.y, r.z, s.y, s3.y, s5.y, e.t1, e.t2, e.t3, e.a
    ensures OddMultiples(e, c, r, s, s3, s5) && s.Value() == old(s.Value())
    ensures Represents(c, r.Value(), Times(c, V(d), s.Value()))
  {
    hide Val, Pow, Plus, Times, Combination, OnCurve, IsGroup, Represents, Prefix, Digit, Bit, ShiftedLimb, IsP384, Two;
    ghost var vd, v, ds := V(d), s.Value(), d[..];
    ghost var carry := EcMulInit(e, r, d, s, c);
    ghost var hs := e.h[..];
    var j := 383;
    var n := j;
    while j >= 2 && n > 0
      invariant -1 <= j <= 383 && n >= j
      invariant e.Valid() && OddMultiples(e, c, r, s, s3, s5) && e.h[..] == hs && d[..] == ds && s.Value() == v
      invariant Holds(c, r, Prefix(vd, j + 1), v, 0, v)
      decreases n
    {
      var i, i2 := j / 32, (j - 2) / 32;
      WindowDigits(hs, ds, carry, j);
      j := EcMulWindowAux(e, r, j, e.h[i], d[i], if i < 11 then d[i + 1] else 0,
                          e.h[i2], d[i2], if i2 < 11 then d[i2 + 1] else 0, s, s3, s5, c, Prefix(vd, j + 1));
      n := n - 1;
    }
    LastDigits(hs, ds, carry);
    PrefixStep(vd, 0);
    PrefixStep(vd, 1);
    NonAdjacent(vd, 0);
    EcMulWindowFinish(e, r, j, e.h[0], d[0], s, c, Prefix(vd, j + 1), Digit(vd, 0), Digit(vd, 1));
    PrefixDone(vd);
    CombinationSingle(c, vd, v);
  }

  lemma WindowDigits(h: seq<Limb>, d: seq<Limb>, carry: int, j: nat)
    requires |h| == |d| == 12 && 2 <= j <= 383
    requires Val(h) + carry * Pow(12) == Val(d) + Val(d) / 2
    ensures var i, i2 := j / 32, (j - 2) / 32;
      && DigitAt(h[i], ShiftedLimb(d[i], Above(d, i)), j) == Digit(Val(d), j)
      && DigitAt(h[i2], ShiftedLimb(d[i2], Above(d, i2)), j - 2) == Digit(Val(d), j - 2)
    ensures if Digit(Val(d), j) == 0 then Prefix(Val(d), j) == 2 * Prefix(Val(d), j + 1)
      else Prefix(Val(d), j - 2) == 8 * Prefix(Val(d), j + 1) + 4 * Digit(Val(d), j) + Digit(Val(d), j - 2)
  {
    hide Val, Pow, Prefix, Digit, Bit, ShiftedLimb;
    DigitFromLimbs(h, d, carry, j);
    DigitFromLimbs(h, d, carry, j - 2);
    PrefixStep(Val(d), j);
    if Digit(Val(d), j) != 0 {
      PrefixThree(Val(d), j);
    }
  }

  lemma LastDigits(h: seq<Limb>, d: seq<Limb>, carry: int)
    requires |h| == |d| == 12
    requires Val(h) + carry * Pow(12) == Val(d) + Val(d) / 2
    ensures Digit(Val(d), 0) == Bit(h[0], 0) - Bit(d[0], 1)
    ensures Digit(Val(d), 1) == Bit(h[0], 1) - Bit(d[0], 2)
  {
    hide Val, Pow, Prefix, Digit, Bit, ShiftedLimb;
    DigitFromLimbs(h, d, carry, 0);
    DigitFromLimbs(h, d, carry, 1);
    ShiftedBit(d, 0, 0);
    ShiftedBit(d, 0, 1);
    BitSucc(Val(d), 0);
    BitSucc(Val(d), 1);
    LimbBit(d, 0, 1);
    LimbBit(d, 0, 2);
  }
}
