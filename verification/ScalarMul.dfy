/** `ec_mul` and `ec_mul_window`: scalar multiplication by signed digits, on the provider's arrays. */
module ScalarMultiplication {
  import opened Words
  import opened Limbs
  import opened P384Field
  import opened Curves
  import opened Multiples
  import opened Jacobians
  import opened Recoding
  import opened Provider

  /** A curve over the provider's field whose points form a group. */
  ghost predicate IsP384(c: Curve) {
    c.p == Prime() && IsGroup(c)
  }

  /** `r` holds the combination `j q + k s`. */
  ghost predicate Holds(c: Curve, r: JacobianPoint, j: int, q: Point, k: int, s: Point)
    reads r.x, r.y, r.z
  {
    Represents(c, r.Value(), Combination(c, j, q, k, s))
  }

  /** `t` may be added to `r`: sound, reduced, on the curve, and apart from `r` and the provider's buffers. */
  ghost predicate Addend(e: ECCProvider, c: Curve, r: JacobianPoint, t: AffinePoint)
    reads t.x, t.y
  {
    && t.Sound()
    && e.AwayFrom(t, r)
    && OnCurve(c, t.Value())
  }

  // Group steps

  method DoubleStep(e: ECCProvider, r: JacobianPoint, ghost c: Curve, ghost j: int, ghost q: Point, ghost k: int,
                    ghost s: Point)
    requires e.Valid() && e.Apart(r) && IsP384(c) && OnCurve(c, q) && OnCurve(c, s)
    requires Holds(c, r, j, q, k, s)
    modifies r.x, r.y, r.z, e.t1, e.t2, e.a
    ensures Holds(c, r, 2 * j, q, 2 * k, s)
  {
    hide Double, Plus, Combination, OnCurve, Associative;
    CombinationClosed(c, j, q, k, s);
    DoubleCorrect(c, r.Value(), Combination(c, j, q, k, s));
    CombinationAdd(c, j, k, j, k, q, s);
    assert j + j == 2 * j && k + k == 2 * k;
    e.EcDouble(r);
  }

  method AddStep(e: ECCProvider, r: JacobianPoint, t: AffinePoint, ghost c: Curve,
                 ghost j: int, ghost q: Point, ghost k: int, ghost s: Point, ghost j': int, ghost k': int)
    requires e.Valid() && e.Apart(r) && IsP384(c) && OnCurve(c, q) && OnCurve(c, s)
    requires Addend(e, c, r, t) && t.Value() == Combination(c, j', q, k', s)
    requires Holds(c, r, j, q, k, s)
    modifies r.x, r.y, r.z, e.t1, e.t2, e.t3, e.a
    ensures Holds(c, r, j + j', q, k + k', s)
  {
    hide FullAdd, Plus, Combination, OnCurve, Associative;
    CombinationClosed(c, j, q, k, s);
    FullAddCorrect(c, r.Value(), Combination(c, j, q, k, s), t.Value());
    CombinationAdd(c, j, k, j', k', q, s);
    e.EcFullAdd(r, t);
  }

  method SubStep(e: ECCProvider, r: JacobianPoint, t: AffinePoint, ghost c: Curve,
                 ghost j: int, ghost q: Point, ghost k: int, ghost s: Point, ghost j': int, ghost k': int)
    requires e.Valid() && e.Apart(r) && IsP384(c) && OnCurve(c, q) && OnCurve(c, s)
    requires Addend(e, c, r, t) && t.Value() == Combination(c, j', q, k', s)
    requires Holds(c, r, j, q, k, s)
    modifies r.x, r.y, r.z, t.y, e.t1, e.t2, e.t3, e.a
    ensures Holds(c, r, j - j', q, k - k', s)
    ensures t.y[..] == old(t.y[..]) && Addend(e, c, r, t) && t.Value() == old(t.Value())
  {
    hide FullAdd, Plus, Combination, Associative;
    ghost var v := t.Value();
    CombinationClosed(c, j, q, k, s);
    NegByPrime(c, v);
    NegClosed(c, v);
    FullAddCorrect(c, r.Value(), Combination(c, j, q, k, s), Neg(c, v));
    CombinationSub(c, j, k, j', k', q, s);
    e.EcFullSub(r, t);
  }

  // Plain signed-digit multiplication

  lemma CombinationOne(c: Curve, q: Point)
    ensures Combination(c, 1, q, 0, q) == q && Combination(c, 0, q, 0, q) == Infinity
  {
    assert Times(c, 0, q) == Infinity && Times(c, 1, q) == Plus(c, Infinity, q);
  }

  /** `h = d + d/2`, and `r` starts with the carry. */
  method EcMulInit(e: ECCProvider, r: JacobianPoint, d: array<Limb>, s: AffinePoint, ghost c: Curve)
    returns (ghost carry: int)
    requires e.Valid() && e.Apart(r) && IsP384(c) && Addend(e, c, r, s)
    requires d.Length == 12 && e.Foreign(d) && d !in {r.x, r.y, r.z}
    modifies e.h, r.x, r.y, r.z
    ensures V(e.h) + carry * Pow(12) == V(d) + V(d) / 2
    ensures Holds(c, r, Prefix(V(d), 384), s.Value(), 0, s.Value())
  {
    hide Val, Pow, Plus, Combination, OnCurve, Associative, Prefix;
    ghost var vd := V(d);
    Below(d[..]);
    Shr(e.h, 0, d);
    var c0 := Add(e.h, d, e.h);
    Below(e.h[..]);
    PowIsTwo(12);
    PowHigh();
    carry := c0;
    assert V(e.h) + carry * Pow(12) == vd + vd / 2;
    PrefixTop(vd, 384, V(e.h), carry);
    CombinationOne(c, s.Value());
    if c0 != 0 {
      Assign(r.x, s.x);
      Assign(r.y, s.y);
      SetUnit(r.z);
      RepresentsUnit(c, s.Value());
    } else {
      SetUnit(r.x);
      SetUnit(r.y);
      SetZero(r.z);
    }
  }

  /** `(x & (1 << j)) != 0`. */
  predicate Tests(x: Limb, j: nat) {
    Bit(x, j % 32) == 1
  }

  /** One digit: double, then add or subtract `s` as the bits of `h` and `d/2` say. */
  method EcMulAux(e: ECCProvider, r: JacobianPoint, s: AffinePoint, j: nat, hi: Limb, dAtI: Limb, dAtIp1: Limb,
                  ghost c: Curve, ghost m: int)
    requires e.Valid() && e.Apart(r) && IsP384(c) && Addend(e, c, r, s)
    requires Holds(c, r, m, s.Value(), 0, s.Value())
    modifies r.x, r.y, r.z, s.y, e.t1, e.t2, e.t3, e.a
    ensures s.y[..] == old(s.y[..]) && Addend(e, c, r, s)
    ensures Holds(c, r, 2 * m + Bit(hi, j % 32) - Bit(ShiftedLimb(dAtI, dAtIp1), j % 32), s.Value(), 0, s.Value())
  {
    hide Bit, Plus, Combination, OnCurve, IsGroup, Represents;
    var ki := ShiftedLimb(dAtI, dAtIp1);
    ghost var v := s.Value();
    BitRange(hi, j % 32);
    BitRange(ki, j % 32);
    DoubleStep(e, r, c, m, v, 0, v);
    CombinationOne(c, v);
    if Tests(hi, j) && !Tests(ki, j) {
      AddStep(e, r, s, c, 2 * m, v, 0, v, 1, 0);
    } else if !Tests(hi, j) && Tests(ki, j) {
      SubStep(e, r, s, c, 2 * m, v, 0, v, 1, 0);
    }
  }

  lemma BitRange(v: int, j: nat)
    ensures 0 <= Bit(v, j) <= 1
  {
  }

  /** `r = d * s` for every 384-bit `d`. */
  method EcMul(e: ECCProvider, r: JacobianPoint, d: array<Limb>, s: AffinePoint, ghost c: Curve)
    requires e.Valid() && e.Apart(r) && IsP384(c) && Addend(e, c, r, s)
    requires d.Length == 12 && e.Foreign(d) && d !in {r.x, r.y, r.z, s.y}
    modifies e.h, r.x, r.y, r.z, s.y, e.t1, e.t2, e.t3, e.a
    ensures s.y[..] == old(s.y[..]) && s.x[..] == old(s.x[..])
    ensures Represents(c, r.Value(), Times(c, V(d), s.Value()))
  {
    hide Val, Pow, Plus, Combination, OnCurve, IsGroup, Represents, Prefix, Digit, Bit, ShiftedLimb;
    ghost var vd, v, ds, ys := V(d), s.Value(), d[..], s.y[..];
    ghost var carry := EcMulInit(e, r, d, s, c);
    ghost var hs := e.h[..];
    var j := 383;
    while j >= 0
      invariant -1 <= j <= 383
      invariant e.Valid() && Addend(e, c, r, s) && e.h[..] == hs && d[..] == ds && s.y[..] == ys && s.Value() == v
      invariant Holds(c, r, Prefix(vd, j + 1), v, 0, v)
    {
      var i := j / 32;
      DigitFromLimbs(hs, ds, carry, j);
      PrefixStep(vd, j);
      EcMulAux(e, r, s, j, e.h[i], d[i], if i < 11 then d[i + 1] else 0, c, Prefix(vd, j + 1));
      j := j - 1;
    }
    PrefixDone(vd);
    CombinationSingle(c, vd, v);
  }

  lemma CombinationSingle(c: Curve, k: int, q: Point)
    ensures Combination(c, k, q, 0, q) == Times(c, k, q)
  {
    assert Times(c, 0, q) == Infinity;
  }
}
