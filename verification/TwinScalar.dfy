/** `ec_twin_mul` on the provider's arrays: d0 * s + d1 * t. */
module TwinScalar {
  import opened Words
  import opened Limbs
  import opened ModArith
  import opened Residues
  import opened P384Field
  import opened Curves
  import opened Multiples
  import opened Jacobians
  import opened Provider
  import opened ScalarMultiplication
  import opened TwinMultiplication
  import opened AffineForm
  import ModDiv

  // Scalars modulo the order of a point

  /** Multiples of a point of order dividing `n` depend on the scalar modulo `n` only. */
  lemma OrderReduces(c: Curve, n: int, k: int, q: Point)
    requires IsGroup(c) && OnCurve(c, q) && n > 0 && Times(c, n, q) == Infinity
    ensures Times(c, k % n, q) == Times(c, k, q)
  {
    hide Plus, Times, OnCurve, IsGroup;
    TimesTimes(c, k / n, n, q);
    TimesInfinity(c, k / n);
    TimesPlus(c, (k / n) * n, k % n, q);
    TimesClosed(c, k % n, q);
    PlusInfinity(c, Times(c, k % n, q));
    assert (k / n) * n + k % n == k;
  }

  lemma {:induction false} TimesInfinity(c: Curve, k: int)
    ensures Times(c, k, Infinity) == Infinity
    decreases if k < 0 then -k else k
  {
    if k > 0 {
      TimesInfinity(c, k - 1);
    } else if k < 0 {
      TimesInfinity(c, k + 1);
    }
  }

  /** `s` and its opposite combine to a multiple of `s`. */
  lemma OppositeCombination(c: Curve, j: int, k: int, q: Point)
    requires IsGroup(c) && OnCurve(c, q)
    ensures Combination(c, j, q, k, Neg(c, q)) == Times(c, j - k, q)
  {
    hide Plus, Times, OnCurve, Neg, IsGroup;
    TimesNeg(c, 1, q);
    TimesOne(c, q);
    TimesTimes(c, k, -1, q);
    assert k * -1 == -k && -(1) == -1;
    TimesPlus(c, j, -k, q);
    assert j + -k == j - k;
  }

  lemma SameCombination(c: Curve, j: int, k: int, q: Point)
    requires IsGroup(c) && OnCurve(c, q)
    ensures Combination(c, j, q, k, q) == Times(c, j + k, q)
  {
    hide Plus, Times, OnCurve, IsGroup;
    TimesPlus(c, j, k, q);
  }

  /** Multiples of a point of prime order `n` below `n` are finite. */
  lemma SmallMultipleFinite(c: Curve, n: int, k: int, g: Point)
    requires IsGroup(c) && OnCurve(c, g) && g.Affine? && IsPrime(n) && 0 < k < n
    requires Times(c, n, g) == Infinity
    ensures Times(c, k, g).Affine?
  {
    hide Cong, Plus, Times, OnCurve, IsGroup;
    if Times(c, k, g) == Infinity {
      var d, u, v := Bezout(n, k);
      DividesBound(d, k);
      assert d == 1;
      TimesTimes(c, u, n, g);
      TimesTimes(c, v, k, g);
      TimesInfinity(c, u);
      TimesInfinity(c, v);
      TimesPlus(c, u * n, v * k, g);
      PlusInfinity(c, Infinity);
      TimesOne(c, g);
    }
  }

  // Sums and differences of scalars

  /** What `group_add` makes of two 384-bit scalars: one subtraction, and a carry taken as read. */
  function AddedOnce(a: int, b: int): int {
    var s, n, w := a + b, Order(), TwoTo384();
    if s < n then s else if s < n + w then s - n else s - n - w
  }

  /** `z = x + y (mod group_order)` for reduced operands, and what it is for others. */
  method GroupAdd(e: ECCProvider, z: array<Limb>, x: array<Limb>, y: array<Limb>)
    requires e.Valid() && e.Writable(z) && x.Length == 12 && y.Length == 12
    modifies z
    ensures V(z) == AddedOnce(old(V(x)), old(V(y)))
  {
    hide Val;
    OrderIs();
    Below(x[..]);
    Below(y[..]);
    var c := Add(z, x, y);
    PowHigh();
    Below(z[..]);
    var above := false;
    if c == 0 {
      above := Leq(e.group_order, z);
    }
    if c != 0 || above {
      var d := Sub(z, z, e.group_order);
      Below(z[..]);
    }
  }

  lemma ReducedSum(a: int, b: int)
    requires 0 <= a < Order() && 0 <= b < Order()
    ensures AddedOnce(a, b) == (a + b) % Order()
  {
    OrderIs();
    DivModUnique(a + b, if a + b < Order() then 0 else 1, AddedOnce(a, b), Order());
  }

  /** One correction is enough for the sum of the scalars, or for their difference. */
  predicate OneCorrection(a: int, b: int, same: bool) {
    if same then a + b < Order() + TwoTo384() else b <= a + Order()
  }

  /** The scalar that is multiplied with, and the one that should be. */
  function Corrected(a: int, b: int, same: bool): int {
    if same then AddedOnce(a, b) else ModDiv.SubtractedOnce(a, b, Order(), TwoTo384())
  }

  function Wanted(a: int, b: int, same: bool): int {
    if same then a + b else a - b
  }

  /** Not all scalars of 384 bits are within one correction. */
  lemma SumTooLarge()
    ensures var top := TwoTo384() - 1; !OneCorrection(top, top, true) && !OneCorrection(0, top, false)
  {
    OrderIs();
  }

  /** Reduced scalars are. */
  lemma ReducedIsEnough(a: int, b: int, same: bool)
    requires 0 <= a < Order() && 0 <= b < Order()
    ensures OneCorrection(a, b, same)
  {
    OrderIs();
  }

  /** A point of the group, whose order is prime. */
  ghost predicate OfOrder(c: Curve, q: Point) {
    IsPrime(Order()) && Times(c, Order(), q) == Infinity
  }

  /** The scalar is off by the order or not at all, or by `2^384` as well. */
  lemma CorrectedIs(a: int, b: int, same: bool)
    ensures var d := Wanted(a, b, same) - Corrected(a, b, same);
      if OneCorrection(a, b, same) then d in {0, Order(), -Order()}
      else d in {Order() + TwoTo384(), -(Order() + TwoTo384())}
  {
  }

  /** `2^384` times a point of the group is not infinity. */
  lemma TopMultiple(c: Curve, q: Point)
    requires IsP384(c) && OnCurve(c, q) && q.Affine? && OfOrder(c, q)
    ensures Times(c, Order() + TwoTo384(), q) != Infinity && Times(c, -(Order() + TwoTo384()), q) != Infinity
  {
    hide Plus, Times, OnCurve, IsPrime, IsGroup, TwoTo384, Order;
    var n, w := Order(), TwoTo384();
    OrderBounds();
    DivModUnique(n + w, 2, w - n, n);
    OrderReduces(c, n, n + w, q);
    SmallMultipleFinite(c, n, w - n, q);
    TimesNeg(c, n + w, q);
  }

  lemma OrderBounds()
    ensures 0 < Order() < TwoTo384() < 2 * Order()
  {
    OrderIs();
  }

  /** The point is right exactly when one correction is enough. */
  lemma CorrectedDecides(c: Curve, q: Point, a: int, b: int, same: bool)
    requires IsP384(c) && OnCurve(c, q) && q.Affine? && OfOrder(c, q)
    ensures OneCorrection(a, b, same) <==> Times(c, Corrected(a, b, same), q) == Times(c, Wanted(a, b, same), q)
  {
    hide Plus, Times, OnCurve, IsPrime, IsGroup, TwoTo384, Order, Corrected, Wanted, OneCorrection;
    var k, s, n := Corrected(a, b, same), Wanted(a, b, same), Order();
    CorrectedIs(a, b, same);
    TimesSub(c, s, k, q);
    if OneCorrection(a, b, same) {
      OffByOrder(c, k, s, q);
    } else {
      TopMultiple(c, q);
      PlusNeg(c, Times(c, k, q));
    }
  }

  lemma OffByOrder(c: Curve, k: int, s: int, q: Point)
    requires IsP384(c) && OnCurve(c, q) && OfOrder(c, q) && s - k in {0, Order(), -Order()}
    ensures Times(c, k, q) == Times(c, s, q)
  {
    hide Plus, Times, OnCurve, IsPrime, IsGroup, Order, Cong;
    var n := Order();
    CongBy(k, s, if s == k then 0 else if s > k then -1 else 1, n);
    CongMod(k, s, n);
    OrderReduces(c, n, k, q);
    OrderReduces(c, n, s, q);
  }

  // Buffers

  /** All the points of `ec_twin_mul` lie on buffers of their own. */
  ghost predicate TwinApart(e: ECCProvider, r: JacobianPoint, s: AffinePoint, t: AffinePoint,
                            pp: JacobianPoint, mp: JacobianPoint, p: AffinePoint, m: AffinePoint)
  {
    && e.Apart(r) && e.Apart(pp) && e.Apart(mp) && s.Sound() && t.Sound() && p.Sound() && m.Sound()
    && e.AwayFrom(s, r) && e.AwayFrom(s, pp) && e.AwayFrom(s, mp)
    && e.AwayFrom(t, r) && e.AwayFrom(t, pp) && e.AwayFrom(t, mp)
    && e.AwayFrom(p, r) && e.AwayFrom(p, pp) && e.AwayFrom(p, mp)
    && e.AwayFrom(m, r) && e.AwayFrom(m, pp) && e.AwayFrom(m, mp)
    && pp.x !in {mp.x, mp.y, mp.z} && pp.y !in {mp.x, mp.y, mp.z} && pp.z !in {mp.x, mp.y, mp.z}
    && r.x !in {pp.x, pp.y, pp.z, mp.x, mp.y, mp.z}
    && r.y !in {pp.x, pp.y, pp.z, mp.x, mp.y, mp.z}
    && r.z !in {pp.x, pp.y, pp.z, mp.x, mp.y, mp.z}
    && s.x !in {t.x, t.y, p.x, p.y, m.x, m.y} && s.y !in {t.x, t.y, p.x, p.y, m.x, m.y}
    && t.x !in {p.x, p.y, m.x, m.y} && t.y !in {p.x, p.y, m.x, m.y}
    && p.x !in {m.x, m.y} && p.y !in {m.x, m.y}
  }

  /** Differently numbered buffers are apart. */
  lemma HomesAreApart(home: map<array<Limb>, int>, e: ECCProvider, r: JacobianPoint, s: AffinePoint, t: AffinePoint,
                      pp: JacobianPoint, mp: JacobianPoint, p: AffinePoint, m: AffinePoint)
    requires ProviderHome(home, e)
    requires JacobianHome(home, r, 10) && JacobianHome(home, pp, 20) && JacobianHome(home, mp, 30)
    requires AffineHome(home, s, 40) && AffineHome(home, t, 50) && AffineHome(home, p, 60) && AffineHome(home, m, 70)
    ensures TwinApart(e, r, s, t, pp, mp, p, m)
  {
  }

  // Initialization

  /** `pp = s + t`. */
  method ProjectSum(e: ECCProvider, pp: JacobianPoint, s: AffinePoint, t: AffinePoint, ghost c: Curve)
    requires e.Valid() && IsP384(c) && e.Apart(pp) && Addend(e, c, pp, s) && Addend(e, c, pp, t)
    modifies pp.x, pp.y, pp.z, e.t1, e.t2, e.t3, e.a
    ensures Represents(c, pp.Value(), Plus(c, s.Value(), t.Value()))
  {
    hide Val, Prime, Plus, FullAdd, IsGroup, OnCurve;
    assert IsField(c) by { GroupIsField(c); }
    ghost var vs, vt := s.Value(), t.Value();
    EcProjectify(pp, s);
    RepresentsUnit(c, vs);
    FullAddCorrect(c, pp.Value(), vs, vt);
    e.EcFullAdd(pp, t);
  }

  /** `mp = s - t`. */
  method ProjectDifference(e: ECCProvider, mp: JacobianPoint, s: AffinePoint, t: AffinePoint, ghost c: Curve)
    requires e.Valid() && IsP384(c) && e.Apart(mp) && Addend(e, c, mp, s) && Addend(e, c, mp, t)
    requires t.y !in {s.x, s.y}
    modifies mp.x, mp.y, mp.z, t.y, e.t1, e.t2, e.t3, e.a
    ensures t.y[..] == old(t.y[..])
    ensures Represents(c, mp.Value(), Plus(c, s.Value(), Neg(c, t.Value())))
  {
    hide Val, Prime, Plus, Neg, FullAdd, IsGroup;
    assert IsField(c) by { GroupIsField(c); }
    ghost var vs, vt := s.Value(), t.Value();
    EcProjectify(mp, s);
    RepresentsUnit(c, vs);
    NegByPrime(c, vt);
    NegClosed(c, vt);
    FullAddCorrect(c, mp.Value(), vs, Neg(c, vt));
    e.EcFullSub(mp, t);
  }

  lemma GroupIsField(c: Curve)
    requires IsGroup(c)
    ensures IsField(c)
  {
  }

  /** Distinct abscissae: neither sum nor difference is the point at infinity. */
  lemma SumsFinite(c: Curve, q: Point, r: Point)
    requires IsField(c) && OnCurve(c, q) && OnCurve(c, r) && q.Affine? && r.Affine? && q.x != r.x
    ensures Plus(c, q, r).Affine? && Plus(c, q, Neg(c, r)).Affine?
    ensures OnCurve(c, Plus(c, q, r)) && OnCurve(c, Plus(c, q, Neg(c, r)))
  {
    NegClosed(c, r);
    PlusClosed(c, q, r);
    PlusClosed(c, q, Neg(c, r));
  }

  /** The coefficients of the sum and the difference. */
  lemma SumCombinations(c: Curve, q: Point, r: Point)
    requires IsGroup(c) && OnCurve(c, q) && OnCurve(c, r)
    ensures Combination(c, 1, q, 1, r) == Plus(c, q, r)
    ensures Combination(c, 1, q, -1, r) == Plus(c, q, Neg(c, r))
    ensures Combination(c, 1, q, 0, r) == q && Combination(c, 0, q, 1, r) == r
    ensures Combination(c, 0, q, 0, r) == Infinity
  {
    hide Plus, Times, OnCurve, Neg, IsGroup;
    TimesOne(c, q);
    TimesOne(c, r);
    TimesNeg(c, 1, r);
    assert -(1) == -1;
    TimesZero(c, q);
    TimesZero(c, r);
    PlusInfinity(c, q);
    PlusInfinity(c, r);
    PlusInfinity(c, Infinity);
  }

  /** The four addends of the loop. */
  ghost predicate TwinAddends(c: Curve, s: AffinePoint, t: AffinePoint, p: AffinePoint, m: AffinePoint)
    reads s.x, s.y, t.x, t.y, p.x, p.y, m.x, m.y
  {
    && OnCurve(c, s.Value()) && OnCurve(c, t.Value()) && OnCurve(c, p.Value()) && OnCurve(c, m.Value())
    && p.Value() == Combination(c, 1, s.Value(), 1, t.Value())
    && m.Value() == Combination(c, 1, s.Value(), -1, t.Value())
  }

  /** The generic part of `ec_twin_mul_init`: `p = s + t` and `m = s - t` by one shared inversion. */
  method TwinPoints(e: ECCProvider, r: JacobianPoint, s: AffinePoint, t: AffinePoint,
                    pp: JacobianPoint, mp: JacobianPoint, p: AffinePoint, m: AffinePoint,
                    ghost c: Curve)
    requires e.Valid() && IsP384(c) && TwinApart(e, r, s, t, pp, mp, p, m)
    requires OnCurve(c, s.Value()) && OnCurve(c, t.Value()) && V(s.x) != V(t.x)
    modifies e.h, pp.x, pp.y, pp.z, mp.x, mp.y, mp.z, p.x, p.y, m.x, m.y, t.y, e.t1, e.t2, e.t3, e.a
    ensures t.Value() == old(t.Value()) && s.Value() == old(s.Value()) && t.y[..] == old(t.y[..])
    ensures TwinAddends(c, s, t, p, m)
  {
    hide Val, Prime, Plus, Neg, IsGroup, FMul, Cong, Combination, OnCurve, Represents;
    ghost var vs, vt, ys := s.Value(), t.Value(), t.y[..];
    ProjectSum(e, pp, s, t, c);
    ghost var jp := pp.Value();
    ProjectDifference(e, mp, s, t, c);
    assert t.Value() == vt && s.Value() == vs && pp.Value() == jp;
    SumCombinations(c, vs, vt);
    TwinAffinify(e, pp, mp, p, m, c, vs, vt);
  }

  /** Both sums to affine form, from `h = 1 / (pp.z * mp.z)`. */
  method TwinAffinify(e: ECCProvider, pp: JacobianPoint, mp: JacobianPoint, p: AffinePoint, m: AffinePoint,
                      ghost c: Curve, ghost vs: Point, ghost vt: Point)
    requires e.Valid() && IsP384(c) && e.Apart(pp) && e.Apart(mp) && p.Sound() && m.Sound()
    requires e.AwayFrom(p, pp) && e.AwayFrom(p, mp) && e.AwayFrom(m, pp) && e.AwayFrom(m, mp)
    requires p.x !in {m.x, m.y} && p.y !in {m.x, m.y}
    requires OnCurve(c, vs) && OnCurve(c, vt) && vs.Affine? && vt.Affine? && vs.x != vt.x
    requires Represents(c, pp.Value(), Plus(c, vs, vt)) && Represents(c, mp.Value(), Plus(c, vs, Neg(c, vt)))
    modifies e.h, p.x, p.y, m.x, m.y, e.t1, e.t2, e.t3, e.a
    ensures p.Value() == Plus(c, vs, vt) && m.Value() == Plus(c, vs, Neg(c, vt))
    ensures OnCurve(c, p.Value()) && OnCurve(c, m.Value())
  {
    hide Val, Prime, Plus, Neg, IsGroup, FMul, Cong, OnCurve;
    assert IsField(c) by { GroupIsField(c); }
    SumsFinite(c, vs, vt);
    e.FieldMul(p.y, pp.z, mp.z);
    ProductFinite(V(pp.z), V(mp.z));
    Invert(e, e.h, p.y);
    ProductSwaps(V(e.h), V(pp.z), V(mp.z));
    SharedAffinify(e, p, pp, mp.z, c, Plus(c, vs, vt));
    SharedAffinify(e, m, mp, pp.z, c, Plus(c, vs, Neg(c, vt)));
  }

  lemma ProductFinite(z: int, w: int)
    requires IsPrime(Prime()) && 0 < z < Prime() && 0 < w < Prime()
    ensures 0 < FMul(Prime(), z, w) < Prime()
  {
    hide Cong, IsPrime, Prime;
    SmallNonzero(z, Prime());
    SmallNonzero(w, Prime());
    NonzeroProduct(z, w, Prime());
    ModCong(z * w, Prime());
    CongZero(z * w, Prime());
  }

  lemma ProductSwaps(h: int, z: int, w: int)
    ensures FMul(Prime(), z, w) == FMul(Prime(), w, z)
  {
    Commute(z, w);
  }

  /** The special case of `ec_twin_mul_init`: one multiplication by the sum or difference of the scalars.
      It is right exactly when one correction of the scalar is enough. */
  method TwinSame(e: ECCProvider, r: JacobianPoint, d0: array<Limb>, s: AffinePoint, d1: array<Limb>, t: AffinePoint,
                  pp: JacobianPoint, ghost c: Curve)
    requires e.Valid() && IsP384(c) && e.Apart(r) && e.Apart(pp)
    requires pp.x !in {r.x, r.y, r.z, s.x, s.y, t.x, t.y, d0, d1}
    requires Addend(e, c, r, s) && Addend(e, c, r, t) && s.y !in {t.x, t.y}
    requires d0.Length == d1.Length == 12 && V(s.x) == V(t.x) && OfOrder(c, s.Value())
    modifies e.h, pp.x, r.x, r.y, r.z, s.y, e.t1, e.t2, e.t3, e.a
    ensures s.y[..] == old(s.y[..]) && s.x[..] == old(s.x[..])
    ensures Represents(c, r.Value(), old(Combination(c, V(d0), s.Value(), V(d1), t.Value())))
      <==> old(OneCorrection(V(d0), V(d1), V(s.y) == V(t.y)))
  {
    hide Val, Prime, Order, Plus, Times, Neg, Combination, OnCurve, IsGroup, Represents, Opposite, OneCorrection,
         OfOrder, TwoTo384;
    ghost var vd0, vd1, vs, vt := V(d0), V(d1), s.Value(), t.Value();
    ValInjective(s.x[..], t.x[..]);
    PowHigh();
    var same := IsEqual(s.y, t.y);
    if same {
      GroupAdd(e, pp.x, d0, d1);
      SameCombination(c, vd0, vd1, vs);
    } else {
      ModDiv.ModSub(pp.x, d0, d1, e.group_order);
      OppositeTwins(c, vs, vt);
      OppositeCombination(c, vd0, vd1, vs);
    }
    ghost var k := V(pp.x);
    EcMul(e, r, pp.x, s, c);
    CorrectedDecides(c, vs, vd0, vd1, same);
    RepresentsExactly(c, r.Value(), k, Wanted(vd0, vd1, same), vs);
  }

  lemma RepresentsExactly(c: Curve, r: Jacobian, k: int, s: int, q: Point)
    requires IsP384(c) && OnCurve(c, q) && Represents(c, r, Times(c, k, q))
    ensures Represents(c, r, Times(c, s, q)) <==> Times(c, k, q) == Times(c, s, q)
  {
    hide Times, OnCurve, Represents, IsGroup, Plus;
    assert IsField(c) by { GroupIsField(c); }
    TimesClosed(c, k, q);
    TimesClosed(c, s, q);
    if Represents(c, r, Times(c, s, q)) {
      RepresentsOne(c, r, Times(c, k, q), Times(c, s, q));
    }
  }

  lemma OppositeTwins(c: Curve, q: Point, r: Point)
    requires IsGroup(c) && OnCurve(c, q) && OnCurve(c, r) && q.Affine? && r.Affine? && q.x == r.x && q.y != r.y
    ensures r == Neg(c, q)
  {
    hide Cong;
    SameAbscissa(c, q, r);
    NegUnique(c, q, r);
  }

  // The loop

  /** The signs of a digit pair pick one of the eight additions. */
  method EcTwinMulAux1(e: ECCProvider, r: JacobianPoint, u0: int, u1: int,
                       p: AffinePoint, s: AffinePoint, m: AffinePoint, t: AffinePoint,
                       ghost c: Curve, ghost vs: Point, ghost vt: Point, ghost j: int, ghost k: int)
    requires e.Valid() && IsP384(c) && e.Apart(r) && OnCurve(c, vs) && OnCurve(c, vt)
    requires Addend(e, c, r, s) && Addend(e, c, r, t) && Addend(e, c, r, p) && Addend(e, c, r, m)
    requires s.y !in {t.x, t.y, p.x, p.y, m.x, m.y} && t.y !in {s.x, p.x, p.y, m.x, m.y}
    requires p.y !in {s.x, t.x, m.x, m.y} && m.y !in {s.x, t.x, p.x}
    requires s.Value() == vs && t.Value() == vt && TwinAddends(c, s, t, p, m)
    requires -1 <= u0 <= 1 && -1 <= u1 <= 1
    requires Holds(c, r, j, vs, k, vt)
    modifies r.x, r.y, r.z, s.y, t.y, p.y, m.y, e.t1, e.t2, e.t3, e.a
    ensures s.Value() == vs && t.Value() == vt && TwinAddends(c, s, t, p, m)
    ensures s.y[..] == old(s.y[..]) && t.y[..] == old(t.y[..])
    ensures Holds(c, r, 2 * j + u0, vs, 2 * k + u1, vt)
  {
    hide Val, Plus, Times, Combination, OnCurve, IsGroup, Represents, IsP384;
    SumCombinationsP384(c, vs, vt);
    DoubleStep(e, r, c, j, vs, k, vt);
    if u0 == -1 {
      if u1 == -1 {
        SubStep(e, r, p, c, 2 * j, vs, 2 * k, vt, 1, 1);
      } else if u1 == 0 {
        SubStep(e, r, s, c, 2 * j, vs, 2 * k, vt, 1, 0);
      } else {
        SubStep(e, r, m, c, 2 * j, vs, 2 * k, vt, 1, -1);
      }
    } else if u0 == 0 {
      if u1 == -1 {
        SubStep(e, r, t, c, 2 * j, vs, 2 * k, vt, 0, 1);
      } else if u1 == 1 {
        AddStep(e, r, t, c, 2 * j, vs, 2 * k, vt, 0, 1);
      }
    } else {
      if u1 == -1 {
        AddStep(e, r, m, c, 2 * j, vs, 2 * k, vt, 1, -1);
      } else if u1 == 0 {
        AddStep(e, r, s, c, 2 * j, vs, 2 * k, vt, 1, 0);
      } else {
        AddStep(e, r, p, c, 2 * j, vs, 2 * k, vt, 1, 1);
      }
    }
  }

  lemma SumCombinationsP384(c: Curve, q: Point, r: Point)
    requires IsP384(c) && OnCurve(c, q) && OnCurve(c, r)
    ensures Combination(c, 1, q, 0, r) == q && Combination(c, 0, q, 1, r) == r
    ensures Combination(c, 0, q, 0, r) == Infinity
  {
    SumCombinations(c, q, r);
  }

  /** The loop of `ec_twin_mul`, from the point at infinity. */
  method TwinLoop(e: ECCProvider, r: JacobianPoint, d0: array<Limb>, s: AffinePoint, d1: array<Limb>, t: AffinePoint,
                  p: AffinePoint, m: AffinePoint, ghost c: Curve)
    requires e.Valid() && IsP384(c) && e.Apart(r)
    requires Addend(e, c, r, s) && Addend(e, c, r, t) && Addend(e, c, r, p) && Addend(e, c, r, m)
    requires s.y !in {t.x, t.y, p.x, p.y, m.x, m.y} && t.y !in {s.x, p.x, p.y, m.x, m.y}
    requires p.y !in {s.x, t.x, m.x, m.y} && m.y !in {s.x, t.x, p.x}
    requires TwinAddends(c, s, t, p, m)
    requires d0.Length == 12 && d0 !in {r.x, r.y, r.z, s.y, t.y, p.y, m.y, e.t1, e.t2, e.t3}
    requires d1.Length == 12 && d1 !in {r.x, r.y, r.z, s.y, t.y, p.y, m.y, e.t1, e.t2, e.t3}
    requires r.Value() == NOWHERE
    modifies r.x, r.y, r.z, s.y, t.y, p.y, m.y, e.t1, e.t2, e.t3, e.a
    ensures s.y[..] == old(s.y[..]) && t.y[..] == old(t.y[..])
    ensures Represents(c, r.Value(), old(Combination(c, V(d0), s.Value(), V(d1), t.Value())))
  {
    hide Val, Plus, Times, Combination, OnCurve, IsGroup, Represents, IsP384, Twin, Aux2;
    ghost var ds0, ds1, vs, vt, ss, ts := d0[..], d1[..], s.Value(), t.Value(), s.y[..], t.y[..];
    ghost var j, l := 0, 0;
    NowhereHolds(c, r.Value(), vs, vt);
    var c0, c1, e0, e1, shift := d0[11] / 0x1000_0000, d1[11] / 0x1000_0000, d0[11], d1[11], 27;
    TwinStart(ds0, ds1);
    var k := 379;
    while k != -6
      invariant -6 <= k <= 379 && 0 <= shift < 32
      invariant e.Valid() && d0[..] == ds0 && d1[..] == ds1 && s.y[..] == ss && t.y[..] == ts
      invariant Addend(e, c, r, s) && Addend(e, c, r, t) && Addend(e, c, r, p) && Addend(e, c, r, m)
      invariant s.Value() == vs && t.Value() == vt && TwinAddends(c, s, t, p, m)
      invariant Twin(ds0, ds1, k, c0, c1, e0, e1, shift, j, l)
      invariant Holds(c, r, j, vs, l, vt)
    {
      var i := k / 32 - 1;
      var dv1, dv2 := k % 32 == 0, i >= 0;
      var d0i: Limb := if dv1 && dv2 then d0[i] else 0;
      var d1i: Limb := if dv1 && dv2 then d1[i] else 0;
      TwinAdvances(ds0, ds1, k, c0, c1, e0, e1, shift, j, l);
      var next := Aux2(c0, c1, e0, e1, shift, d0i, d1i, dv1, dv2);
      c0, c1 := next.c0, next.c1;
      EcTwinMulAux1(e, r, next.u0, next.u1, p, s, m, t, c, vs, vt, j, l);
      j, l := 2 * j + next.u0, 2 * l + next.u1;
      e0, e1, shift := next.e0, next.e1, next.shift;
      k := k - 1;
    }
    TwinDone(ds0, ds1, c0, c1, e0, e1, shift, j, l);
  }

  lemma NowhereHolds(c: Curve, r: Jacobian, q: Point, s: Point)
    requires r == NOWHERE
    ensures Represents(c, r, Combination(c, 0, q, 0, s))
  {
    CombinationZero(c, q, s);
  }

  /** `r = d0 * s + d1 * t` for all 384-bit scalars when the abscissae of `s` and `t` differ.  When they agree,
      exactly the scalars within one correction are multiplied right. */
  method EcTwinMul(e: ECCProvider, r: JacobianPoint, d0: array<Limb>, s: AffinePoint, d1: array<Limb>, t: AffinePoint,
                   pp: JacobianPoint, mp: JacobianPoint, p: AffinePoint, m: AffinePoint, ghost c: Curve)
    requires e.Valid() && IsP384(c) && TwinApart(e, r, s, t, pp, mp, p, m)
    requires OnCurve(c, s.Value()) && OnCurve(c, t.Value())
    requires d0.Length == 12 && Scalar(e, d0, r, s, t, pp, mp, p, m)
    requires d1.Length == 12 && Scalar(e, d1, r, s, t, pp, mp, p, m)
    requires V(s.x) == V(t.x) ==> OfOrder(c, s.Value())
    modifies e.h, r.x, r.y, r.z, s.y, t.y, pp.x, pp.y, pp.z, mp.x, mp.y, mp.z, p.x, p.y, m.x, m.y,
             e.t1, e.t2, e.t3, e.a
    ensures s.y[..] == old(s.y[..]) && t.y[..] == old(t.y[..])
    ensures Represents(c, r.Value(), old(Combination(c, V(d0), s.Value(), V(d1), t.Value())))
      <==> old(V(s.x) != V(t.x) || OneCorrection(V(d0), V(d1), V(s.y) == V(t.y)))
  {
    hide Val, Prime, Order, Plus, Times, Neg, Combination, OnCurve, IsGroup, Represents, IsP384, OneCorrection, OfOrder;
    var alike := IsEqual(s.x, t.x);
    if alike {
      TwinSame(e, r, d0, s, d1, t, pp, c);
      SetZero(p.x);
      SetZero(p.y);
      SetZero(m.x);
      SetZero(m.y);
      return;
    }
    SetUnit(r.x);
    SetUnit(r.y);
    SetZero(r.z);
    TwinPoints(e, r, s, t, pp, mp, p, m, c);
    TwinLoop(e, r, d0, s, d1, t, p, m, c);
  }

  ghost predicate Scalar(e: ECCProvider, d: array<Limb>, r: JacobianPoint, s: AffinePoint, t: AffinePoint,
                         pp: JacobianPoint, mp: JacobianPoint, p: AffinePoint, m: AffinePoint)
  {
    && e.Foreign(d)
    && d !in {r.x, r.y, r.z, s.x, s.y, t.x, t.y, pp.x, pp.y, pp.z, mp.x, mp.y, mp.z, p.x, p.y, m.x, m.y}
  }
}
