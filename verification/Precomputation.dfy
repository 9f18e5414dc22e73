/** `init`: the odd multiples of the base point that the window multiplier needs. */
module Precomputation {
  import opened Words
  import opened Limbs
  import opened ModArith
  import opened Curves
  import opened Multiples
  import opened Jacobians
  import opened Provider
  import opened ScalarMultiplication
  import opened TwinScalar
  import opened WindowMultiplication
  import opened AffineForm
  import opened Ecdsa
  import opened Signing

  method CopyPoint(r: JacobianPoint, s: JacobianPoint)
    requires r.Sound() && s.Sound()
    requires r.x !in {s.x, s.y, s.z} && r.y !in {s.x, s.y, s.z} && r.z !in {s.x, s.y, s.z}
    modifies r.x, r.y, r.z
    ensures r.Value() == s.Value()
  {
    hide Val;
    Assign(r.x, s.x);
    Assign(r.y, s.y);
    Assign(r.z, s.z);
  }

  /** `r = 4 s`. */
  method Quadrupled(e: ECCProvider, r: JacobianPoint, s: AffinePoint, ghost c: Curve)
    requires e.Valid() && e.Apart(r) && IsP384(c) && Addend(e, c, r, s)
    modifies r.x, r.y, r.z, e.t1, e.t2, e.a
    ensures Holds(c, r, 4, s.Value(), 0, s.Value())
  {
    hide Val, Plus, Times, OnCurve, IsGroup, Combination, Prime;
    ghost var v := s.Value();
    EcProjectify(r, s);
    UnitHolds(c, v);
    DoubleStep(e, r, c, 1, v, 0, v);
    DoubleStep(e, r, c, 2, v, 0, v);
  }

  lemma UnitHolds(c: Curve, v: Point)
    requires IsP384(c) && OnCurve(c, v) && v.Affine?
    ensures Represents(c, Jacobian(v.x, v.y, 1), Combination(c, 1, v, 0, v))
  {
    RepresentsUnit(c, v);
    CombinationOne(c, v);
  }

  /** Small multiples of the base point are finite points of the curve. */
  lemma SmallMultiple(c: Curve, k: int, g: Point)
    requires IsSetting(c, g) && 0 < k <= 5
    ensures Times(c, k, g).Affine? && OnCurve(c, Times(c, k, g))
    ensures Combination(c, k, g, 0, g) == Times(c, k, g)
  {
    hide Times, Plus, OnCurve, IsGroup, IsPrime;
    SmallMultipleFinite(c, Order(), k, g);
    TimesClosed(c, k, g);
    CombinationSingle(c, k, g);
  }

  /** `r = 4 g - g` from a copy of `s4`. */
  method Triple(e: ECCProvider, r: AffinePoint, s4: JacobianPoint, s: AffinePoint, ghost c: Curve)
    requires e.Valid() && IsSetting(c, s.Value()) && s4.Sound() && s.Sound() && r.Sound()
    requires e.Foreign(s.x) && e.Foreign(s.y) && e.Foreign(r.x) && e.Foreign(r.y) &&
      s.y !in {r.x, r.y, s4.x, s4.y, s4.z}
    requires s.x !in {r.x, r.y}
    requires Holds(c, s4, 4, s.Value(), 0, s.Value())
    modifies s.y, r.x, r.y, e.t1, e.t2, e.t3, e.a
    ensures s.y[..] == old(s.y[..]) && s.Value() == old(s.Value())
    ensures r.Value() == Times(c, 3, s.Value())
  {
    hide Val, Prime, Order, Plus, Times, IsGroup, OnCurve, Combination, Represents, IsPrime;
    ghost var g := s.Value();
    SettingIsField(c, g);
    CombinationOne(c, g);
    SmallMultiple(c, 3, g);
    var j := new JacobianPoint();
    CopyPoint(j, s4);
    SubStep(e, j, s, c, 4, g, 0, g, 1, 0);
    EcAffinify(e, r, j, c, Times(c, 3, g));
  }

  /** `r = 4 g + g` from a copy of `s4`. */
  method Quintuple(e: ECCProvider, r: AffinePoint, s4: JacobianPoint, s: AffinePoint, ghost c: Curve)
    requires e.Valid() && IsSetting(c, s.Value()) && s4.Sound() && s.Sound() && r.Sound()
    requires e.Foreign(s.x) && e.Foreign(s.y) && e.Foreign(r.x) && e.Foreign(r.y)
    requires Holds(c, s4, 4, s.Value(), 0, s.Value())
    modifies r.x, r.y, e.t1, e.t2, e.t3, e.a
    ensures r.Value() == Times(c, 5, old(s.Value()))
  {
    hide Val, Prime, Order, Plus, Times, IsGroup, OnCurve, Combination, Represents, IsPrime;
    ghost var g := s.Value();
    SettingIsField(c, g);
    CombinationOne(c, g);
    SmallMultiple(c, 5, g);
    var j := new JacobianPoint();
    CopyPoint(j, s4);
    AddStep(e, j, s, c, 4, g, 0, g, 1, 0);
    EcAffinify(e, r, j, c, Times(c, 5, g));
  }

  method Init(e: ECCProvider, ghost c: Curve, ghost home: map<array<Limb>, int>)
    requires Ready(e, c, home)
    modifies e.basePoint.y, e.basePoint3.x, e.basePoint3.y, e.basePoint5.x, e.basePoint5.y, e.t1, e.t2, e.t3, e.a
    ensures e.basePoint.y[..] == old(e.basePoint.y[..])
    ensures OddMultiples(e, c, e.rP, e.basePoint, e.basePoint3, e.basePoint5)
  {
    hide Val, Prime, Order, Plus, Times, OnCurve, Combination, Represents, ProviderHome, IsPrime, IsGroup;
    InitApart(home, e);
    ghost var g := e.basePoint.Value();
    SmallMultiple(c, 3, g);
    SmallMultiple(c, 5, g);
    var s4 := new JacobianPoint();
    Quadrupled(e, s4, e.basePoint, c);
    Triple(e, e.basePoint3, s4, e.basePoint, c);
    Quintuple(e, e.basePoint5, s4, e.basePoint, c);
  }

  lemma InitApart(home: map<array<Limb>, int>, e: ECCProvider)
    requires ProviderHome(home, e)
    ensures e.Apart(e.rP) && e.AwayFrom(e.basePoint, e.rP) && e.basePoint.Sound()
    ensures e.AwayFrom(e.basePoint3, e.rP) && e.AwayFrom(e.basePoint5, e.rP)
    ensures e.basePoint3.Sound() && e.basePoint5.Sound()
    ensures e.basePoint.x !in {e.basePoint3.x, e.basePoint3.y, e.basePoint5.x, e.basePoint5.y}
    ensures e.basePoint.y !in {e.basePoint3.x, e.basePoint3.y, e.basePoint5.x, e.basePoint5.y}
    ensures e.basePoint3.x !in {e.basePoint5.x, e.basePoint5.y} && e.basePoint3.y !in {e.basePoint5.x, e.basePoint5.y}
  {
  }

  /** Numbers below 100 are taken by the constants alone. */
  ghost predicate ConstantsOnly(given: map<array<Limb>, int>) {
    forall b :: b in given ==> given[b] in {0, 1, 2, 40, 41} || given[b] >= 100
  }

  lemma OwnAreNew(e: ECCProvider, given: map<array<Limb>, int>, home: map<array<Limb>, int>)
    requires ProviderHome(home, e) && Keeps(given, home) && ConstantsOnly(given)
    ensures e.t1 !in given && e.t2 !in given && e.t3 !in given
    ensures e.basePoint3.x !in given && e.basePoint3.y !in given
    ensures e.basePoint5.x !in given && e.basePoint5.y !in given
    ensures e.t1 in home && e.t2 in home && e.t3 in home
    ensures e.basePoint3.x in home && e.basePoint3.y in home && e.basePoint5.x in home && e.basePoint5.y in home
  {
  }

  /** A new provider: the curve's tables, buffers of its own, and the odd multiples of the base point. */
  method Create(prime: array<Limb>, unit: array<Limb>, order: array<Limb>, base: AffinePoint,
                ghost given: map<array<Limb>, int>, ghost c: Curve)
    returns (e: ECCProvider)
    requires At(given, prime, 0) && At(given, order, 1) && At(given, unit, 2) && AffineHome(given, base, 40)
    requires ConstantsOnly(given)
    requires prime[..] == FieldPrimeLimbs() && order[..] == GroupOrderLimbs() && unit[..] == UnitLimbs()
    requires base.x[..] == BaseXLimbs() && base.y[..] == BaseYLimbs() && IsSetting(c, base.Value())
    modifies base.y
    ensures fresh(e) && e.Constants() && Ready(e, c, e.home) && Keeps(given, e.home)
    ensures OddMultiples(e, c, e.rP, e.basePoint, e.basePoint3, e.basePoint5)
  {
    hide Val, IsSetting, OddMultiples, FieldPrimeLimbs, GroupOrderLimbs, UnitLimbs, BaseXLimbs, BaseYLimbs, Keeps,
      ConstantsOnly, Blank;
    e := new ECCProvider(prime, unit, order, base, given);
    OwnAreNew(e, given, e.home);
    e.ConstantsAreValid(e.home);
    Init(e, c, e.home);
  }
}
