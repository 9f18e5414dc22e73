/** `ECCProvider` over the 64-bit P-384 back-end: the field and point operations on the provider's arrays. */
module Provider {
  import opened Words
  import opened Limbs
  import opened ModArith
  import opened Residues
  import opened P384Field
  import opened Jacobians
  import opened Curves
  import Squaring
  import ModDiv

  /** All limbs are zero. */
  ghost predicate Blank(b: array<Limb>)
    reads b
  {
    forall i :: 0 <= i < b.Length ==> b[i] == 0
  }

  class JacobianPoint {
    const x: array<Limb>
    const y: array<Limb>
    const z: array<Limb>

    constructor ()
      ensures fresh(x) && fresh(y) && fresh(z) && Sound() && Blank(x) && Blank(y) && Blank(z)
    {
      x, y, z := new Limb[12](_ => 0), new Limb[12](_ => 0), new Limb[12](_ => 0);
    }

    ghost predicate Sound() {
      x.Length == 12 && y.Length == 12 && z.Length == 12 && x != y && x != z && y != z
    }

    ghost function Value(): Jacobian
      reads x, y, z
    {
      Jacobian(V(x), V(y), V(z))
    }
  }

  class AffinePoint {
    const x: array<Limb>
    const y: array<Limb>

    constructor ()
      ensures fresh(x) && fresh(y) && Sound() && Blank(x) && Blank(y)
    {
      x, y := new Limb[12](_ => 0), new Limb[12](_ => 0);
    }

    ghost predicate Sound() {
      x.Length == 12 && y.Length == 12 && x != y
    }

    ghost function Value(): Point
      reads x, y
    {
      Affine(V(x), V(y))
    }
  }

  function FieldPrimeLimbs(): (s: seq<Limb>)
    ensures |s| == 12
  {
    [
    0xffffffff, 0x0, 0x0, 0xffffffff, 0xfffffffe, 0xffffffff,
    0xffffffff, 0xffffffff, 0xffffffff, 0xffffffff, 0xffffffff, 0xffffffff]
  }

  function UnitLimbs(): (s: seq<Limb>)
    ensures |s| == 12
  {
    [1, 0, 0, 0, 0, 0, 0, 0, 0, 0, 0, 0]
  }

  function GroupOrderLimbs(): (s: seq<Limb>)
    ensures |s| == 12
  {
    [
    0xccc52973, 0xecec196a, 0x48b0a77a, 0x581a0db2, 0xf4372ddf, 0xc7634d81,
    0xffffffff, 0xffffffff, 0xffffffff, 0xffffffff, 0xffffffff, 0xffffffff]
  }

  /** The base point's coordinates. */
  function BaseXLimbs(): (s: seq<Limb>)
    ensures |s| == 12
  {
    [
    0x72760ab7, 0x3a545e38, 0xbf55296c, 0x5502f25d, 0x82542a38, 0x59f741e0,
    0x8ba79b98, 0x6e1d3b62, 0xf320ad74, 0x8eb1c71e, 0xbe8b0537, 0xaa87ca22]
  }

  function BaseYLimbs(): (s: seq<Limb>)
    ensures |s| == 12
  {
    [
    0x90ea0e5f, 0x7a431d7c, 0x1d7e819d, 0x0a60b1ce, 0xb5f0b8c0, 0xe9da3113,
    0x289a147c, 0xf8f41dbd, 0x9292dc29, 0x5d9e98bf, 0x96262c6f, 0x3617de4a]
  }

  lemma ConstantValues()
    ensures Val(FieldPrimeLimbs()) == FieldPrime() && Val(GroupOrderLimbs()) == GroupOrder() && Val(UnitLimbs()) == 1
  {
    hide Val;
    ValTwelve(FieldPrimeLimbs());
    ValTwelve(GroupOrderLimbs());
    ValTwelve(UnitLimbs());
  }

  /** The field prime and the order of the base point, as their tables have them. */
  function Prime(): (p: int)
    ensures p > 3 && p % 2 == 1
  {
    ConstantValues();
    Val(FieldPrimeLimbs())
  }

  function Order(): (n: int)
    ensures n > 5 && n % 2 == 1
  {
    ConstantValues();
    Val(GroupOrderLimbs())
  }

  /** Their values, for where the size of the numbers matters. */
  lemma PrimeIs()
    ensures Prime() == FieldPrime() && FieldPrime() < TwoTo384() < 2 * FieldPrime()
  {
    ConstantValues();
  }

  lemma OrderIs()
    ensures Order() == GroupOrder() && GroupOrder() < FieldPrime() && TwoTo384() < 2 * GroupOrder()
  {
    ConstantValues();
  }

  /** Buffer `b` is the one numbered `i`: buffers with different numbers are different arrays. */
  ghost predicate At(home: map<array<Limb>, int>, b: array<Limb>, i: int) {
    b in home && home[b] == i && b.Length == 12
  }

  ghost predicate JacobianHome(home: map<array<Limb>, int>, r: JacobianPoint, i: int) {
    At(home, r.x, i) && At(home, r.y, i + 1) && At(home, r.z, i + 2)
  }

  ghost predicate AffineHome(home: map<array<Limb>, int>, r: AffinePoint, i: int) {
    At(home, r.x, i) && At(home, r.y, i + 1)
  }

  ghost predicate ProviderHome(home: map<array<Limb>, int>, e: ECCProvider) {
    && At(home, e.field_prime, 0) && At(home, e.group_order, 1) && At(home, e.field_unit, 2)
    && At(home, e.h, 3) && At(home, e.t1, 4) && At(home, e.t2, 5) && At(home, e.t3, 6)
    && At(home, e.u1, 7) && At(home, e.u2, 8)
    && JacobianHome(home, e.rP, 10) && JacobianHome(home, e.sPtP, 20) && JacobianHome(home, e.sMtP, 30)
    && AffineHome(home, e.basePoint, 40) && AffineHome(home, e.qPoint, 50)
    && AffineHome(home, e.sPt, 60) && AffineHome(home, e.sMt, 70)
    && AffineHome(home, e.basePoint3, 80) && AffineHome(home, e.basePoint5, 90)
  }

  /** `m'` numbers what `m` does, in the same way. */
  ghost predicate Keeps(m: map<array<Limb>, int>, m': map<array<Limb>, int>) {
    forall b :: b in m ==> b in m' && m'[b] == m[b]
  }

  method NewBuffer(ghost m: map<array<Limb>, int>, ghost i: int)
    returns (b: array<Limb>, ghost m': map<array<Limb>, int>)
    ensures At(m', b, i) && Keeps(m, m')
    ensures forall c :: c in m' && c !in m ==> fresh(c) && Blank(c)
  {
    b := new Limb[12](_ => 0);
    m' := m[b := i];
  }

  method NewJacobian(ghost m: map<array<Limb>, int>, ghost i: int)
    returns (r: JacobianPoint, ghost m': map<array<Limb>, int>)
    ensures JacobianHome(m', r, i) && Keeps(m, m')
    ensures forall b :: b in m' && b !in m ==> fresh(b) && Blank(b)
  {
    r := new JacobianPoint();
    m' := m[r.x := i][r.y := i + 1][r.z := i + 2];
  }

  method NewAffine(ghost m: map<array<Limb>, int>, ghost i: int)
    returns (r: AffinePoint, ghost m': map<array<Limb>, int>)
    ensures AffineHome(m', r, i) && Keeps(m, m')
    ensures forall b :: b in m' && b !in m ==> fresh(b) && Blank(b)
  {
    r := new AffinePoint();
    m' := m[r.x := i][r.y := i + 1];
  }

  /** The scratch numbers, numbered 3 to 8. */
  method NewScratch(ghost m: map<array<Limb>, int>) returns (s: seq<array<Limb>>, ghost m': map<array<Limb>, int>)
    ensures |s| == 6 && forall i :: 0 <= i < 6 ==> At(m', s[i], 3 + i)
    ensures Keeps(m, m') && forall b :: b in m' && b !in m ==> fresh(b) && Blank(b)
  {
    hide Blank;
    s, m' := [], m;
    var i := 0;
    while i < 6
      invariant 0 <= i <= 6 && |s| == i && forall j :: 0 <= j < i ==> At(m', s[j], 3 + j)
      invariant Keeps(m, m') && forall b :: b in m' && b !in m ==> fresh(b) && Blank(b)
    {
      var b;
      b, m' := NewBuffer(m', 3 + i);
      s, i := s + [b], i + 1;
    }
  }

  /** The Jacobian points, numbered from 10, 20 and 30. */
  method NewJacobians(ghost m: map<array<Limb>, int>) returns (s: seq<JacobianPoint>, ghost m': map<array<Limb>, int>)
    ensures |s| == 3 && forall i :: 0 <= i < 3 ==> JacobianHome(m', s[i], 10 + 10 * i)
    ensures Keeps(m, m') && forall b :: b in m' && b !in m ==> fresh(b) && Blank(b)
  {
    hide Blank;
    s, m' := [], m;
    var i := 0;
    while i < 3
      invariant 0 <= i <= 3 && |s| == i && forall j :: 0 <= j < i ==> JacobianHome(m', s[j], 10 + 10 * j)
      invariant Keeps(m, m') && forall b :: b in m' && b !in m ==> fresh(b) && Blank(b)
    {
      var r;
      r, m' := NewJacobian(m', 10 + 10 * i);
      s, i := s + [r], i + 1;
    }
  }

  /** The affine points but the base point, numbered from 50 up to 90. */
  method NewAffines(ghost m: map<array<Limb>, int>) returns (s: seq<AffinePoint>, ghost m': map<array<Limb>, int>)
    ensures |s| == 5 && forall i :: 0 <= i < 5 ==> AffineHome(m', s[i], 50 + 10 * i)
    ensures Keeps(m, m') && forall b :: b in m' && b !in m ==> fresh(b) && Blank(b)
  {
    hide Blank;
    s, m' := [], m;
    var i := 0;
    while i < 5
      invariant 0 <= i <= 5 && |s| == i && forall j :: 0 <= j < i ==> AffineHome(m', s[j], 50 + 10 * j)
      invariant Keeps(m, m') && forall b :: b in m' && b !in m ==> fresh(b) && Blank(b)
    {
      var r;
      r, m' := NewAffine(m', 50 + 10 * i);
      s, i := s + [r], i + 1;
    }
  }

  lemma KeptAt(m: map<array<Limb>, int>, m': map<array<Limb>, int>, b: array<Limb>, i: int)
    requires At(m, b, i) && Keeps(m, m')
    ensures At(m', b, i)
  {
  }

  /** All the buffers of a provider but the constants and the long one. */
  method NewBuffers(ghost m: map<array<Limb>, int>)
    returns (scratch: seq<array<Limb>>, jacobian: seq<JacobianPoint>, affine: seq<AffinePoint>,
             ghost m': map<array<Limb>, int>)
    ensures |scratch| == 6 && forall i :: 0 <= i < 6 ==> At(m', scratch[i], 3 + i)
    ensures |jacobian| == 3 && forall i :: 0 <= i < 3 ==> JacobianHome(m', jacobian[i], 10 + 10 * i)
    ensures |affine| == 5 && forall i :: 0 <= i < 5 ==> AffineHome(m', affine[i], 50 + 10 * i)
    ensures Keeps(m, m') && forall b :: b in m' && b !in m ==> fresh(b) && Blank(b)
  {
    hide Blank;
    ghost var m1, m2;
    scratch, m1 := NewScratch(m);
    jacobian, m2 := NewJacobians(m1);
    affine, m' := NewAffines(m2);
  }

  class ECCProvider {
    const field_prime: array<Limb>
    const group_order: array<Limb>
    const field_unit: array<Limb>
    const a: array<Limb>
    const h: array<Limb>
    const t1: array<Limb>
    const t2: array<Limb>
    const t3: array<Limb>
    const u1: array<Limb>
    const u2: array<Limb>
    const basePoint: AffinePoint
    const qPoint: AffinePoint
    const rP: JacobianPoint
    const sPtP: JacobianPoint
    const sMtP: JacobianPoint
    const sPt: AffinePoint
    const sMt: AffinePoint
    const basePoint3: AffinePoint
    const basePoint5: AffinePoint

    /** Which number each buffer has. */
    ghost const home: map<array<Limb>, int>

    /** The provider takes the constants and allocates every other buffer, blank and apart from all others. */
    constructor (prime: array<Limb>, unit: array<Limb>, order: array<Limb>, base: AffinePoint,
                 ghost given: map<array<Limb>, int>)
      requires At(given, prime, 0) && At(given, order, 1) && At(given, unit, 2) && AffineHome(given, base, 40)
      ensures field_prime == prime && group_order == order && field_unit == unit && basePoint == base
      ensures ProviderHome(home, this) && fresh(a) && a.Length == 24 && Blank(a)
      ensures Keeps(given, home)
      ensures forall b :: b in home && b !in given ==> fresh(b) && Blank(b)
    {
      hide Keeps, At;
      field_prime, group_order, field_unit, basePoint := prime, order, unit, base;
      var scratch, jacobian, affine;
      ghost var m;
      scratch, jacobian, affine, m := NewBuffers(given);
      KeptAt(given, m, prime, 0);
      KeptAt(given, m, order, 1);
      KeptAt(given, m, unit, 2);
      KeptAt(given, m, base.x, 40);
      KeptAt(given, m, base.y, 41);
      h, t1, t2, t3, u1, u2 := scratch[0], scratch[1], scratch[2], scratch[3], scratch[4], scratch[5];
      rP, sPtP, sMtP := jacobian[0], jacobian[1], jacobian[2];
      qPoint, sPt, sMt, basePoint3, basePoint5 := affine[0], affine[1], affine[2], affine[3], affine[4];
      a := new Limb[24](_ => 0);
      home := m;
    }

    /** `b` is none of the provider's own buffers. */
    ghost predicate Foreign(b: array<Limb>) {
      b !in {field_prime, group_order, field_unit, h, t1, t2, t3}
    }

    ghost predicate Valid()
      reads field_prime, group_order, field_unit
    {
      && field_prime.Length == 12 && group_order.Length == 12 && field_unit.Length == 12 && a.Length == 24
      && h.Length == 12 && t1.Length == 12 && t2.Length == 12 && t3.Length == 12
      && field_prime !in {group_order, field_unit, h, t1, t2, t3}
      && group_order !in {field_unit, h, t1, t2, t3}
      && field_unit !in {h, t1, t2, t3}
      && h !in {t1, t2, t3} && t1 !in {t2, t3} && t2 != t3
      && V(field_prime) == Prime()
      && V(group_order) == Order()
      && V(field_unit) == 1
    }

    /** The constants are the tables of the P-384 curve. */
    ghost predicate Constants()
      reads field_prime, group_order, field_unit, basePoint.x, basePoint.y
    {
      && field_prime[..] == FieldPrimeLimbs() && group_order[..] == GroupOrderLimbs() && field_unit[..] == UnitLimbs()
      && basePoint.x[..] == BaseXLimbs() && basePoint.y[..] == BaseYLimbs()
    }

    /** Tables on buffers of their own make a sound provider. */
    lemma ConstantsAreValid(home: map<array<Limb>, int>)
      requires ProviderHome(home, this) && a.Length == 24 && Constants()
      ensures Valid()
    {
      hide FieldPrimeLimbs, GroupOrderLimbs, UnitLimbs, BaseXLimbs, BaseYLimbs, Val;
      ConstantValues();
    }

    // Field operations

    /** `z` may be given where the provider's constants are not. */
    ghost predicate Writable(z: array<Limb>) {
      z.Length == 12 && z !in {field_prime, group_order, field_unit}
    }

    method FieldMul(z: array<Limb>, x: array<Limb>, y: array<Limb>)
      requires Valid() && Writable(z) && x.Length == 12 && y.Length == 12
      modifies z, a
      ensures V(z) == FMul(Prime(), old(V(x)), old(V(y)))
    {
      hide Val, Prime;
      PrimeIs();
      Mul(a, x, y);
      assert a[..24] == a[..];
      FieldRed(z, a, field_prime);
    }

    method FieldSq(z: array<Limb>, x: array<Limb>)
      requires Valid() && Writable(z) && x.Length == 12
      modifies z, a
      ensures V(z) == FMul(Prime(), old(V(x)), old(V(x)))
    {
      hide Val, Prime;
      PrimeIs();
      Squaring.Sq(a, x);
      FieldRed(z, a, field_prime);
    }

    method FieldAdd(z: array<Limb>, x: array<Limb>, y: array<Limb>)
      requires Valid() && Writable(z) && x.Length == 12 && y.Length == 12
      requires V(x) < Prime() && V(y) < Prime()
      modifies z
      ensures V(z) == FAdd(Prime(), old(V(x)), old(V(y)))
    {
      hide Val, Prime, TwoTo384;
      ghost var s := V(x) + V(y);
      Below(x[..]);
      Below(y[..]);
      var c := Add(z, x, y);
      PowHigh();
      NormalizeSum(z, c, s);
    }

    /** The shared end of `field_add` and `field_dbl`: one conditional subtraction. */
    method NormalizeSum(z: array<Limb>, c: int, ghost s: int)
      requires Valid() && Writable(z) && 0 <= c <= 1
      requires V(z) + (if c == 0 then 0 else TwoTo384()) == s && 0 <= s < 2 * Prime()
      modifies z
      ensures V(z) == s % Prime()
    {
      hide Val;
      PrimeIs();
      Below(z[..]);
      var above := false;
      if c == 0 {
        above := Leq(field_prime, z);
      }
      if c != 0 || above {
        var d := DecFieldPrime(z);
        Below(z[..]);
      }
      DivModUnique(s, if s < Prime() then 0 else 1, V(z), Prime());
    }

    method FieldDbl(z: array<Limb>, x: array<Limb>)
      requires Valid() && Writable(z) && x.Length == 12
      requires V(x) < Prime()
      modifies z
      ensures V(z) == FMul(Prime(), 2, old(V(x)))
    {
      hide Val, Prime, TwoTo384;
      ghost var s := 2 * V(x);
      Below(x[..]);
      var c := Dbl(z, x);
      PowHigh();
      NormalizeSum(z, c, s);
    }

    method FieldSub(z: array<Limb>, x: array<Limb>, y: array<Limb>)
      requires Valid() && Writable(z) && x.Length == 12 && y.Length == 12
      requires V(x) < Prime() && V(y) < Prime()
      modifies z
      ensures V(z) == FSub(Prime(), old(V(x)), old(V(y)))
    {
      hide Val;
      PrimeIs();
      ghost var vx, vy := V(x), V(y);
      Below(x[..]);
      Below(y[..]);
      var c := Sub(z, x, y);
      PowHigh();
      if c != 0 {
        var d := IncFieldPrime(z);
        Below(z[..]);
      }
      ModDiv.WrappedDifference(vx, vy, Prime());
    }

    /** `z = z - 2 * x`. */
    method FieldDblDec(z: array<Limb>, x: array<Limb>)
      requires Valid() && Writable(z) && x.Length == 12 && z != x
      requires V(x) < Prime() && V(z) < Prime()
      modifies z
      ensures V(z) == FSub2(Prime(), old(V(z)), V(x))
    {
      hide Val, Prime;
      ghost var vz, vx, p := V(z), V(x), Prime();
      Below(z[..]);
      Below(x[..]);
      FieldSub(z, z, x);
      ResidueRange(vz - vx, p);
      FieldSub(z, z, x);
      DoubleDifference(vz, vx, p);
    }

    method FieldMul3(z: array<Limb>, x: array<Limb>)
      requires Valid() && Writable(z) && x.Length == 12 && z != x && V(x) < Prime()
      modifies z
      ensures V(z) == FMul(Prime(), 3, V(x))
    {
      hide Val, Prime, FMul, FAdd;
      FieldDbl(z, x);
      FieldRange(Prime(), 2, V(x));
      FieldAdd(z, x, z);
      TripleSum(V(x), Prime());
    }

    method FieldMul4(z: array<Limb>, x: array<Limb>)
      requires Valid() && Writable(z) && x.Length == 12 && V(x) < Prime()
      modifies z
      ensures V(z) == FMul(Prime(), 4, old(V(x)))
    {
      hide Val, Prime, FMul;
      ghost var v := V(x);
      FieldDbl(z, x);
      FieldRange(Prime(), 2, v);
      FieldDbl(z, z);
      TwiceMultiple(2, v, Prime());
    }

    method FieldMul8(z: array<Limb>, x: array<Limb>)
      requires Valid() && Writable(z) && x.Length == 12 && V(x) < Prime()
      modifies z
      ensures V(z) == FMul(Prime(), 8, old(V(x)))
    {
      hide Val, Prime, FMul;
      ghost var v := V(x);
      FieldDbl(z, x);
      FieldRange(Prime(), 2, v);
      FieldDbl(z, z);
      TwiceMultiple(2, v, Prime());
      FieldRange(Prime(), 4, v);
      FieldDbl(z, z);
      TwiceMultiple(4, v, Prime());
    }

    // Point operations

    /** `r`'s buffers are apart from each other and from the provider's. */
    ghost predicate Apart(r: JacobianPoint) {
      && r.Sound()
      && Foreign(r.x) && Foreign(r.y) && Foreign(r.z)
    }

    /** `t` lies neither on the provider's buffers nor on those of `r`. */
    ghost predicate AwayFrom(t: AffinePoint, r: JacobianPoint) {
      && Foreign(t.x) && t.x !in {r.x, r.y, r.z}
      && Foreign(t.y) && t.y !in {r.x, r.y, r.z}
    }

    /** `r = 2 r`. */
    method EcDouble(r: JacobianPoint)
      requires Valid() && Apart(r) && Reduced(Prime(), r.Value())
      modifies r.x, r.y, r.z, t1, t2, a
      ensures r.Value() == Double(Prime(), old(r.Value()))
    {
      hide Val, Prime, FMul, FAdd, FSub, FSub2;
      var t4, t5 := t1, t2;
      var zero := IsZero(r.z);
      if zero {
        SetUnit(r.x);
        SetUnit(r.y);
        SetZero(r.z);
        return;
      }
      ghost var p, X, Y, Z := Prime(), V(r.x), V(r.y), V(r.z);
      FieldSq(t4, r.z);
      FieldRange(p, Z, Z);
      FieldSub(t5, r.x, t4);
      FieldAdd(t4, r.x, t4);
      FieldMul(t5, t4, t5);
      ghost var prod := V(t5);
      assert prod == FMul(p, FAdd(p, X, FMul(p, Z, Z)), FSub(p, X, FMul(p, Z, Z)));
      FieldRange(p, FAdd(p, X, FMul(p, Z, Z)), FSub(p, X, FMul(p, Z, Z)));
      FieldMul3(t4, t5);
      FieldMul(r.z, r.z, r.y);
      FieldRange(p, Z, Y);
      FieldDbl(r.z, r.z);
      FieldSq(r.y, r.y);
      FieldMul(t5, r.x, r.y);
      FieldRange(p, X, FMul(p, Y, Y));
      FieldMul4(t5, t5);
      FieldRange(p, 4, FMul(p, X, FMul(p, Y, Y)));
      FieldSq(r.x, t4);
      ghost var m := V(t4);
      FieldRange(p, m, m);
      FieldDblDec(r.x, t5);
      FieldSq(r.y, r.y);
      FieldRange(p, FMul(p, Y, Y), FMul(p, Y, Y));
      FieldMul8(r.y, r.y);
      FieldRange(p, 8, FMul(p, FMul(p, Y, Y), FMul(p, Y, Y)));
      ghost var s, x3 := V(t5), V(r.x);
      FieldRange2(p, FMul(p, m, m), s);
      FieldSub(t5, t5, r.x);
      FieldMul(t5, t4, t5);
      FieldRange(p, m, FSub(p, s, x3));
      FieldSub(r.y, t5, r.y);
    }

    /** The generic branch of `ec_full_add`: `h` is in `t1`, `k` in `t2`. */
    method EcAddGeneric(r: JacobianPoint)
      requires Valid() && Apart(r) && Reduced(Prime(), r.Value()) && V(t1) < Prime() && V(t2) < Prime()
      modifies r.x, r.y, r.z, t1, t2, t3, a
      ensures r.Value() == Generic(Prime(), old(r.Value()), old(V(t1)), old(V(t2)))
    {
      hide Val, Prime, FMul, FAdd, FSub, FSub2, Half;
      var t4, t5, t7 := t1, t2, t3;
      ghost var p, X, Y, Z, h, k := Prime(), V(r.x), V(r.y), V(r.z), V(t1), V(t2);
      FieldDbl(r.x, r.x);
      FieldRange(p, 2, X);
      Below(t4[..]);
      FieldSub(r.x, r.x, t4);
      FieldDbl(r.y, r.y);
      FieldRange(p, 2, Y);
      FieldSub(r.y, r.y, t5);
      FieldMul(r.z, r.z, t4);
      FieldSq(t7, t4);
      FieldMul(t4, t4, t7);
      FieldMul(t7, r.x, t7);
      ghost var hh, v := FMul(p, h, h), V(t7);
      FieldRange(p, FSub(p, FMul(p, 2, X), h), hh);
      FieldSq(r.x, t5);
      FieldRange(p, k, k);
      FieldSub(r.x, r.x, t7);
      FieldRange(p, FMul(p, k, k), v);
      FieldDblDec(t7, r.x);
      FieldMul(t5, t5, t7);
      FieldMul(t4, r.y, t4);
      ghost var kt, syh := V(t5), V(t4);
      FieldRange(p, k, FSub2(p, v, V(r.x)));
      FieldRange(p, FSub(p, FMul(p, 2, Y), k), FMul(p, h, hh));
      FieldSub(r.y, t5, t4);
      FieldRange(p, kt, syh);
      ModDiv.ModHalf(r.y, field_prime);
    }

    /** `r = r + t`. */
    method EcFullAdd(r: JacobianPoint, t: AffinePoint)
      requires Valid() && Apart(r) && Reduced(Prime(), r.Value())
      requires t.Sound() && AwayFrom(t, r)
      modifies r.x, r.y, r.z, t1, t2, t3, a
      ensures r.Value() == FullAdd(Prime(), old(r.Value()), V(t.x), V(t.y))
    {
      hide Val, Prime, FMul, FAdd, FSub, FSub2, Generic, Double;
      var t4, t5, t7 := t1, t2, t3;
      ghost var p, X, Y, Z := Prime(), V(r.x), V(r.y), V(r.z);
      ghost var x, y := V(t.x), V(t.y);
      var zero := IsZero(r.z);
      if zero {
        Assign(r.x, t.x);
        Assign(r.y, t.y);
        SetUnit(r.z);
        return;
      }
      FieldSq(t7, r.z);
      ghost var zz := FMul(p, Z, Z);
      FieldMul(t4, t.x, t7);
      FieldRange(p, x, zz);
      FieldMul(t7, r.z, t7);
      FieldMul(t5, t.y, t7);
      FieldRange(p, y, FMul(p, Z, zz));
      FieldSub(t4, r.x, t4);
      FieldRange(p, X, FMul(p, x, zz));
      FieldSub(t5, r.y, t5);
      FieldRange(p, Y, FMul(p, y, FMul(p, Z, zz)));
      var hZero := IsZero(t4);
      if hZero {
        var kZero := IsZero(t5);
        if kZero {
          EcDouble(r);
        } else {
          SetUnit(r.x);
          SetUnit(r.y);
          SetZero(r.z);
        }
      } else {
        EcAddGeneric(r);
      }
    }

    /** `y = field_prime - y`. */
    method NegateOrdinate(y: array<Limb>, ghost v: int)
      requires Valid() && Writable(y) && V(y) == v && 0 <= v <= Prime()
      modifies y
      ensures V(y) == Prime() - v
    {
      hide Val, Prime;
      var c := Sub(y, field_prime, y);
    }

    /** `r = r - t`: the ordinate of `t` is negated in place and put back afterwards. */
    method EcFullSub(r: JacobianPoint, t: AffinePoint)
      requires Valid() && Apart(r) && Reduced(Prime(), r.Value())
      requires t.Sound() && AwayFrom(t, r)
      requires V(t.y) < Prime()
      modifies r.x, r.y, r.z, t.y, t1, t2, t3, a
      ensures r.Value() == FullAdd(Prime(), old(r.Value()), V(t.x), if V(t.y) == 0 then 0 else Prime() - V(t.y))
      ensures t.y[..] == old(t.y[..])
    {
      hide Val, Prime, FullAdd;
      ghost var p, y, ys := Prime(), V(t.y), t.y[..];
      Below(ys);
      var z := IsZero(t.y);
      if !z {
        NegateOrdinate(t.y, y);
      }
      EcFullAdd(r, t);
      if !z {
        NegateOrdinate(t.y, p - y);
        ValInjective(t.y[..], ys);
      } else {
        assert t.y[..] == ys;
      }
    }
  }

  lemma ResidueRange(v: int, p: int)
    requires p > 0
    ensures 0 <= FSub(p, v, 0) < p && 0 <= v % p < p
  {
  }

  lemma FieldRange(p: int, a: int, b: int)
    requires p > 0
    ensures 0 <= FMul(p, a, b) < p && 0 <= FAdd(p, a, b) < p && 0 <= FSub(p, a, b) < p
  {
  }

  lemma FieldRange2(p: int, a: int, b: int)
    requires p > 0
    ensures 0 <= FSub2(p, a, b) < p
  {
  }

  lemma DoubleDifference(a: int, b: int, p: int)
    requires p > 0
    ensures FSub(p, FSub(p, a, b), b) == FSub2(p, a, b)
  {
    hide Cong;
    ModCong(a - b, p);
    CongRefl(b, p);
    CongAdd((a - b) % p, a - b, b, b, p);
    CongMod((a - b) % p - b, a - 2 * b, p);
  }

  lemma TripleSum(a: int, p: int)
    requires p > 0
    ensures FAdd(p, a, FMul(p, 2, a)) == FMul(p, 3, a)
  {
    hide Cong;
    ModCong(2 * a, p);
    CongRefl(a, p);
    CongAdd(a, a, (2 * a) % p, 2 * a, p);
    CongMod(a + (2 * a) % p, 3 * a, p);
  }

  lemma TwiceMultiple(k: int, a: int, p: int)
    requires p > 0
    ensures FMul(p, 2, FMul(p, k, a)) == FMul(p, 2 * k, a)
  {
    hide Cong;
    ModCong(k * a, p);
    CongScale(2, (k * a) % p, k * a, p);
    assert 2 * (k * a) == (2 * k) * a;
    CongMod(2 * ((k * a) % p), (2 * k) * a, p);
  }
}
