/** `verifySignature` on the provider's arrays, and the round trip from signing to verifying. */
module Verifying {
  import opened Words
  import opened Limbs
  import opened ModArith
  import opened Residues
  import opened P384Field
  import opened Curves
  import opened Multiples
  import opened Jacobians
  import opened Provider
  import opened ScalarMultiplication
  import opened TwinScalar
  import opened AffineForm
  import opened Ecdsa
  import opened Signing

  // The two scalars

  /** `u1 = hash / s` and `u2 = r / s` modulo the order. */
  method VerifyScalars(e: ECCProvider, hash: array<Limb>, r: array<Limb>, s: array<Limb>)
    requires e.Valid() && IsPrime(Order())
    requires ClearOfMultiple(e, e.u1) && ClearOfMultiple(e, e.u2) && e.u1 != e.u2
    requires ClearOfMultiple(e, hash) && ClearOfMultiple(e, r) && ClearOfMultiple(e, s)
    requires hash !in {e.u1, e.u2} && r !in {e.u1, e.u2} && s !in {e.u1, e.u2}
    requires 0 < V(s) < Order()
    modifies e.u1, e.u2, e.h, e.t1, e.t2, e.t3
    ensures V(e.u1) == ((V(hash) % Order()) * Quotient(1, V(s))) % Order()
    ensures V(e.u2) == (V(r) * Quotient(1, V(s))) % Order()
  {
    hide Val, Order, IsPrime, Quotient;
    OrderAboveOne();
    NormalizeHash(e, e.u2, hash);
    GroupDiv(e, e.h, e.field_unit, s);
    GroupMul(e, e.u1, e.u2, e.h);
    GroupMul(e, e.u2, r, e.h);
  }

  // The comparison

  /** `t1 = k z^2` equals the Jacobian abscissa exactly when `k` is the affine abscissa modulo the prime. */
  lemma ScaledAbscissa(c: Curve, j: Jacobian, q: Point, k: int)
    requires IsP384(c) && Represents(c, j, q) && OnCurve(c, q) && q.Affine?
    ensures FMul(Prime(), k, FMul(Prime(), j.z, j.z)) == j.x <==> q.x == k % Prime()
  {
    hide Cong, IsPrime, Prime, Associative;
    var p, z2 := Prime(), (j.z * j.z) % Prime();
    SmallNonzero(j.z, p);
    NonzeroProduct(j.z, j.z, p);
    ModCong(j.z * j.z, p);
    CongScale(k, z2, j.z * j.z, p);
    CongSym(j.x, q.x * (j.z * j.z), p);
    if (k * z2) % p == j.x {
      ScaledMatches(k, z2, j.x, p);
      CongTrans(j.x, k * z2, k * (j.z * j.z), p);
      CongTrans(q.x * (j.z * j.z), j.x, k * (j.z * j.z), p);
      Commute(q.x, j.z * j.z);
      Commute(k, j.z * j.z);
      CongCancel(j.z * j.z, q.x, k, p);
      CongReduced(q.x, k, p);
    }
    if q.x == k % p {
      ModCong(k, p);
      CongSym(q.x, k, p);
      Commute(q.x, j.z * j.z);
      Commute(k, j.z * j.z);
      CongScale(j.z * j.z, k, q.x, p);
      CongTrans(k * z2, k * (j.z * j.z), q.x * (j.z * j.z), p);
      CongTrans(k * z2, q.x * (j.z * j.z), j.x, p);
      ReducedTo(k * z2, j.x, p);
    }
  }

  lemma ScaledMatches(k: int, z2: int, x: int, p: int)
    requires p > 0 && (k * z2) % p == x
    ensures Cong(x, k * z2, p)
  {
    hide Cong;
    ModCong(k * z2, p);
  }

  lemma SmallResidue(r: int)
    requires 0 <= r < Order()
    ensures r % Prime() == r && r < TwoTo384()
  {
    OrderIs();
    PrimeIs();
    DivModUnique(r, 0, r, Prime());
  }

  lemma InfinityHasNoDepth(c: Curve, j: Jacobian, q: Point)
    requires Represents(c, j, q)
    ensures j.z == 0 <==> q.Infinity?
  {
  }

  /** The end of `verifySignature`: the point in `rP` is finite and its abscissa passes the comparison. */
  method CheckAbscissa(e: ECCProvider, r: array<Limb>, ghost c: Curve, ghost q: Point) returns (ok: bool)
    requires e.Valid() && IsP384(c) && e.Apart(e.rP) && ClearOfMultiple(e, r)
    requires Represents(c, e.rP.Value(), q) && OnCurve(c, q) && 0 < V(r) < Order()
    modifies e.rP.z, e.h, e.t1, e.a
    ensures ok <==> q.Affine? && Accepts(q.x, V(r))
  {
    hide Val, Prime, Order, OnCurve, IsP384, Represents, FMul;
    ghost var j, vr := e.rP.Value(), V(r);
    InfinityHasNoDepth(c, j, q);
    SmallResidue(vr);
    var nowhere := IsZero(e.rP.z);
    if nowhere { return false; }
    e.FieldSq(e.rP.z, e.rP.z);
    e.FieldMul(e.t1, r, e.rP.z);
    ScaledAbscissa(c, j, q, vr);
    var same := IsEqual(e.t1, e.rP.x);
    if same { return true; }
    ok := CheckShifted(e, r, c, j, q);
  }

  /** The second comparison, with `r + n` unless that carries. */
  method CheckShifted(e: ECCProvider, r: array<Limb>, ghost c: Curve, ghost j: Jacobian, ghost q: Point)
    returns (ok: bool)
    requires e.Valid() && IsP384(c) && e.Apart(e.rP) && ClearOfMultiple(e, r)
    requires Represents(c, j, q) && OnCurve(c, q) && q.Affine?
    requires V(e.rP.x) == j.x && V(e.rP.z) == FMul(Prime(), j.z, j.z)
    modifies e.h, e.t1, e.a
    ensures ok <==> V(r) + Order() < TwoTo384() && q.x == (V(r) + Order()) % Prime()
  {
    hide Val, Prime, Order, OnCurve, IsP384, Represents, FMul, TwoTo384;
    ghost var vr := V(r);
    var carry := Add(e.h, r, e.group_order);
    PowHigh();
    Below(e.h[..]);
    if carry != 0 { return false; }
    e.FieldMul(e.t1, e.h, e.rP.z);
    ScaledAbscissa(c, j, q, vr + Order());
    ok := IsEqual(e.t1, e.rP.x);
  }

  // Verification

  /** The provider's buffers and the caller's arrays are laid out as `verifySignature` needs them. */
  ghost predicate Arranged(e: ECCProvider, hash: array<Limb>, r: array<Limb>, s: array<Limb>, key: PublicKey) {
    && ClearOfMultiple(e, e.u1) && ClearOfMultiple(e, e.u2) && e.u1 != e.u2
    && ClearOfMultiple(e, hash) && ClearOfMultiple(e, r) && ClearOfMultiple(e, s)
    && hash !in {e.u1, e.u2} && r !in {e.u1, e.u2} && s !in {e.u1, e.u2}
    && Twinned(e, e.u1) && Twinned(e, e.u2) && Twinned(e, r) && Twinned(e, key.x) && Twinned(e, key.y)
    && key.x !in {e.u1, e.u2} && key.y !in {e.u1, e.u2}
    && TwinApart(e, e.rP, e.basePoint, e.qPoint, e.sPtP, e.sMtP, e.sPt, e.sMt)
    && e.basePoint.x !in {e.u1, e.u2} && e.basePoint.y !in {e.u1, e.u2}
  }

  ghost predicate Twinned(e: ECCProvider, b: array<Limb>) {
    b.Length == 12 && Scalar(e, b, e.rP, e.basePoint, e.qPoint, e.sPtP, e.sMtP, e.sPt, e.sMt)
  }

  lemma OutsideIsTwinned(home: map<array<Limb>, int>, e: ECCProvider, b: array<Limb>)
    requires ProviderHome(home, e) && Outside(home, b)
    ensures Twinned(e, b) && b !in {e.u1, e.u2} && ClearOfMultiple(e, b)
  {
  }

  lemma ProviderTwins(home: map<array<Limb>, int>, e: ECCProvider)
    requires ProviderHome(home, e)
    ensures TwinApart(e, e.rP, e.basePoint, e.qPoint, e.sPtP, e.sMtP, e.sPt, e.sMt)
    ensures Twinned(e, e.u1) && Twinned(e, e.u2)
    ensures e.basePoint.x !in {e.u1, e.u2} && e.basePoint.y !in {e.u1, e.u2}
    ensures ClearOfMultiple(e, e.u1) && ClearOfMultiple(e, e.u2) && e.u1 != e.u2
  {
    HomesAreApart(home, e, e.rP, e.basePoint, e.qPoint, e.sPtP, e.sMtP, e.sPt, e.sMt);
  }

  lemma Arrange(home: map<array<Limb>, int>, e: ECCProvider, hash: array<Limb>, r: array<Limb>, s: array<Limb>,
                key: PublicKey)
    requires ProviderHome(home, e) && Outside(home, hash) && Outside(home, r) && Outside(home, s)
    requires Outside(home, key.x) && Outside(home, key.y)
    ensures Arranged(e, hash, r, s, key)
  {
    hide ProviderHome, Outside, ClearOfMultiple, Twinned, TwinApart;
    ProviderTwins(home, e);
    OutsideIsTwinned(home, e, hash);
    OutsideIsTwinned(home, e, r);
    OutsideIsTwinned(home, e, s);
    OutsideIsTwinned(home, e, key.x);
    OutsideIsTwinned(home, e, key.y);
  }

  /** `rP = u1 G + u2 Q`. */
  method VerifyPoint(e: ECCProvider, key: PublicKey, ghost c: Curve)
    requires e.Valid() && IsSetting(c, e.basePoint.Value()) && OnCurve(c, key.Value())
    requires TwinApart(e, e.rP, e.basePoint, e.qPoint, e.sPtP, e.sMtP, e.sPt, e.sMt)
    requires Twinned(e, e.u1) && Twinned(e, e.u2) && Twinned(e, key.x) && Twinned(e, key.y)
    requires V(e.u1) < Order() && V(e.u2) < Order()
    modifies e.qPoint.x, e.qPoint.y, e.h, e.rP.x, e.rP.y, e.rP.z, e.basePoint.y,
             e.sPtP.x, e.sPtP.y, e.sPtP.z, e.sMtP.x, e.sMtP.y, e.sMtP.z, e.sPt.x, e.sPt.y, e.sMt.x, e.sMt.y,
             e.t1, e.t2, e.t3, e.a
    ensures e.basePoint.y[..] == old(e.basePoint.y[..])
    ensures Represents(c, e.rP.Value(), old(Combination(c, V(e.u1), e.basePoint.Value(), V(e.u2), key.Value())))
  {
    hide Val, Prime, Order, Times, Combination, OnCurve, IsGroup, Represents, IsPrime;
    Assign(e.qPoint.x, key.x);
    Assign(e.qPoint.y, key.y);
    Below(e.u1[..]);
    Below(e.u2[..]);
    ReducedIsEnough(V(e.u1), V(e.u2), V(e.basePoint.y) == V(e.qPoint.y));
    EcTwinMul(e, e.rP, e.u1, e.basePoint, e.u2, e.qPoint, e.sPtP, e.sMtP, e.sPt, e.sMt, c);
  }

  lemma CombinationCloses(c: Curve, j: int, q: Point, k: int, r: Point)
    requires IsP384(c) && OnCurve(c, q) && OnCurve(c, r)
    ensures OnCurve(c, Combination(c, j, q, k, r))
  {
    CombinationClosed(c, j, q, k, r);
  }

  /** `verifySignature` past the range checks. */
  method VerifyInRange(e: ECCProvider, hash: array<Limb>, signature: Signature, key: PublicKey, ghost c: Curve)
    returns (ok: bool)
    requires e.Valid() && IsSetting(c, e.basePoint.Value()) && OnCurve(c, key.Value())
    requires Arranged(e, hash, signature.r, signature.s, key)
    requires 0 < V(signature.r) < Order() && 0 < V(signature.s) < Order()
    modifies e.u1, e.u2, e.qPoint.x, e.qPoint.y, e.h, e.rP.x, e.rP.y, e.rP.z, e.basePoint.y,
             e.sPtP.x, e.sPtP.y, e.sPtP.z, e.sMtP.x, e.sMtP.y, e.sMtP.z, e.sPt.x, e.sPt.y, e.sMt.x, e.sMt.y,
             e.t1, e.t2, e.t3, e.a
    ensures e.basePoint.y[..] == old(e.basePoint.y[..])
    ensures ok <==> old(Verify(c, e.basePoint.Value(), V(hash), V(signature.r), V(signature.s), key.Value()))
  {
    hide Val, Prime, Order, Times, Combination, OnCurve, IsGroup, Represents, IsPrime, Quotient, Accepts;
    ghost var g, q, vh, vr, vs := e.basePoint.Value(), key.Value(), V(hash), V(signature.r), V(signature.s);
    ghost var n, w := Order(), Quotient(1, vs);
    SettingIsField(c, g);
    VerifyScalars(e, hash, signature.r, signature.s);
    OrderAboveOne();
    ResidueBelow((vh % n) * w, n);
    ResidueBelow(vr * w, n);
    VerifyPoint(e, key, c);
    ghost var v := Combination(c, ((vh % n) * w) % n, g, (vr * w) % n, q);
    CombinationCloses(c, ((vh % n) * w) % n, g, (vr * w) % n, q);
    ok := CheckAbscissa(e, signature.r, c, v);
  }

  /** Accepts exactly the signatures of `Ecdsa.Verify`, for any public key on the curve. */
  method VerifySignature(e: ECCProvider, hashValue: array<Limb>, signature: Signature, key: PublicKey,
                         ghost c: Curve, ghost home: map<array<Limb>, int>)
    returns (ok: bool)
    requires Ready(e, c, home) && Outside(home, hashValue)
    requires Outside(home, signature.r) && Outside(home, signature.s)
    requires Outside(home, key.x) && Outside(home, key.y) && OnCurve(c, key.Value())
    modifies e.u1, e.u2, e.qPoint.x, e.qPoint.y, e.h, e.rP.x, e.rP.y, e.rP.z, e.basePoint.y,
             e.sPtP.x, e.sPtP.y, e.sPtP.z, e.sMtP.x, e.sMtP.y, e.sMtP.z, e.sPt.x, e.sPt.y, e.sMt.x, e.sMt.y,
             e.t1, e.t2, e.t3, e.a
    ensures e.basePoint.y[..] == old(e.basePoint.y[..])
    ensures ok <==> old(Verify(c, e.basePoint.Value(), V(hashValue), V(signature.r), V(signature.s), key.Value()))
    ensures old(VerifyStandard(c, e.basePoint.Value(), V(hashValue), V(signature.r), V(signature.s), key.Value()))
      ==> ok
    ensures !old(Wraps(V(signature.r))) ==>
      (ok <==> old(VerifyStandard(c, e.basePoint.Value(), V(hashValue), V(signature.r), V(signature.s), key.Value())))
  {
    hide Val, Prime, Order, Times, Combination, IsSetting, OnCurve, ProviderHome, Arranged, Quotient, Accepts,
         VerifyStandard, Wraps;
    VerifyIsStandard(c, e.basePoint.Value(), V(hashValue), V(signature.r), V(signature.s), key.Value());
    Arrange(home, e, hashValue, signature.r, signature.s, key);
    var rOk := InRange(e, signature.r);
    if !rOk { return false; }
    var sOk := InRange(e, signature.s);
    if !sOk { return false; }
    ok := VerifyInRange(e, hashValue, signature, key, c);
  }

  // The round trip

  /** A signature that `SignHash` has made is accepted under the public key of the signing key. */
  method SignThenVerify(e: ECCProvider, signature: Signature, key: PublicKey, d: array<Limb>, hashValue: array<Limb>,
                        k: array<Limb>, ghost c: Curve, ghost home: map<array<Limb>, int>)
    returns (result: SignResult, accepted: bool)
    requires Ready(e, c, home)
    requires Outside(home, d) && Outside(home, hashValue) && Outside(home, k)
    requires Outside(home, signature.r) && Outside(home, signature.s) && signature.r != signature.s
    requires Outside(home, key.x) && Outside(home, key.y)
    requires d !in {signature.r, signature.s} && hashValue !in {signature.r, signature.s}
    requires k !in {signature.r, signature.s} && key.x !in {signature.r, signature.s} &&
      key.y !in {signature.r, signature.s}
    requires key.Value() == Times(c, V(d), e.basePoint.Value())
    modifies signature.r, signature.s, e.u1, e.u2, e.qPoint.x, e.qPoint.y, e.h, e.rP.x, e.rP.y, e.rP.z, e.basePoint.y,
             e.sPtP.x, e.sPtP.y, e.sPtP.z, e.sMtP.x, e.sMtP.y, e.sMtP.z, e.sPt.x, e.sPt.y, e.sMt.x, e.sMt.y,
             e.t1, e.t2, e.t3, e.a
    ensures result == Success ==> accepted
  {
    hide Val, Prime, Order, Times, IsSetting, ProviderHome, At, Sign, Verify, OnCurve;
    ghost var g, q, vd, vh, vk := e.basePoint.Value(), key.Value(), V(d), V(hashValue), V(k);
    KeyOnCurve(c, vd, g);
    result := SignHash(e, signature, d, hashValue, k, c, home);
    OutsideIsDistinct(home, e, key.x);
    OutsideIsDistinct(home, e, key.y);
    OutsideIsDistinct(home, e, hashValue);
    OutsideIsDistinct(home, e, d);
    OutsideIsDistinct(home, e, k);
    ConstantsAreApart(home, e, signature.r);
    ConstantsAreApart(home, e, signature.s);
    accepted := VerifySignature(e, hashValue, signature, key, c, home);
    if result == Success {
      Completeness(c, g, vd, vh, vk);
    }
  }

  lemma KeyOnCurve(c: Curve, d: int, g: Point)
    requires IsSetting(c, g)
    ensures OnCurve(c, Times(c, d, g))
  {
    TimesClosed(c, d, g);
  }

  lemma OutsideIsDistinct(home: map<array<Limb>, int>, e: ECCProvider, b: array<Limb>)
    requires ProviderHome(home, e) && Outside(home, b)
    ensures b !in {e.u2, e.h, e.rP.x, e.rP.y, e.rP.z, e.basePoint.x, e.basePoint.y, e.t1, e.t2, e.t3}
  {
  }

  lemma ConstantsAreApart(home: map<array<Limb>, int>, e: ECCProvider, b: array<Limb>)
    requires ProviderHome(home, e) && Outside(home, b)
    ensures e.field_prime !in {b, e.u2, e.h, e.rP.x, e.rP.y, e.rP.z, e.basePoint.y, e.t1, e.t2, e.t3}
    ensures e.group_order !in {b, e.u2, e.h, e.rP.x, e.rP.y, e.rP.z, e.basePoint.y, e.t1, e.t2, e.t3}
    ensures e.field_unit !in {b, e.u2, e.h, e.rP.x, e.rP.y, e.rP.z, e.basePoint.y, e.t1, e.t2, e.t3}
    ensures e.basePoint.x.Length == 12 &&
      e.basePoint.x !in {b, e.u2, e.h, e.rP.x, e.rP.y, e.rP.z, e.basePoint.y, e.t1, e.t2, e.t3}
  {
  }
}
