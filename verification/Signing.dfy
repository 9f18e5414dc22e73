/** `signHash`, `initializePublicKey` and `verifySignature` on the provider's arrays. */
module Signing {
  import opened Words
  import opened Limbs
  import opened ModArith
  import opened Residues
  import opened P384Field
  import opened Curves
  import opened Multiples
  import opened Jacobians
  import opened Provider
  import opened ScalarMultiplication
  import opened TwinScalar
  import opened AffineForm
  import opened Ecdsa
  import GroupArith
  import ModDiv

  class Signature {
    const r: array<Limb>
    const s: array<Limb>

    constructor (r: array<Limb>, s: array<Limb>)
      ensures this.r == r && this.s == s
    {
      this.r, this.s := r, s;
    }
  }

  class PublicKey {
    const x: array<Limb>
    const y: array<Limb>

    constructor (x: array<Limb>, y: array<Limb>)
      ensures this.x == x && this.y == y
    {
      this.x, this.y := x, y;
    }

    ghost function Value(): Point
      reads x, y
    {
      Affine(V(x), V(y))
    }
  }

  /** A caller's array, which none of the provider's buffers is. */
  ghost predicate Outside(home: map<array<Limb>, int>, b: array<Limb>) {
    b in home && home[b] >= 100 && b.Length == 12
  }

  /** A sound provider in the given setting. */
  ghost predicate Ready(e: ECCProvider, c: Curve, home: map<array<Limb>, int>)
    reads e.field_prime, e.group_order, e.field_unit, e.basePoint.x, e.basePoint.y
  {
    e.Valid() && ProviderHome(home, e) && IsSetting(c, e.basePoint.Value())
  }

  /** What a buffer must keep clear of when a multiple of the base point is computed into `rP`. */
  ghost predicate ClearOfMultiple(e: ECCProvider, b: array<Limb>) {
    && b.Length == 12 && e.Foreign(b)
    && b !in {e.rP.x, e.rP.y, e.rP.z, e.basePoint.x, e.basePoint.y}
  }

  lemma OutsideIsClear(home: map<array<Limb>, int>, e: ECCProvider, b: array<Limb>)
    requires ProviderHome(home, e) && Outside(home, b)
    ensures ClearOfMultiple(e, b) && b != e.u1 && b != e.u2
  {
  }

  lemma ProviderIsApart(home: map<array<Limb>, int>, e: ECCProvider)
    requires ProviderHome(home, e)
    ensures e.Apart(e.rP) && e.AwayFrom(e.basePoint, e.rP) && e.basePoint.Sound()
    ensures ClearOfMultiple(e, e.u1) && ClearOfMultiple(e, e.u2) && e.u1 != e.u2
  {
  }

  // Multiples of the base point

  /** `rP = k G`, a finite point. */
  method BaseMultiple(e: ECCProvider, k: array<Limb>, ghost c: Curve)
    requires e.Valid() && IsSetting(c, e.basePoint.Value())
    requires e.Apart(e.rP) && e.AwayFrom(e.basePoint, e.rP) && e.basePoint.Sound()
    requires ClearOfMultiple(e, k) && 0 < V(k) < Order()
    modifies e.h, e.rP.x, e.rP.y, e.rP.z, e.basePoint.y, e.t1, e.t2, e.t3, e.a
    ensures e.basePoint.y[..] == old(e.basePoint.y[..])
    ensures var q := Times(c, V(k), e.basePoint.Value());
      q.Affine? && OnCurve(c, q) && Represents(c, e.rP.Value(), q) && V(e.rP.z) != 0
  {
    hide Val, Prime, Order, Plus, Times, IsPrime, IsGroup, OnCurve;
    ghost var g := e.basePoint.Value();
    SmallMultipleFinite(c, Order(), V(k), g);
    TimesClosed(c, V(k), g);
    EcMul(e, e.rP, k, e.basePoint, c);
  }

  /** `r` is the abscissa of `k G`. */
  method BaseAbscissa(e: ECCProvider, r: array<Limb>, k: array<Limb>, ghost c: Curve)
    requires e.Valid() && IsSetting(c, e.basePoint.Value())
    requires e.Apart(e.rP) && e.AwayFrom(e.basePoint, e.rP) && e.basePoint.Sound()
    requires ClearOfMultiple(e, k) && 0 < V(k) < Order()
    requires ClearOfMultiple(e, r) && r != k
    modifies r, e.h, e.rP.x, e.rP.y, e.rP.z, e.basePoint.y, e.t1, e.t2, e.t3, e.a
    ensures e.basePoint.y[..] == old(e.basePoint.y[..])
    ensures var q := Times(c, V(k), e.basePoint.Value());
      q.Affine? && V(r) == q.x < Prime()
  {
    hide Val, Prime, Order, Plus, Times, IsGroup, OnCurve, FMul, Cong, IsPrime;
    BaseMultiple(e, k, c);
    ghost var q := Times(c, V(k), e.basePoint.Value());
    SettingIsField(c, e.basePoint.Value());
    Invert(e, r, e.rP.z);
    AffineCoordinates(c, e.rP.Value(), q, V(r));
    AbscissaRange(c, q);
    e.FieldSq(r, r);
    e.FieldMul(r, r, e.rP.x);
  }

  lemma SettingIsField(c: Curve, g: Point)
    requires IsSetting(c, g)
    ensures IsField(c) && c.p == Prime() && IsPrime(Prime()) && IsPrime(Order())
  {
  }

  /** The public key `d G`; a key outside the range is refused. */
  method InitializePublicKey(e: ECCProvider, key: PublicKey, d: array<Limb>, ghost c: Curve,
                             ghost home: map<array<Limb>, int>)
    returns (ok: bool)
    requires Ready(e, c, home) && Outside(home, d)
    requires Outside(home, key.x) && Outside(home, key.y) && key.x != key.y && d !in {key.x, key.y}
    modifies key.x, key.y, e.h, e.rP.x, e.rP.y, e.rP.z, e.basePoint.y, e.t1, e.t2, e.t3, e.a
    ensures e.basePoint.y[..] == old(e.basePoint.y[..])
    ensures ok <==> 0 < V(d) < Order()
    ensures ok ==> key.Value() == Times(c, V(d), e.basePoint.Value())
    ensures !ok ==> key.x[..] == old(key.x[..]) && key.y[..] == old(key.y[..])
  {
    hide Val, Prime, Order, Times, IsSetting, ProviderHome, At;
    ProviderIsApart(home, e);
    OutsideIsClear(home, e, d);
    OutsideIsClear(home, e, key.x);
    OutsideIsClear(home, e, key.y);
    ok := InRange(e, d);
    if ok {
      PublicPoint(e, key, d, c);
    }
  }

  /** `0 < d < group_order`, the check on private and ephemeral keys. */
  method InRange(e: ECCProvider, d: array<Limb>) returns (ok: bool)
    requires e.Valid() && d.Length == 12
    ensures ok <==> 0 < V(d) < Order()
  {
    hide Val;
    Below(d[..]);
    var zero := IsZero(d);
    if zero { return false; }
    var large := Leq(e.group_order, d);
    return !large;
  }

  method PublicPoint(e: ECCProvider, key: PublicKey, d: array<Limb>, ghost c: Curve)
    requires e.Valid() && IsSetting(c, e.basePoint.Value())
    requires e.Apart(e.rP) && e.AwayFrom(e.basePoint, e.rP) && e.basePoint.Sound()
    requires ClearOfMultiple(e, d) && 0 < V(d) < Order()
    requires ClearOfMultiple(e, key.x) && ClearOfMultiple(e, key.y) && key.x != key.y && d !in {key.x, key.y}
    modifies key.x, key.y, e.h, e.rP.x, e.rP.y, e.rP.z, e.basePoint.y, e.t1, e.t2, e.t3, e.a
    ensures e.basePoint.y[..] == old(e.basePoint.y[..])
    ensures key.Value() == Times(c, V(d), e.basePoint.Value())
  {
    hide Val, Prime, Order, Plus, Times, IsGroup, OnCurve, FMul, Cong, IsPrime;
    BaseMultiple(e, d, c);
    ghost var q := Times(c, V(d), e.basePoint.Value());
    SettingIsField(c, e.basePoint.Value());
    Invert(e, key.x, e.rP.z);
    AffineCoordinates(c, e.rP.Value(), q, V(key.x));
    e.FieldMul(key.y, e.rP.y, key.x);
    e.FieldSq(key.x, key.x);
    e.FieldMul(key.y, key.y, key.x);
    e.FieldMul(key.x, key.x, e.rP.x);
  }

  // Signing

  /** `u2` is the hash modulo the order: one subtraction, since the order exceeds half of `2^384`. */
  method NormalizeHash(e: ECCProvider, u: array<Limb>, hash: array<Limb>)
    requires e.Valid() && e.Writable(u) && hash.Length == 12
    modifies u
    ensures V(u) == old(V(hash)) % Order()
  {
    hide Val;
    ghost var v := V(hash);
    OrderIs();
    Assign(u, hash);
    Below(u[..]);
    var large := Leq(e.group_order, u);
    if large {
      var c := Sub(u, u, e.group_order);
      Below(u[..]);
    }
    DivModUnique(v, if v < Order() then 0 else 1, V(u), Order());
  }

  /** `r = x (mod order)` for a field element. */
  method ReduceAbscissa(e: ECCProvider, r: array<Limb>)
    requires e.Valid() && e.Writable(r) && V(r) < Prime()
    modifies r
    ensures V(r) == old(V(r)) % Order()
  {
    hide Val;
    ghost var v := V(r);
    OrderIs();
    PrimeIs();
    Below(r[..]);
    var large := Leq(e.group_order, r);
    if large {
      var c := Sub(r, r, e.group_order);
      Below(r[..]);
    }
    DivModUnique(v, if v < Order() then 0 else 1, V(r), Order());
  }

  lemma OrderNearTop()
    ensures GroupArith.NearTop(Order(), 12)
  {
    OrderIs();
    PowHigh();
  }

  /** `z = x * y (mod order)`. */
  method GroupMul(e: ECCProvider, z: array<Limb>, x: array<Limb>, y: array<Limb>)
    requires e.Valid() && e.Writable(z) && x.Length == 12 && y.Length == 12 && z !in {x, y}
    modifies z
    ensures V(z) == (V(x) * V(y)) % Order()
  {
    hide Val, Order;
    OrderNearTop();
    GroupArith.GroupMul(z, x, y, e.group_order);
  }

  /** `s = h / k (mod order)`. */
  method GroupDiv(e: ECCProvider, s: array<Limb>, h: array<Limb>, k: array<Limb>)
    requires e.Valid() && IsPrime(Order())
    requires e.Writable(s) && s !in {h, k, e.t1, e.t2, e.t3} && h.Length == 12 && k.Length == 12
    requires h !in {e.t1, e.t2, e.t3} && k !in {e.t1, e.t2, e.t3}
    requires V(h) < Order() && 0 < V(k) < Order()
    modifies s, e.t1, e.t2, e.t3
    ensures V(s) == Quotient(V(h), V(k))
  {
    hide Val, Cong, Order, IsPrime, Quotient;
    OrderIsOdd();
    ghost var g := ModDiv.ModDivide(s, h, k, e.group_order, e.t1, e.t2, e.t3);
    GcdWithPrime(g, Order(), V(k));
    QuotientUniqueMod(V(s), V(h), V(k));
  }

  lemma OrderIsOdd()
    ensures Order() % 2 == 1
  {
  }

  datatype SignResult = Rejected | Unlucky | Success

  /** Second half of `signHash`: `s = (u2 + d r) / k`, with `u2` the reduced hash. */
  method SignScalar(e: ECCProvider, signature: Signature, d: array<Limb>, k: array<Limb>) returns (ok: bool)
    requires e.Valid() && IsPrime(Order())
    requires e.Foreign(signature.r) && e.Foreign(signature.s) && e.Foreign(d) && e.Foreign(k) && e.Foreign(e.u2)
    requires signature.r.Length == 12 && signature.s.Length == 12 && d.Length == 12 && k.Length == 12 &&
      e.u2.Length == 12
    requires signature.s !in {signature.r, d, k, e.u2} && signature.r !in {d, k, e.u2}
    requires V(e.u2) < Order() && 0 < V(k) < Order()
    modifies signature.r, signature.s, e.h, e.t1, e.t2, e.t3
    ensures var s := Quotient((V(e.u2) + (V(d) * old(V(signature.r))) % Order()) % Order(), V(k));
      && V(signature.s) == s && (ok <==> s != 0)
      && V(signature.r) == (if ok then old(V(signature.r)) else 0)
  {
    hide Val, Order, IsPrime, Quotient;
    GroupMul(e, e.h, d, signature.r);
    OrderAboveOne();
    ResidueBelow(V(d) * V(signature.r), Order());
    Below(e.u2[..]);
    ReducedSum(V(e.u2), V(e.h));
    GroupAdd(e, e.h, e.u2, e.h);
    ResidueBelow(V(e.u2) + (V(d) * V(signature.r)) % Order(), Order());
    GroupDiv(e, signature.s, e.h, k);
    var failed := IsZero(signature.s);
    if failed {
      SetZero(signature.r);
    }
    ok := !failed;
  }

  /** Signs `hashValue`; keys out of range are refused, and the attempt fails on a zero `r` or `s`, both
      parts being zero then. */
  method SignHash(e: ECCProvider, signature: Signature, privateKey: array<Limb>, hashValue: array<Limb>,
                  ephemeralKey: array<Limb>, ghost c: Curve, ghost home: map<array<Limb>, int>)
    returns (result: SignResult)
    requires Ready(e, c, home)
    requires Outside(home, privateKey) && Outside(home, hashValue) && Outside(home, ephemeralKey)
    requires Outside(home, signature.r) && Outside(home, signature.s) && signature.r != signature.s
    requires privateKey !in {signature.r, signature.s} && hashValue !in {signature.r, signature.s}
    requires ephemeralKey !in {signature.r, signature.s}
    modifies signature.r, signature.s, e.u2, e.h, e.rP.x, e.rP.y, e.rP.z, e.basePoint.y, e.t1, e.t2, e.t3, e.a
    ensures e.basePoint.y[..] == old(e.basePoint.y[..])
    ensures result == Rejected <==> !(0 < V(privateKey) < Order() && 0 < V(ephemeralKey) < Order())
    ensures result == Rejected ==> signature.r[..] == old(signature.r[..]) && signature.s[..] == old(signature.s[..])
    ensures var o := Sign(c, e.basePoint.Value(), V(privateKey), V(hashValue), V(ephemeralKey));
      && (result == Success ==> o == Signed(V(signature.r), V(signature.s)))
      && (result == Unlucky ==> o == Failed && V(signature.r) == 0 && V(signature.s) == 0)
    ensures result == Success ==>
      IsSignature(c, e.basePoint.Value(), V(privateKey), V(hashValue), V(ephemeralKey), V(signature.r), V(signature.s))
  {
    hide Val, Prime, Order, Times, IsSetting, ProviderHome, At, Quotient, Sign, IsSignature;
    ProviderIsApart(home, e);
    OutsideIsClear(home, e, privateKey);
    OutsideIsClear(home, e, hashValue);
    OutsideIsClear(home, e, ephemeralKey);
    OutsideIsClear(home, e, signature.r);
    OutsideIsClear(home, e, signature.s);
    var dOk := InRange(e, privateKey);
    if !dOk { return Rejected; }
    var kOk := InRange(e, ephemeralKey);
    if !kOk { return Rejected; }
    SignMeans(c, e.basePoint.Value(), V(privateKey), V(hashValue), V(ephemeralKey));
    result := SignInRange(e, signature, privateKey, hashValue, ephemeralKey, c);
  }

  method SignInRange(e: ECCProvider, signature: Signature, d: array<Limb>, hash: array<Limb>, k: array<Limb>,
                     ghost c: Curve)
    returns (result: SignResult)
    requires e.Valid() && IsSetting(c, e.basePoint.Value())
    requires e.Apart(e.rP) && e.AwayFrom(e.basePoint, e.rP) && e.basePoint.Sound()
    requires ClearOfMultiple(e, e.u2) && ClearOfMultiple(e, d) && ClearOfMultiple(e, hash) && ClearOfMultiple(e, k)
    requires ClearOfMultiple(e, signature.r) && ClearOfMultiple(e, signature.s) && signature.r != signature.s
    requires e.u2 !in {d, hash, k, signature.r, signature.s}
    requires signature.r !in {d, hash, k} && signature.s !in {d, hash, k}
    requires 0 < V(d) < Order() && 0 < V(k) < Order()
    modifies signature.r, signature.s, e.u2, e.h, e.rP.x, e.rP.y, e.rP.z, e.basePoint.y, e.t1, e.t2, e.t3, e.a
    ensures e.basePoint.y[..] == old(e.basePoint.y[..])
    ensures result != Rejected
    ensures var o := Sign(c, e.basePoint.Value(), V(d), V(hash), V(k));
      && (result == Success ==> o == Signed(V(signature.r), V(signature.s)))
      && (result == Unlucky ==> o == Failed && V(signature.r) == 0 && V(signature.s) == 0)
  {
    hide Val, Prime, Order, Times, IsGroup, OnCurve, IsPrime, Quotient;
    ghost var g, vh, vd, vk := e.basePoint.Value(), V(hash), V(d), V(k);
    OrderAboveOne();
    NormalizeHash(e, e.u2, hash);
    ResidueBelow(vh, Order());
    BaseAbscissa(e, signature.r, k, c);
    ghost var q := Times(c, vk, g);
    ReduceAbscissa(e, signature.r);
    var zero := IsZero(signature.r);
    if zero {
      SetZero(signature.s);
      return Unlucky;
    }
    SettingIsField(c, g);
    var ok := SignScalar(e, signature, d, k);
    result := if ok then Success else Unlucky;
  }
}
