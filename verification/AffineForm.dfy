/** Back from Jacobian to affine coordinates: `ec_affinify` and the shared inversion of `ec_twin_mul_init`. */
module AffineForm {
  import opened Words
  import opened Limbs
  import opened ModArith
  import opened Residues
  import opened Curves
  import opened Jacobians
  import opened Provider
  import ModDiv

  lemma GcdWithPrime(g: int, p: int, z: int)
    requires IsPrime(p) && 0 < z < p && IsGcd(g, p, z)
    ensures g == 1
  {
    hide Cong;
    DividesBound(g, z);
  }

  /** `inv` undoes `z` modulo the field prime. */
  ghost predicate Inverts(inv: int, z: int) {
    0 <= inv < Prime() && Cong(inv * z, 1, Prime())
  }

  /** `r = 1 / y` in the field. */
  method Invert(e: ECCProvider, r: array<Limb>, y: array<Limb>)
    requires e.Valid() && IsPrime(Prime())
    requires e.Writable(r) && r !in {y, e.t1, e.t2, e.t3} && y.Length == 12 && y !in {e.t1, e.t2, e.t3}
    requires 0 < V(y) < Prime()
    modifies r, e.t1, e.t2, e.t3
    ensures Inverts(V(r), V(y))
  {
    hide Val, Cong, Prime, IsPrime;
    ghost var g := ModDiv.ModDivide(r, e.field_unit, y, e.field_prime, e.t1, e.t2, e.t3);
    GcdWithPrime(g, Prime(), V(y));
  }

  /** The affine coordinates, from the Jacobian ones and the inverse of `z`. */
  lemma AffineCoordinates(c: Curve, r: Jacobian, q: Point, i: int)
    requires Represents(c, r, q) && OnCurve(c, q) && r.z != 0 && Cong(i * r.z, 1, c.p)
    ensures q.Affine?
    ensures FMul(c.p, FMul(c.p, i, i), r.x) == q.x && FMul(c.p, r.x, FMul(c.p, i, i)) == q.x
    ensures FMul(c.p, FMul(c.p, r.y, i), FMul(c.p, i, i)) == q.y
  {
    hide Cong, FMul;
    AffineX(r.x, r.z, q.x, i, c.p);
    AffineY(r.y, r.z, q.y, i, c.p);
  }

  lemma AffineX(x: int, z: int, qx: int, i: int, p: int)
    requires 0 <= qx < p && Cong(x, qx * (z * z), p) && Cong(i * z, 1, p)
    ensures FMul(p, FMul(p, i, i), x) == qx && FMul(p, x, FMul(p, i, i)) == qx
  {
    hide Cong;
    var ii := (i * i) % p;
    ModCong(i * i, p);
    CongMul(ii, i * i, x, qx * (z * z), p);
    CongSquare(i * z, 1, p);
    CongScale(qx, (i * z) * (i * z), 1, p);
    SquareRegroup(i, z, qx);
    CongTrans(ii * x, qx * ((i * z) * (i * z)), qx, p);
    ReducedTo(ii * x, qx, p);
    Commute(x, ii);
  }

  lemma SquareRegroup(i: int, z: int, q: int)
    ensures (i * i) * (q * (z * z)) == q * ((i * z) * (i * z)) && q * 1 == q
  {
  }

  lemma Commute(a: int, b: int)
    ensures a * b == b * a
  {
  }

  lemma AffineY(y: int, z: int, qy: int, i: int, p: int)
    requires 0 <= qy < p && Cong(y, qy * (z * (z * z)), p) && Cong(i * z, 1, p)
    ensures FMul(p, FMul(p, y, i), FMul(p, i, i)) == qy
  {
    hide Cong;
    var ii, yi := (i * i) % p, (y * i) % p;
    ModCong(i * i, p);
    CongRefl(i, p);
    RMul(y, i, qy * (z * (z * z)), i, p);
    CongMul(yi, (qy * (z * (z * z))) * i, ii, i * i, p);
    CongCube(i * z, 1, p);
    CongScale(qy, (i * z) * (i * z) * (i * z), 1, p);
    CubeRegroup(i, z, qy);
    CongTrans(yi * ii, qy * ((i * z) * (i * z) * (i * z)), qy, p);
    ReducedTo(yi * ii, qy, p);
  }

  lemma CubeRegroup(i: int, z: int, q: int)
    ensures ((q * (z * (z * z))) * i) * (i * i) == q * ((i * z) * (i * z) * (i * z)) && q * 1 == q
  {
  }

  lemma ReducedTo(v: int, w: int, p: int)
    requires p > 0 && Cong(v, w, p) && 0 <= w < p
    ensures v % p == w
  {
    hide Cong;
    CongMod(v, w, p);
    DivModUnique(w, 0, w, p);
  }

  /** `r` is `s` in affine form. */
  method EcAffinify(e: ECCProvider, r: AffinePoint, s: JacobianPoint, ghost c: Curve, ghost q: Point)
    requires e.Valid() && e.Apart(s) && c.p == Prime() && IsField(c)
    requires r.Sound() && e.AwayFrom(r, s)
    requires Represents(c, s.Value(), q) && OnCurve(c, q) && q.Affine?
    modifies r.x, r.y, e.t1, e.t2, e.t3, e.a
    ensures r.Value() == q
  {
    hide Val, Cong, Prime, IsPrime, FMul;
    Invert(e, r.x, s.z);
    AffineCoordinates(c, s.Value(), q, V(r.x));
    e.FieldMul(r.y, s.y, r.x);
    e.FieldSq(r.x, r.x);
    e.FieldMul(r.y, r.y, r.x);
    e.FieldMul(r.x, r.x, s.x);
  }

  /** `r = s` as a Jacobian point with z = 1. */
  method EcProjectify(r: JacobianPoint, s: AffinePoint)
    requires r.Sound() && s.Sound() && s.x !in {r.x, r.y, r.z} && s.y !in {r.x, r.y, r.z}
    modifies r.x, r.y, r.z
    ensures r.Value() == Jacobian(V(s.x), V(s.y), 1)
  {
    hide Val;
    Assign(r.x, s.x);
    Assign(r.y, s.y);
    SetUnit(r.z);
  }

  /** One of the two affine points of `ec_twin_mul_init`: `h` inverts `s.z * other`. */
  method SharedAffinify(e: ECCProvider, r: AffinePoint, s: JacobianPoint, other: array<Limb>, ghost c: Curve,
                        ghost q: Point)
    requires e.Valid() && e.Apart(s) && c.p == Prime()
    requires r.Sound() && e.AwayFrom(r, s)
    requires other.Length == 12 && V(other) < Prime()
    requires Represents(c, s.Value(), q) && OnCurve(c, q) && V(s.z) != 0
    requires Cong(V(e.h) * FMul(Prime(), V(s.z), V(other)), 1, Prime())
    modifies r.x, r.y, e.a
    ensures q.Affine? && r.Value() == q
  {
    hide Val, Cong, Prime, FMul;
    SharedInverse(V(e.h), V(s.z), V(other), Prime());
    e.FieldMul(r.x, other, e.h);
    AffineCoordinates(c, s.Value(), q, V(r.x));
    e.FieldMul(r.y, s.y, r.x);
    e.FieldSq(r.x, r.x);
    e.FieldMul(r.y, r.y, r.x);
    e.FieldMul(r.x, s.x, r.x);
  }

  lemma SharedInverse(h: int, z: int, w: int, p: int)
    requires p > 0 && Cong(h * FMul(p, z, w), 1, p)
    ensures Cong(FMul(p, w, h) * z, 1, p)
  {
    hide Cong;
    ModCong(w * h, p);
    CongRefl(z, p);
    CongMul((w * h) % p, w * h, z, z, p);
    ModCong(z * w, p);
    CongScale(h, (z * w) % p, z * w, p);
    CongSym(h * ((z * w) % p), h * (z * w), p);
    CongTrans(h * (z * w), h * ((z * w) % p), 1, p);
    assert (w * h) * z == h * (z * w);
    CongTrans(((w * h) % p) * z, h * (z * w), 1, p);
  }
}
