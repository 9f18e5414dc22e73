/** Jacobian coordinates: the straight-line formulas of `ec_double` and `ec_full_add` on residues, and
    the proof that in every branch they compute the chord and tangent law.
 */
module Jacobians {
  import opened ModArith
  import opened Residues
  import opened Curves

  datatype Jacobian = Jacobian(x: int, y: int, z: int)

  predicate Reduced(p: int, r: Jacobian) {
    0 <= r.x < p && 0 <= r.y < p && 0 <= r.z < p
  }

  /** `r` stands for `q`: z = 0 is the point at infinity, else q = (x / z^2, y / z^3). */
  ghost predicate Represents(c: Curve, r: Jacobian, q: Point) {
    && Reduced(c.p, r)
    && if r.z == 0 then q.Infinity? else
         && q.Affine?
         && Cong(r.x, q.x * (r.z * r.z), c.p)
         && Cong(r.y, q.y * (r.z * (r.z * r.z)), c.p)
  }

  /** The point at infinity as the code writes it. */
  const NOWHERE := Jacobian(1, 1, 0)

  // Doubling

  /** `ec_double`, each line one field operation. */
  function Double(p: int, r: Jacobian): Jacobian
    requires p > 3
  {
    if r.z == 0 then NOWHERE else
    var zz := FMul(p, r.z, r.z);
    var minus := FSub(p, r.x, zz);
    var plus := FAdd(p, r.x, zz);
    var m := FMul(p, 3, FMul(p, plus, minus));
    var z3 := FMul(p, 2, FMul(p, r.z, r.y));
    var yy := FMul(p, r.y, r.y);
    var s := FMul(p, 4, FMul(p, r.x, yy));
    var x3 := FSub2(p, FMul(p, m, m), s);
    var y8 := FMul(p, 8, FMul(p, yy, yy));
    Jacobian(x3, FSub(p, FMul(p, m, FSub(p, s, x3)), y8), z3)
  }

  lemma DoubleReduced(p: int, r: Jacobian)
    requires p > 3
    ensures Reduced(p, Double(p, r))
  {
  }

  /** The doubling formulas in terms of the affine coordinates `x`, `y`, the slope `l` and the new `z`,
      `w = 2 y z^4`. */
  lemma DoubleCongruent(p: int, r: Jacobian, x: int, y: int, l: int)
    requires p > 3 && r.z != 0
    requires Cong(r.x, x * (r.z * r.z), p) && Cong(r.y, y * (r.z * (r.z * r.z)), p)
    requires Cong(l * (2 * y), 3 * (x * x) - 3, p)
    ensures var d := Double(p, r);
      var w := 2 * y * (r.z * r.z * (r.z * r.z));
      && Cong(d.z, w, p)
      && Cong(d.x, (l * l - x - x) * (w * w), p)
      && Cong(d.y, (l * (x - (l * l - x - x)) - y) * (w * w * w), p)
  {
    hide Cong;
    var z, u := r.z, r.z * r.z;
    var w := 2 * y * (u * u);
    var zz := (z * z) % p;
    ModCong(z * z, p);
    var minus, plus := (r.x - zz) % p, (r.x + zz) % p;
    RSub(r.x, zz, x * u, u, p);
    RAdd(r.x, zz, x * u, u, p);
    var prod := (plus * minus) % p;
    RMul(plus, minus, x * u + u, x * u - u, p);
    var m := (3 * prod) % p;
    CongRefl(3, p);
    RMul(3, prod, 3, (x * u + u) * (x * u - u), p);
    SlopeTimes(x, y, l, u, p);
    CongTrans(m, 3 * ((x * u + u) * (x * u - u)), l * w, p);

    var zy := (z * r.y) % p;
    CongRefl(z, p);
    RMul(z, r.y, z, y * (z * u), p);
    var z3 := (2 * zy) % p;
    CongRefl(2, p);
    RMul(2, zy, 2, z * (y * (z * u)), p);
    NewZ(y, z);

    var yy := (r.y * r.y) % p;
    RMul(r.y, r.y, y * (z * u), y * (z * u), p);
    var xyy := (r.x * yy) % p;
    RMul(r.x, yy, x * u, (y * (z * u)) * (y * (z * u)), p);
    var s := (4 * xyy) % p;
    CongRefl(4, p);
    RMul(4, xyy, 4, (x * u) * ((y * (z * u)) * (y * (z * u))), p);
    SumTerm(x, y, z);

    var mm := (m * m) % p;
    RMul(m, m, l * w, l * w, p);
    var x3 := (mm - 2 * s) % p;
    CongScale(2, s, x * (w * w), p);
    RSub(mm, 2 * s, (l * w) * (l * w), 2 * (x * (w * w)), p);
    NewX(l, x, w);

    var y4 := (yy * yy) % p;
    RMul(yy, yy, (y * (z * u)) * (y * (z * u)), (y * (z * u)) * (y * (z * u)), p);
    var y8 := (8 * y4) % p;
    CongRefl(8, p);
    RMul(8, y4, 8, ((y * (z * u)) * (y * (z * u))) * ((y * (z * u)) * (y * (z * u))), p);
    FourthPower(y, z);

    var diff := (s - x3) % p;
    RSub(s, x3, x * (w * w), (l * l - x - x) * (w * w), p);
    var md := (m * diff) % p;
    RMul(m, diff, l * w, x * (w * w) - (l * l - x - x) * (w * w), p);
    RSub(md, y8, (l * w) * (x * (w * w) - (l * l - x - x) * (w * w)), y * (w * w * w), p);
    NewY(l, x, y, w);
  }

  lemma SlopeTimes(x: int, y: int, l: int, u: int, p: int)
    requires p > 0 && Cong(l * (2 * y), 3 * (x * x) - 3, p)
    ensures Cong(3 * ((x * u + u) * (x * u - u)), l * (2 * y * (u * u)), p)
  {
    hide Cong;
    CongScale(u * u, l * (2 * y), 3 * (x * x) - 3, p);
    CongSym((u * u) * (l * (2 * y)), (u * u) * (3 * (x * x) - 3), p);
    assert (u * u) * (l * (2 * y)) == l * (2 * y * (u * u));
    assert (u * u) * (3 * (x * x) - 3) == 3 * ((x * u + u) * (x * u - u));
  }

  lemma NewZ(y: int, z: int)
    ensures 2 * (z * (y * (z * (z * z)))) == 2 * y * (z * z * (z * z))
  {
  }

  lemma SumTerm(x: int, y: int, z: int)
    ensures var u, w := z * z, 2 * y * (z * z * (z * z));
      4 * ((x * u) * ((y * (z * u)) * (y * (z * u)))) == x * (w * w)
  {
  }

  lemma NewX(l: int, x: int, w: int)
    ensures (l * w) * (l * w) - 2 * (x * (w * w)) == (l * l - x - x) * (w * w)
  {
  }

  lemma FourthPower(y: int, z: int)
    ensures var u, w := z * z, 2 * y * (z * z * (z * z));
      8 * (((y * (z * u)) * (y * (z * u))) * ((y * (z * u)) * (y * (z * u)))) == y * (w * w * w)
  {
  }

  lemma NewY(l: int, x: int, y: int, w: int)
    ensures (l * w) * (x * (w * w) - (l * l - x - x) * (w * w)) - y * (w * w * w)
         == (l * (x - (l * l - x - x)) - y) * (w * w * w)
  {
  }

  /** A triple with these congruences represents the third point of the line. */
  lemma RepresentsThird(c: Curve, r: Jacobian, l: int, q: Point, s: Point, w: int)
    requires q.Affine? && s.Affine? && Reduced(c.p, r) && r.z != 0
    requires Cong(r.z, w, c.p)
    requires Cong(r.x, (l * l - q.x - s.x) * (w * w), c.p)
    requires Cong(r.y, (l * (q.x - (l * l - q.x - s.x)) - q.y) * (w * w * w), c.p)
    ensures Represents(c, r, Third(c, l, q, s))
  {
    hide Cong, Third;
    var p, t, z, x3 := c.p, Third(c, l, q, s), r.z, l * l - q.x - s.x;
    var y3 := l * (q.x - x3) - q.y;
    ThirdCongruent(c, l, q, s);
    CongSquare(z, w, p);
    CongMul(t.x, x3, z * z, w * w, p);
    CongSym(t.x * (z * z), x3 * (w * w), p);
    CongTrans(r.x, x3 * (w * w), t.x * (z * z), p);
    CongCube(z, w, p);
    CongMul(t.y, y3, z * z * z, w * w * w, p);
    CongSym(t.y * (z * z * z), y3 * (w * w * w), p);
    CongTrans(r.y, y3 * (w * w * w), t.y * (z * z * z), p);
    assert t.y * (z * z * z) == t.y * (z * (z * z));
  }

  /** `ec_double` doubles, in every case. */
  lemma DoubleCorrect(c: Curve, r: Jacobian, q: Point)
    requires IsField(c) && OnCurve(c, q) && Represents(c, r, q)
    ensures Represents(c, Double(c.p, r), Plus(c, q, q))
  {
    hide Cong, IsPrime, Slope, Third, Double;
    var p, d := c.p, Double(c.p, r);
    DoubleReduced(p, r);
    if r.z == 0 {
      DoubleNowhere(p, r);
    } else if Opposite(c, q, q) {
      DoubleOpposite(p, r, q.x, q.y);
    } else {
      var l, u := Slope(c, q, q), r.z * r.z;
      var w := 2 * q.y * (u * u);
      SlopeExists(c, q, q);
      DoubleCongruent(p, r, q.x, q.y, l);
      SmallNonzero(r.z, p);
      NonzeroProduct(r.z, r.z, p);
      NonzeroProduct(u, u, p);
      NonzeroProduct(2 * q.y, u * u, p);
      assert (2 * q.y) * (u * u) == w;
      if d.z == 0 {
        CongSym(d.z, w, p);
      }
      RepresentsThird(c, d, l, q, q, w);
    }
  }

  lemma DoubleNowhere(p: int, r: Jacobian)
    requires p > 3 && r.z == 0
    ensures Double(p, r) == NOWHERE
  {
  }

  /** Doubling a point of order two leaves z = 0. */
  lemma DoubleOpposite(p: int, r: Jacobian, x: int, y: int)
    requires p > 3 && Cong(r.y, y * (r.z * (r.z * r.z)), p) && Cong(y + y, 0, p)
    ensures Double(p, r).z == 0
  {
    hide Cong;
    if r.z != 0 {
      var zy := (r.z * r.y) % p;
      var z, v := r.z, r.z * (r.z * r.z);
      CongRefl(z, p);
      RMul(z, r.y, z, y * v, p);
      CongRefl(2, p);
      RMul(2, zy, 2, z * (y * v), p);
      ZeroTimes(y + y, z * v, p);
      assert 2 * (z * (y * v)) == (y + y) * (z * v);
      CongTrans((2 * zy) % p, 2 * (z * (y * v)), 0, p);
      CongEqual((2 * zy) % p, 0, p);
    }
  }

  // Adding an affine point

  /** `ec_full_add`, each line one field operation. */
  function FullAdd(p: int, r: Jacobian, x: int, y: int): Jacobian
    requires p > 3
  {
    if r.z == 0 then Jacobian(x, y, 1) else
    var zz := FMul(p, r.z, r.z);
    var h := FSub(p, r.x, FMul(p, x, zz));
    var k := FSub(p, r.y, FMul(p, y, FMul(p, r.z, zz)));
    if h == 0 then (if k == 0 then Double(p, r) else NOWHERE)
    else Generic(p, r, h, k)
  }

  /** The generic branch, from `h = x - x' z^2` and `k = y - y' z^3`. */
  function Generic(p: int, r: Jacobian, h: int, k: int): Jacobian
    requires p > 3
  {
    var sx := FSub(p, FMul(p, 2, r.x), h);
    var sy := FSub(p, FMul(p, 2, r.y), k);
    var z3 := FMul(p, r.z, h);
    var hh := FMul(p, h, h);
    var v := FMul(p, sx, hh);
    var x3 := FSub(p, FMul(p, k, k), v);
    var kt := FMul(p, k, FSub2(p, v, x3));
    var syh := FMul(p, sy, FMul(p, h, hh));
    Jacobian(x3, Half(FSub(p, kt, syh), p), z3)
  }

  lemma GenericReduced(p: int, r: Jacobian, h: int, k: int)
    requires p > 3
    ensures Reduced(p, Generic(p, r, h, k))
  {
  }

  lemma HalfCongruent(v: int, w: int, p: int)
    requires p > 3 && p % 2 == 1 && 0 <= v < p && Cong(v, 2 * w, p)
    ensures Cong(Half(v, p), w, p)
  {
    hide Cong, Half;
    HalfIsHalf(v, p);
    CongTrans(2 * Half(v, p), v, 2 * w, p);
    CancelTwo(Half(v, p), w, p);
  }

  lemma PrimeIsOdd(p: int)
    requires IsPrime(p) && p > 3
    ensures p % 2 == 1
  {
    if p % 2 == 0 {
      CongBy(p, 0, p / 2, 2);
      assert Divides(2, p);
    }
  }

  /** The differences that decide the branch. */
  lemma DifferencesCongruent(p: int, r: Jacobian, x: int, y: int, x': int, y': int)
    requires p > 3
    requires Cong(r.x, x * (r.z * r.z), p) && Cong(r.y, y * (r.z * (r.z * r.z)), p)
    ensures var zz := (r.z * r.z) % p;
      && Cong((r.x - (x' * zz) % p) % p, (x - x') * (r.z * r.z), p)
      && Cong((r.y - (y' * ((r.z * zz) % p)) % p) % p, (y - y') * (r.z * (r.z * r.z)), p)
  {
    hide Cong;
    var z, u := r.z, r.z * r.z;
    var zz := (z * z) % p;
    ModCong(z * z, p);
    CongRefl(x', p);
    RMul(x', zz, x', u, p);
    RSub(r.x, (x' * zz) % p, x * u, x' * u, p);
    assert x * u - x' * u == (x - x') * u;
    CongRefl(z, p);
    RMul(z, zz, z, u, p);
    CongRefl(y', p);
    RMul(y', (z * zz) % p, y', z * u, p);
    RSub(r.y, (y' * ((z * zz) % p)) % p, y * (z * u), y' * (z * u), p);
    assert y * (z * u) - y' * (z * u) == (y - y') * (z * u);
  }

  /** The generic formulas in terms of affine coordinates, the slope and the new `z`, `w = z (x - x') z^2`. */
  lemma GenericCongruent(p: int, r: Jacobian, h: int, k: int, x: int, y: int, x': int, y': int, l: int)
    requires p > 3 && p % 2 == 1
    requires Cong(r.x, x * (r.z * r.z), p) && Cong(r.y, y * (r.z * (r.z * r.z)), p)
    requires Cong(h, (x - x') * (r.z * r.z), p) && Cong(k, (y - y') * (r.z * (r.z * r.z)), p)
    requires Cong(l * (x - x'), y - y', p)
    ensures var g := Generic(p, r, h, k);
      var w := r.z * ((x - x') * (r.z * r.z));
      && Cong(g.z, w, p)
      && Cong(g.x, (l * l - x - x') * (w * w), p)
      && Cong(g.y, (l * (x - (l * l - x - x')) - y) * (w * w * w), p)
  {
    hide Cong, Half;
    var z, u := r.z, r.z * r.z;
    var e := (x - x') * u;
    var w := z * e;
    CongRefl(2, p);
    CongRefl(z, p);
    var dx, dy := (2 * r.x) % p, (2 * r.y) % p;
    RMul(2, r.x, 2, x * u, p);
    RMul(2, r.y, 2, y * (z * u), p);
    var sx, sy := (dx - h) % p, (dy - k) % p;
    RSub(dx, h, 2 * (x * u), e, p);
    RSub(dy, k, 2 * (y * (z * u)), (y - y') * (z * u), p);
    GenericSums(x, x', y, y', u, z, l);
    var z3 := (z * h) % p;
    RMul(z, h, z, e, p);
    ChordTimes(l, x, y, x', y', z * u, p);
    CongTrans(k, (y - y') * (z * u), l * w, p);

    var hh := (h * h) % p;
    RMul(h, h, e, e, p);
    var hhh := (h * hh) % p;
    RMul(h, hh, e, e * e, p);
    var v := (sx * hh) % p;
    RMul(sx, hh, (x + x') * u, e * e, p);
    SumSquares(x, x', z);
    var kk := (k * k) % p;
    RMul(k, k, l * w, l * w, p);
    var x3 := (kk - v) % p;
    RSub(kk, v, (l * w) * (l * w), (x + x') * (w * w), p);
    ChordX(l, x, x', w);
    var t := (v - 2 * x3) % p;
    CongScale(2, x3, (l * l - x - x') * (w * w), p);
    RSub(v, 2 * x3, (x + x') * (w * w), 2 * ((l * l - x - x') * (w * w)), p);
    var kt := (k * t) % p;
    RMul(k, t, l * w, (x + x') * (w * w) - 2 * ((l * l - x - x') * (w * w)), p);
    var syh := (sy * hhh) % p;
    RMul(sy, hhh, (y + y') * (z * u), e * (e * e), p);
    SumCubes(x, x', y, y', z);
    var d := (kt - syh) % p;
    RSub(kt, syh, (l * w) * ((x + x') * (w * w) - 2 * ((l * l - x - x') * (w * w))), (y + y') * (w * w * w), p);
    TwiceY(l, x, y, x', y', w, p);
    CongTrans(d, (l * w) * ((x + x') * (w * w) - 2 * ((l * l - x - x') * (w * w))) - (y + y') * (w * w * w),
              2 * ((l * (x - (l * l - x - x')) - y) * (w * w * w)), p);
    HalfCongruent(d, (l * (x - (l * l - x - x')) - y) * (w * w * w), p);
  }

  lemma GenericSums(x: int, x': int, y: int, y': int, u: int, z: int, l: int)
    ensures 2 * (x * u) - (x - x') * u == (x + x') * u
    ensures 2 * (y * (z * u)) - (y - y') * (z * u) == (y + y') * (z * u)
    ensures l * ((x - x') * (z * u)) == l * (z * ((x - x') * u))
  {
  }

  lemma ChordTimes(l: int, x: int, y: int, x': int, y': int, v: int, p: int)
    requires p > 0 && Cong(l * (x - x'), y - y', p)
    ensures Cong((y - y') * v, l * ((x - x') * v), p)
  {
    hide Cong;
    CongScale(v, l * (x - x'), y - y', p);
    CongSym(v * (l * (x - x')), v * (y - y'), p);
    assert v * (l * (x - x')) == l * ((x - x') * v) && v * (y - y') == (y - y') * v;
  }

  lemma SumSquares(x: int, x': int, z: int)
    ensures var e := (x - x') * (z * z);
      ((x + x') * (z * z)) * (e * e) == (x + x') * ((z * e) * (z * e))
  {
  }

  lemma SumCubes(x: int, x': int, y: int, y': int, z: int)
    ensures var e := (x - x') * (z * z);
      ((y + y') * (z * (z * z))) * (e * (e * e)) == (y + y') * ((z * e) * (z * e) * (z * e))
  {
    var e := (x - x') * (z * z);
    assert (z * (z * z)) * (e * (e * e)) == (z * e) * (z * e) * (z * e);
  }

  lemma ChordX(l: int, x: int, x': int, w: int)
    ensures (l * w) * (l * w) - (x + x') * (w * w) == (l * l - x - x') * (w * w)
  {
  }

  /** The symmetric ordinate is twice the one by the first point, modulo the chord equation. */
  lemma TwiceY(l: int, x: int, y: int, x': int, y': int, w: int, p: int)
    requires p > 0 && Cong(l * (x - x'), y - y', p)
    ensures Cong((l * w) * ((x + x') * (w * w) - 2 * ((l * l - x - x') * (w * w))) - (y + y') * (w * w * w),
                 2 * ((l * (x - (l * l - x - x')) - y) * (w * w * w)), p)
  {
    hide Cong;
    var www := w * w * w;
    var s, t := www * (y - y'), www * (l * (x - x'));
    CongScale(www, l * (x - x'), y - y', p);
    CongSym(t, s, p);
    CongDifference(s, t, p);
    var a := (l * w) * ((x + x') * (w * w) - 2 * ((l * l - x - x') * (w * w))) - (y + y') * www;
    var b := 2 * ((l * (x - (l * l - x - x')) - y) * www);
    TwiceYArith(l, x, y, x', y', w);
    CongRefl(b, p);
    CongAdd(b, b, s - t, 0, p);
    assert a == b + (s - t) && b + 0 == b;
  }

  lemma TwiceYArith(l: int, x: int, y: int, x': int, y': int, w: int)
    ensures (l * w) * ((x + x') * (w * w) - 2 * ((l * l - x - x') * (w * w))) - (y + y') * (w * w * w)
         == 2 * ((l * (x - (l * l - x - x')) - y) * (w * w * w))
            + (w * w * w) * (y - y') - (w * w * w) * (l * (x - x'))
  {
  }

  /** `ec_full_add` adds, whichever branch it takes. */
  lemma FullAddCorrect(c: Curve, r: Jacobian, q: Point, s: Point)
    requires IsField(c) && OnCurve(c, q) && OnCurve(c, s) && s.Affine? && Represents(c, r, q)
    ensures Represents(c, FullAdd(c.p, r, s.x, s.y), Plus(c, q, s))
  {
    hide Cong, IsPrime, Slope, Third, Double, Generic;
    var p := c.p;
    if r.z == 0 {
      RepresentsUnit(c, s);
    } else {
      var z, u := r.z, r.z * r.z;
      var zz := (z * z) % p;
      var h, k := (r.x - (s.x * zz) % p) % p, (r.y - (s.y * ((z * zz) % p)) % p) % p;
      DifferencesCongruent(p, r, q.x, q.y, s.x, s.y);
      SmallNonzero(z, p);
      NonzeroProduct(z, z, p);
      NonzeroProduct(z, z * z, p);
      ZeroDifference(h, q.x, s.x, z * z, p);
      ZeroDifference(k, q.y, s.y, z * (z * z), p);
      if h == 0 && k == 0 {
        DoubleCorrect(c, r, q);
      } else if h == 0 {
        SameAbscissa(c, q, s);
      } else {
        GenericCorrect(c, r, q, s, h, k);
      }
    }
  }

  lemma RepresentsUnit(c: Curve, s: Point)
    requires s.Affine? && OnCurve(c, s)
    ensures Represents(c, Jacobian(s.x, s.y, 1), s)
  {
    hide Cong;
    CongRefl(s.x, c.p);
    CongRefl(s.y, c.p);
    assert s.x * (1 * 1) == s.x && s.y * (1 * (1 * 1)) == s.y;
  }

  /** A scaled difference of residues vanishes exactly when they agree. */
  lemma ZeroDifference(h: int, a: int, b: int, u: int, p: int)
    requires IsPrime(p) && 0 <= h < p && 0 <= a < p && 0 <= b < p && !Cong(u, 0, p)
    requires Cong(h, (a - b) * u, p)
    ensures h == 0 <==> a == b
  {
    hide Cong;
    if h == 0 {
      CongSym(h, (a - b) * u, p);
      assert (a - b) * u == u * (a - b);
      NoZeroDivisors(u, a - b, p);
      CongDifference(a, b, p);
      CongEqual(a, b, p);
    } else if a == b {
      assert (a - b) * u == 0;
      CongEqual(h, 0, p);
    }
  }

  lemma GenericCorrect(c: Curve, r: Jacobian, q: Point, s: Point, h: int, k: int)
    requires IsField(c) && OnCurve(c, q) && OnCurve(c, s) && q.Affine? && s.Affine? && Represents(c, r, q)
    requires r.z != 0 && q.x != s.x && 0 < h < c.p
    requires Cong(h, (q.x - s.x) * (r.z * r.z), c.p) && Cong(k, (q.y - s.y) * (r.z * (r.z * r.z)), c.p)
    ensures Represents(c, Generic(c.p, r, h, k), Plus(c, q, s))
  {
    hide Cong, IsPrime, Slope, Third, Generic;
    var p, l, g := c.p, Slope(c, q, s), Generic(c.p, r, h, k);
    var w := r.z * ((q.x - s.x) * (r.z * r.z));
    SlopeExists(c, q, s);
    PrimeIsOdd(p);
    GenericCongruent(p, r, h, k, q.x, q.y, s.x, s.y, l);
    GenericReduced(p, r, h, k);
    SmallNonzero(r.z, p);
    NonzeroProduct(r.z, r.z, p);
    NonzeroProduct(q.x - s.x, r.z * r.z, p);
    NonzeroProduct(r.z, (q.x - s.x) * (r.z * r.z), p);
    if g.z == 0 {
      CongSym(g.z, w, p);
    }
    RepresentsThird(c, g, l, q, s, w);
  }

  /** A Jacobian point represents one point only. */
  lemma RepresentsOne(c: Curve, r: Jacobian, q: Point, q': Point)
    requires IsField(c) && OnCurve(c, q) && OnCurve(c, q') && Represents(c, r, q) && Represents(c, r, q')
    ensures q == q'
  {
    hide Cong, IsPrime;
    if r.z != 0 {
      var z2, z3 := r.z * r.z, r.z * (r.z * r.z);
      SmallNonzero(r.z, c.p);
      NonzeroProduct(r.z, r.z, c.p);
      NonzeroProduct(r.z, z2, c.p);
      SameCoordinate(r.x, q.x, q'.x, z2, c.p);
      SameCoordinate(r.y, q.y, q'.y, z3, c.p);
    }
  }

  lemma SameCoordinate(v: int, a: int, b: int, d: int, p: int)
    requires IsPrime(p) && p > 0 && Cong(v, a * d, p) && Cong(v, b * d, p) && !Cong(d, 0, p)
    requires 0 <= a < p && 0 <= b < p
    ensures a == b
  {
    hide Cong, IsPrime;
    CongSym(v, a * d, p);
    CongTrans(a * d, v, b * d, p);
    assert a * d == d * a && b * d == d * b;
    CongCancel(d, a, b, p);
    CongEqual(a, b, p);
  }

  // The Jacobian equation

  /** `Y^2 = X^3 - 3 X Z^4 + b Z^6`. */
  ghost predicate OnJacobian(c: Curve, r: Jacobian) {
    var zz := r.z * r.z;
    Cong(r.y * r.y, r.x * r.x * r.x - 3 * (r.x * (zz * zz)) + c.b * (zz * zz * zz), c.p)
  }

  lemma NowhereIsOn(c: Curve)
    ensures OnJacobian(c, NOWHERE)
  {
    CongRefl(1, c.p);
  }

  /** What represents a finite point of the curve satisfies the equation. */
  lemma RepresentedIsOn(c: Curve, r: Jacobian, q: Point)
    requires r.z != 0 && Represents(c, r, q) && OnCurve(c, q)
    ensures OnJacobian(c, r)
  {
    hide Cong;
    var p, u := c.p, r.z * r.z;
    var v := r.z * u;
    CongSquare(r.y, q.y * v, p);
    CongCube(r.x, q.x * u, p);
    CongRefl(u * u, p);
    CongMul(r.x, q.x * u, u * u, u * u, p);
    CongScale(3, r.x * (u * u), (q.x * u) * (u * u), p);
    CongRefl(c.b * (u * u * u), p);
    CongAdd(r.x * r.x * r.x, (q.x * u) * (q.x * u) * (q.x * u), 3 * (r.x * (u * u)), 3 * ((q.x * u) * (u * u)), p);
    var left := r.x * r.x * r.x - 3 * (r.x * (u * u));
    var right := (q.x * u) * (q.x * u) * (q.x * u) - 3 * ((q.x * u) * (u * u));
    CongAdd(left, right, c.b * (u * u * u), c.b * (u * u * u), p);
    CongScale(u * u * u, q.y * q.y, q.x * q.x * q.x - 3 * q.x + c.b, p);
    EquationScaled(q.x, q.y, c.b, r.z);
    CongTrans(r.y * r.y, (q.y * v) * (q.y * v), right + c.b * (u * u * u), p);
    CongSym(left + c.b * (u * u * u), right + c.b * (u * u * u), p);
    CongTrans(r.y * r.y, right + c.b * (u * u * u), left + c.b * (u * u * u), p);
  }

  lemma EquationScaled(x: int, y: int, b: int, z: int)
    ensures var u := z * z;
      && (y * (z * u)) * (y * (z * u)) == (u * u * u) * (y * y)
      && (x * u) * (x * u) * (x * u) - 3 * ((x * u) * (u * u)) + b * (u * u * u)
        == (u * u * u) * (x * x * x - 3 * x + b)
  {
    var u := z * z;
    RegroupSquare(y, z, u);
    RegroupCubes(x, u);
    Distributed(u * u * u, x * x * x, x, b);
  }

  lemma RegroupSquare(y: int, z: int, u: int)
    requires u == z * z
    ensures (y * (z * u)) * (y * (z * u)) == (u * u * u) * (y * y)
  {
    assert (y * (z * u)) * (y * (z * u)) == (y * y) * ((z * z) * (u * u));
  }

  lemma RegroupCubes(x: int, u: int)
    ensures (x * u) * (x * u) * (x * u) == (u * u * u) * (x * x * x) && (x * u) * (u * u) == (u * u * u) * x
  {
  }

  lemma Distributed(w: int, a: int, x: int, b: int)
    ensures w * a - 3 * (w * x) + b * w == w * (a - 3 * x + b)
  {
  }

  /** And every solution with `Z` nonzero represents a point of the curve. */
  lemma OnIsRepresented(c: Curve, r: Jacobian) returns (q: Point)
    requires IsField(c) && Reduced(c.p, r) && r.z != 0 && OnJacobian(c, r)
    ensures q.Affine? && Represents(c, r, q) && OnCurve(c, q)
  {
    hide Cong, IsPrime;
    var p, u := c.p, r.z * r.z;
    SmallNonzero(r.z, p);
    NonzeroProduct(r.z, r.z, p);
    NonzeroProduct(r.z, u, p);
    NonzeroProduct(u, u, p);
    NonzeroProduct(u * u, u, p);
    var x, y := Divided(r.x, u, p), Divided(r.y, r.z * u, p);
    q := Affine(x, y);
    DividedTimes(r.x, u, p);
    DividedTimes(r.y, r.z * u, p);
    EquationDivided(c, r, x, y);
  }

  /** `v / d` modulo `p`. */
  ghost function Divided(v: int, d: int, p: int): int
    requires p > 0
  {
    (v * Inverse(d, p)) % p
  }

  lemma DividedTimes(v: int, d: int, p: int)
    requires IsPrime(p) && p > 0 && !Cong(d, 0, p)
    ensures 0 <= Divided(v, d, p) < p && Cong(v, Divided(v, d, p) * d, p)
  {
    hide Cong, IsPrime;
    var i := Inverse(d, p);
    ModCong(v * i, p);
    CongRefl(d, p);
    CongMul((v * i) % p, v * i, d, d, p);
    CongScale(v, d * i, 1, p);
    assert (v * i) * d == v * (d * i) && v * 1 == v;
    CongTrans(((v * i) % p) * d, v * (d * i), v, p);
    CongSym(((v * i) % p) * d, v, p);
  }

  lemma EquationDivided(c: Curve, r: Jacobian, x: int, y: int)
    requires IsField(c) && OnJacobian(c, r) && !Cong(r.z * r.z * (r.z * r.z) * (r.z * r.z), 0, c.p)
    requires Cong(r.x, x * (r.z * r.z), c.p) && Cong(r.y, y * (r.z * (r.z * r.z)), c.p)
    ensures Cong(y * y, x * x * x - 3 * x + c.b, c.p)
  {
    hide Cong, IsPrime;
    var p, u := c.p, r.z * r.z;
    var v := r.z * u;
    CongSquare(r.y, y * v, p);
    CongCube(r.x, x * u, p);
    CongRefl(u * u, p);
    CongMul(r.x, x * u, u * u, u * u, p);
    CongScale(3, r.x * (u * u), (x * u) * (u * u), p);
    CongRefl(c.b * (u * u * u), p);
    CongAdd(r.x * r.x * r.x, (x * u) * (x * u) * (x * u), 3 * (r.x * (u * u)), 3 * ((x * u) * (u * u)), p);
    var left := r.x * r.x * r.x - 3 * (r.x * (u * u));
    var right := (x * u) * (x * u) * (x * u) - 3 * ((x * u) * (u * u));
    CongAdd(left, right, c.b * (u * u * u), c.b * (u * u * u), p);
    EquationScaled(x, y, c.b, r.z);
    CongSym(r.y * r.y, (y * v) * (y * v), p);
    CongTrans((y * v) * (y * v), r.y * r.y, left + c.b * (u * u * u), p);
    CongTrans((y * v) * (y * v), left + c.b * (u * u * u), right + c.b * (u * u * u), p);
    CongCancel(u * u * u, y * y, x * x * x - 3 * x + c.b, p);
  }

  /** Doubling a solution with `Y = 0` leaves `X = M^2`, `Y = -M^3`, `Z = 0`. */
  lemma DoubleOrderTwo(c: Curve, r: Jacobian)
    requires Reduced(c.p, r) && r.y == 0
    ensures OnJacobian(c, Double(c.p, r))
  {
    hide Cong;
    var p, d := c.p, Double(c.p, r);
    if r.z == 0 {
      NowhereIsOn(c);
    } else {
      var zz := FMul(p, r.z, r.z);
      var m := FMul(p, 3, FMul(p, FAdd(p, r.x, zz), FSub(p, r.x, zz)));
      ZeroProducts(p, r.z, r.x);
      ModCong(m * m, p);
      ModCong((m * m) % p, p);
      CongTrans(d.x, (m * m) % p, m * m, p);
      var diff := (0 - d.x) % p;
      CongRefl(0, p);
      RSub(0, d.x, 0, m * m, p);
      CongRefl(m, p);
      RMul(m, diff, m, 0 - m * m, p);
      RSub((m * diff) % p, 0, m * (0 - m * m), 0, p);
      CongSquare(d.y, m * (0 - m * m) - 0, p);
      CongCube(d.x, m * m, p);
      CongSym(d.x * d.x * d.x, (m * m) * (m * m) * (m * m), p);
      SquareIsCube(m);
      CongTrans(d.y * d.y, (m * m) * (m * m) * (m * m), d.x * d.x * d.x, p);
      assert d.z == 0 && d.z * d.z == 0;
    }
  }

  lemma ZeroProducts(p: int, z: int, x: int)
    requires p > 3
    ensures FMul(p, 2, FMul(p, z, 0)) == 0 && FMul(p, 0, 0) == 0 && FMul(p, 4, FMul(p, x, 0)) == 0 &&
      FMul(p, 8, FMul(p, 0, 0)) == 0
  {
    DivModUnique(0, 0, 0, p);
  }

  lemma SquareIsCube(m: int)
    ensures (m * (0 - m * m) - 0) * (m * (0 - m * m) - 0) == (m * m) * (m * m) * (m * m)
  {
  }

  /** `ec_double` maps solutions of the equation to solutions, at infinity and at points of order two as well. */
  lemma DoubleStaysOn(c: Curve, r: Jacobian)
    requires IsField(c) && Reduced(c.p, r) && OnJacobian(c, r)
    ensures OnJacobian(c, Double(c.p, r))
  {
    hide Cong, IsPrime, Double, OnJacobian, Plus;
    if r.z == 0 {
      DoubleNowhere(c.p, r);
      NowhereIsOn(c);
    } else if r.y == 0 {
      DoubleOrderTwo(c, r);
    } else {
      var q := OnIsRepresented(c, r);
      DoubleCorrect(c, r, q);
      PlusClosed(c, q, q);
      DoubleFinite(c, r);
      RepresentedIsOn(c, Double(c.p, r), Plus(c, q, q));
    }
  }

  lemma DoubleFinite(c: Curve, r: Jacobian)
    requires IsField(c) && Reduced(c.p, r) && r.z != 0 && r.y != 0
    ensures Double(c.p, r).z != 0
  {
    hide Cong, IsPrime;
    var p := c.p;
    SmallNonzero(r.z, p);
    SmallNonzero(r.y, p);
    SmallNonzero(2, p);
    ProductResidue(r.z, r.y, p);
    ProductResidue(2, FMul(p, r.z, r.y), p);
  }

  lemma ProductResidue(a: int, b: int, p: int)
    requires IsPrime(p) && p > 0 && !Cong(a, 0, p) && !Cong(b, 0, p)
    ensures 0 < FMul(p, a, b) < p && !Cong(FMul(p, a, b), 0, p)
  {
    hide Cong, IsPrime;
    NonzeroProduct(a, b, p);
    ModCong(a * b, p);
    CongZero(a * b, p);
    SmallNonzero((a * b) % p, p);
  }

  /** So does `ec_full_add`, in every branch. */
  lemma FullAddStaysOn(c: Curve, r: Jacobian, t: Point)
    requires IsField(c) && Reduced(c.p, r) && OnJacobian(c, r) && t.Affine? && OnCurve(c, t)
    ensures OnJacobian(c, FullAdd(c.p, r, t.x, t.y))
  {
    hide Cong, IsPrime, Double, OnJacobian, Plus, FMul, Generic;
    var p, s := c.p, FullAdd(c.p, r, t.x, t.y);
    if r.z == 0 {
      RepresentsUnit(c, t);
      RepresentedIsOn(c, s, t);
    } else {
      var zz := FMul(p, r.z, r.z);
      var h := FSub(p, r.x, FMul(p, t.x, zz));
      var k := FSub(p, r.y, FMul(p, t.y, FMul(p, r.z, zz)));
      if h == 0 && k == 0 {
        DoubleStaysOn(c, r);
      } else if h == 0 {
        NowhereIsOn(c);
      } else {
        var q := OnIsRepresented(c, r);
        FullAddCorrect(c, r, q, t);
        PlusClosed(c, q, t);
        ModCong(r.x - FMul(p, t.x, zz), p);
        GenericFinite(c, r, h, k);
        RepresentedIsOn(c, s, Plus(c, q, t));
      }
    }
  }

  lemma GenericFinite(c: Curve, r: Jacobian, h: int, k: int)
    requires IsField(c) && Reduced(c.p, r) && r.z != 0 && 0 < h < c.p
    ensures Generic(c.p, r, h, k).z != 0
  {
    hide Cong, IsPrime;
    SmallNonzero(r.z, c.p);
    SmallNonzero(h, c.p);
    ProductResidue(r.z, h, c.p);
  }
}
