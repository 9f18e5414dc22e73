/** The short Weierstrass curve y^2 = x^3 - 3x + b over a prime field, with the chord and tangent law. */
module Curves {
  import opened ModArith
  import opened Residues

  datatype CurveParameters = CurveParameters(p: int, b: int)

  type Curve = c: CurveParameters | c.p > 3 witness CurveParameters(5, 0)

  datatype Point = Infinity | Affine(x: int, y: int)

  ghost predicate IsField(c: Curve) {
    IsPrime(c.p)
  }

  ghost predicate OnCurve(c: Curve, q: Point)
  {
    q.Affine? ==>
      && 0 <= q.x < c.p && 0 <= q.y < c.p
      && Cong(q.y * q.y, q.x * q.x * q.x - 3 * q.x + c.b, c.p)
  }

  /** `l` is the slope of the chord through `q` and `r`, or of the tangent where they meet. */
  ghost predicate IsSlope(c: Curve, l: int, q: Point, r: Point)
    requires q.Affine? && r.Affine?
  {
    if q.x == r.x then Cong(l * (2 * q.y), 3 * (q.x * q.x) - 3, c.p) else Cong(l * (q.x - r.x), q.y - r.y, c.p)
  }

  ghost function Slope(c: Curve, q: Point, r: Point): int
    requires q.Affine? && r.Affine?
  {
    if q.x == r.x then (3 * (q.x * q.x) - 3) * Inverse(2 * q.y, c.p)
    else (q.y - r.y) * Inverse(q.x - r.x, c.p)
  }

  /** The third point of a line of slope `l` through `q` and `r`, reflected. */
  function Third(c: Curve, l: int, q: Point, r: Point): Point
    requires q.Affine? && r.Affine?
  {
    var x := (l * l - q.x - r.x) % c.p;
    Affine(x, (l * (q.x - x) - q.y) % c.p)
  }

  ghost predicate Opposite(c: Curve, q: Point, r: Point)
    requires q.Affine? && r.Affine?
  {
    q.x == r.x && Cong(q.y + r.y, 0, c.p)
  }

  /** The chord and tangent law. */
  ghost function Plus(c: Curve, q: Point, r: Point): Point
  {
    if q.Infinity? then r
    else if r.Infinity? then q
    else if Opposite(c, q, r) then Infinity
    else Third(c, Slope(c, q, r), q, r)
  }

  function Neg(c: Curve, q: Point): Point
  {
    if q.Infinity? then q else Affine(q.x, (-q.y) % c.p)
  }

  // Slopes

  /** On the curve, equal abscissae leave only equal or opposite ordinates. */
  lemma SameAbscissa(c: Curve, q: Point, r: Point)
    requires IsField(c) && OnCurve(c, q) && OnCurve(c, r) && q.Affine? && r.Affine? && q.x == r.x
    ensures q.y == r.y || Opposite(c, q, r)
  {
    hide Cong, IsPrime;
    var p, f := c.p, q.x * q.x * q.x - 3 * q.x + c.b;
    CongSym(r.y * r.y, f, p);
    CongTrans(q.y * q.y, f, r.y * r.y, p);
    CongDifference(q.y * q.y, r.y * r.y, p);
    assert (q.y - r.y) * (q.y + r.y) == q.y * q.y - r.y * r.y;
    if !Cong(q.y - r.y, 0, p) {
      NoZeroDivisors(q.y - r.y, q.y + r.y, p);
    } else {
      CongDifference(q.y, r.y, p);
      CongEqual(q.y, r.y, p);
    }
  }

  /** A point that is not its own opposite has an ordinate with an inverse of its double. */
  lemma DoubleNonzero(c: Curve, y: int)
    requires IsField(c) && !Cong(y + y, 0, c.p)
    ensures !Cong(2 * y, 0, c.p) && !Cong(y, 0, c.p)
  {
    hide Cong, IsPrime;
    assert y + y == 2 * y;
    if Cong(y, 0, c.p) {
      CongAdd(y, 0, y, 0, c.p);
    }
  }

  lemma SlopeExists(c: Curve, q: Point, r: Point)
    requires IsField(c) && OnCurve(c, q) && OnCurve(c, r) && q.Affine? && r.Affine? && !Opposite(c, q, r)
    ensures IsSlope(c, Slope(c, q, r), q, r)
    ensures q.x == r.x ==> q.y == r.y && !Cong(2 * q.y, 0, c.p)
    ensures q.x != r.x ==> !Cong(q.x - r.x, 0, c.p)
  {
    hide Cong, IsPrime;
    var p := c.p;
    if q.x == r.x {
      SameAbscissa(c, q, r);
      DoubleNonzero(c, q.y);
      SlopeOf(3 * (q.x * q.x) - 3, 2 * q.y, p);
    } else {
      if Cong(q.x - r.x, 0, p) {
        CongDifference(q.x, r.x, p);
        CongEqual(q.x, r.x, p);
      }
      SlopeOf(q.y - r.y, q.x - r.x, p);
    }
  }

  lemma SlopeOf(n: int, d: int, p: int)
    requires IsPrime(p) && !Cong(d, 0, p)
    ensures Cong((n * Inverse(d, p)) * d, n, p)
  {
    hide Cong, IsPrime;
    PrimePositive(p);
    var v := Inverse(d, p);
    CongScale(n, d * v, 1, p);
    assert n * (d * v) == (n * v) * d && n * 1 == n;
  }

  /** Any slope gives the same third point. */
  lemma SlopeUnique(c: Curve, l: int, m: int, q: Point, r: Point)
    requires IsField(c) && OnCurve(c, q) && OnCurve(c, r) && q.Affine? && r.Affine? && !Opposite(c, q, r)
    requires IsSlope(c, l, q, r) && IsSlope(c, m, q, r)
    ensures Cong(l, m, c.p)
  {
    hide Cong, IsPrime, Slope;
    SlopeExists(c, q, r);
    var p := c.p;
    var d := if q.x == r.x then 2 * q.y else q.x - r.x;
    var n := if q.x == r.x then 3 * (q.x * q.x) - 3 else q.y - r.y;
    CongSym(m * d, n, p);
    CongTrans(l * d, n, m * d, p);
    assert l * d == d * l && m * d == d * m;
    CongCancel(d, l, m, p);
  }

  /** What the third point's coordinates are congruent to. */
  lemma ThirdCongruent(c: Curve, l: int, q: Point, r: Point)
    requires q.Affine? && r.Affine?
    ensures var s := Third(c, l, q, r);
      && s.Affine? && 0 <= s.x < c.p && 0 <= s.y < c.p
      && Cong(s.x, l * l - q.x - r.x, c.p)
      && Cong(s.y, l * (q.x - (l * l - q.x - r.x)) - q.y, c.p)
  {
    hide Cong;
    var p, x3 := c.p, l * l - q.x - r.x;
    var x := x3 % p;
    ModCong(x3, p);
    CongRefl(q.x, p);
    CongRefl(q.y, p);
    CongAdd(q.x, q.x, x, x3, p);
    CongScale(l, q.x - x, q.x - x3, p);
    CongAdd(l * (q.x - x), l * (q.x - x3), q.y, q.y, p);
    ModCong(l * (q.x - x) - q.y, p);
    CongTrans((l * (q.x - x) - q.y) % p, l * (q.x - x) - q.y, l * (q.x - x3) - q.y, p);
  }

  lemma ThirdUnique(c: Curve, l: int, m: int, q: Point, r: Point)
    requires q.Affine? && r.Affine? && Cong(l, m, c.p)
    ensures Third(c, l, q, r) == Third(c, m, q, r)
  {
    hide Cong, Third;
    var p, s, t := c.p, Third(c, l, q, r), Third(c, m, q, r);
    ThirdCongruent(c, l, q, r);
    ThirdCongruent(c, m, q, r);
    var x, x', d := l * l - q.x - r.x, m * m - q.x - r.x, q.x + r.x;
    CongSquare(l, m, p);
    CongRefl(d, p);
    CongAdd(l * l, m * m, d, d, p);
    assert x == l * l - d && x' == m * m - d;
    SameResidue(s.x, t.x, x, x', p);
    CongRefl(q.x, p);
    CongRefl(q.y, p);
    CongAdd(q.x, q.x, x, x', p);
    CongMul(l, m, q.x - x, q.x - x', p);
    CongAdd(l * (q.x - x), m * (q.x - x'), q.y, q.y, p);
    SameResidue(s.y, t.y, l * (q.x - x) - q.y, m * (q.x - x') - q.y, p);
  }

  lemma SameResidue(s: int, t: int, a: int, b: int, p: int)
    requires 0 <= s < p && 0 <= t < p && Cong(s, a, p) && Cong(t, b, p) && Cong(a, b, p)
    ensures s == t
  {
    hide Cong;
    CongTrans(s, a, b, p);
    CongSym(t, b, p);
    CongTrans(s, b, t, p);
    CongEqual(s, t, p);
  }

  /** The sum, from any slope. */
  lemma PlusBySlope(c: Curve, l: int, q: Point, r: Point)
    requires IsField(c) && OnCurve(c, q) && OnCurve(c, r) && q.Affine? && r.Affine? && !Opposite(c, q, r)
    requires IsSlope(c, l, q, r)
    ensures Plus(c, q, r) == Third(c, l, q, r)
  {
    hide Cong, IsPrime, Slope, Third;
    SlopeExists(c, q, r);
    SlopeUnique(c, Slope(c, q, r), l, q, r);
    ThirdUnique(c, Slope(c, q, r), l, q, r);
  }

  // Closure

  /** The cubic less the squared line, which vanishes where they meet. */
  function Meet(b: int, l: int, x1: int, y1: int, x: int): int {
    x * x * x - 3 * x + b - (l * (x - x1) + y1) * (l * (x - x1) + y1)
  }

  function MeetSlope(l: int, x1: int, y1: int, x2: int): int {
    2 * (l * l) * x1 - 2 * l * y1 - 3 - (x1 * x2 + (x1 + x2) * (l * l - x1 - x2))
  }

  function MeetOffset(b: int, l: int, x1: int, y1: int, x2: int): int {
    b - (y1 - l * x1) * (y1 - l * x1) + x1 * x2 * (l * l - x1 - x2)
  }

  /** At its three roots the cubic is a line in `x`. */
  lemma MeetAtFirst(b: int, l: int, x1: int, y1: int, x2: int)
    ensures Meet(b, l, x1, y1, x1) == MeetSlope(l, x1, y1, x2) * x1 + MeetOffset(b, l, x1, y1, x2)
  {
  }

  lemma MeetAtSecond(b: int, l: int, x1: int, y1: int, x2: int)
    ensures Meet(b, l, x1, y1, x2) == MeetSlope(l, x1, y1, x2) * x2 + MeetOffset(b, l, x1, y1, x2)
  {
  }

  lemma MeetAtThird(b: int, l: int, x1: int, y1: int, x2: int)
    ensures Meet(b, l, x1, y1, l * l - x1 - x2)
         == MeetSlope(l, x1, y1, x2) * (l * l - x1 - x2) + MeetOffset(b, l, x1, y1, x2)
  {
  }

  /** A line with two of its roots on the curve has the third there. */
  lemma ThirdRoot(b: int, l: int, x1: int, y1: int, x2: int, p: int)
    requires IsPrime(p)
    requires Cong(Meet(b, l, x1, y1, x1), 0, p)
    requires Cong(MeetSlope(l, x1, y1, x2), 0, p)
    ensures Cong(Meet(b, l, x1, y1, l * l - x1 - x2), 0, p)
  {
    hide Cong, IsPrime, Meet, MeetSlope, MeetOffset;
    PrimePositive(p);
    var alpha, beta, x3 := MeetSlope(l, x1, y1, x2), MeetOffset(b, l, x1, y1, x2), l * l - x1 - x2;
    MeetAtFirst(b, l, x1, y1, x2);
    MeetAtThird(b, l, x1, y1, x2);
    ZeroTimes(alpha, x1, p);
    CongAdd(alpha * x1 + beta, 0, alpha * x1, 0, p);
    ZeroTimes(alpha, x3, p);
    CongAdd(alpha * x3, 0, beta, 0, p);
  }

  /** The line through two points meets the curve at the first, and its slope there is the cubic's when
      the points agree; otherwise the second point forces it. */
  lemma MeetSlopeZero(c: Curve, l: int, q: Point, r: Point)
    requires IsField(c) && OnCurve(c, q) && OnCurve(c, r) && q.Affine? && r.Affine? && !Opposite(c, q, r)
    requires IsSlope(c, l, q, r)
    ensures Cong(Meet(c.b, l, q.x, q.y, q.x), 0, c.p)
    ensures Cong(MeetSlope(l, q.x, q.y, r.x), 0, c.p)
  {
    hide Cong, IsPrime, MeetSlope, MeetOffset, Slope;
    var p := c.p;
    MeetHere(c, l, q);
    SlopeExists(c, q, r);
    if q.x == r.x {
      TangentSlope(l, q.x, q.y);
      CongDifference(3 * (q.x * q.x) - 3, l * (2 * q.y), p);
      CongSym(l * (2 * q.y), 3 * (q.x * q.x) - 3, p);
    } else {
      MeetThere(c, l, q, r);
      var alpha, beta := MeetSlope(l, q.x, q.y, r.x), MeetOffset(c.b, l, q.x, q.y, r.x);
      MeetAtFirst(c.b, l, q.x, q.y, r.x);
      MeetAtSecond(c.b, l, q.x, q.y, r.x);
      CongAdd(alpha * q.x + beta, 0, alpha * r.x + beta, 0, p);
      assert (q.x - r.x) * alpha == alpha * q.x + beta - (alpha * r.x + beta);
      NoZeroDivisors(q.x - r.x, alpha, p);
    }
  }

  lemma TangentSlope(l: int, x: int, y: int)
    ensures MeetSlope(l, x, y, x) == 3 * (x * x) - 3 - l * (2 * y)
  {
  }

  lemma MeetHere(c: Curve, l: int, q: Point)
    requires OnCurve(c, q) && q.Affine?
    ensures Cong(Meet(c.b, l, q.x, q.y, q.x), 0, c.p)
  {
    hide Cong;
    var f := q.x * q.x * q.x - 3 * q.x + c.b;
    CongSym(q.y * q.y, f, c.p);
    CongDifference(f, q.y * q.y, c.p);
    assert l * (q.x - q.x) == 0;
  }

  lemma MeetThere(c: Curve, l: int, q: Point, r: Point)
    requires OnCurve(c, r) && q.Affine? && r.Affine?
    requires Cong(l * (q.x - r.x), q.y - r.y, c.p)
    ensures Cong(Meet(c.b, l, q.x, q.y, r.x), 0, c.p)
  {
    hide Cong;
    var p, f, m := c.p, r.x * r.x * r.x - 3 * r.x + c.b, l * (r.x - q.x) + q.y;
    CongRefl(q.y, p);
    CongAdd(q.y, q.y, l * (q.x - r.x), q.y - r.y, p);
    assert m == q.y - l * (q.x - r.x);
    CongSquare(m, r.y, p);
    CongTrans(m * m, r.y * r.y, f, p);
    CongSym(m * m, f, p);
    CongDifference(f, m * m, p);
  }

  /** The law stays on the curve. */
  lemma PlusClosed(c: Curve, q: Point, r: Point)
    requires IsField(c) && OnCurve(c, q) && OnCurve(c, r)
    ensures OnCurve(c, Plus(c, q, r))
  {
    hide Cong, IsPrime, Slope, Third, Meet, MeetSlope;
    if q.Affine? && r.Affine? && !Opposite(c, q, r) {
      var l, s := Slope(c, q, r), Plus(c, q, r);
      SlopeExists(c, q, r);
      MeetSlopeZero(c, l, q, r);
      ThirdRoot(c.b, l, q.x, q.y, r.x, c.p);
      ThirdCongruent(c, l, q, r);
      ThirdOnCurve(c, l, q, r.x, s);
    }
  }

  lemma ThirdOnCurve(c: Curve, l: int, q: Point, x2: int, s: Point)
    requires q.Affine? && s.Affine? && 0 <= s.x < c.p && 0 <= s.y < c.p
    requires Cong(s.x, l * l - q.x - x2, c.p)
    requires Cong(s.y, l * (q.x - (l * l - q.x - x2)) - q.y, c.p)
    requires Cong(Meet(c.b, l, q.x, q.y, l * l - q.x - x2), 0, c.p)
    ensures OnCurve(c, s)
  {
    hide Cong;
    var p, x3 := c.p, l * l - q.x - x2;
    var y3, f3 := l * (q.x - x3) - q.y, x3 * x3 * x3 - 3 * x3 + c.b;
    CongSquare(s.y, y3, p);
    assert y3 * y3 == (l * (x3 - q.x) + q.y) * (l * (x3 - q.x) + q.y) by { SquareOfNegative(y3, l * (x3 - q.x) + q.y); }
    CongDifference(f3, y3 * y3, p);
    CongSym(f3, y3 * y3, p);
    CongTrans(s.y * s.y, y3 * y3, f3, p);
    CongCube(s.x, x3, p);
    CongScale(3, s.x, x3, p);
    CongRefl(c.b, p);
    CongAdd(s.x * s.x * s.x, x3 * x3 * x3, 3 * s.x, 3 * x3, p);
    CongAdd(s.x * s.x * s.x - 3 * s.x, x3 * x3 * x3 - 3 * x3, c.b, c.b, p);
    CongSym(s.x * s.x * s.x - 3 * s.x + c.b, f3, p);
    CongTrans(s.y * s.y, f3, s.x * s.x * s.x - 3 * s.x + c.b, p);
  }

  lemma SquareOfNegative(a: int, b: int)
    requires a == -b
    ensures a * a == b * b
  {
  }

  // Commutativity and opposites

  lemma PlusCommutes(c: Curve, q: Point, r: Point)
    requires IsField(c) && OnCurve(c, q) && OnCurve(c, r)
    ensures Plus(c, q, r) == Plus(c, r, q)
  {
    hide Cong, IsPrime, Slope, Third;
    if q.Affine? && r.Affine? && !Opposite(c, q, r) {
      var p, l := c.p, Slope(c, q, r);
      SlopeExists(c, q, r);
      if q.x == r.x {
        assert q == r;
      } else {
        CongScale(-1, l * (q.x - r.x), q.y - r.y, p);
        assert -1 * (l * (q.x - r.x)) == l * (r.x - q.x);
        PlusBySlope(c, l, r, q);
        PlusBySlope(c, l, q, r);
        ThirdCongruent(c, l, q, r);
        ThirdCongruent(c, l, r, q);
        SameThird(c, l, q, r, Third(c, l, q, r), Third(c, l, r, q));
      }
    }
  }

  lemma SameThird(c: Curve, l: int, q: Point, r: Point, s: Point, t: Point)
    requires q.Affine? && r.Affine? && s.Affine? && t.Affine?
    requires 0 <= s.x < c.p && 0 <= s.y < c.p && 0 <= t.x < c.p && 0 <= t.y < c.p
    requires Cong(l * (q.x - r.x), q.y - r.y, c.p)
    requires Cong(s.x, l * l - q.x - r.x, c.p) && Cong(s.y, l * (q.x - (l * l - q.x - r.x)) - q.y, c.p)
    requires Cong(t.x, l * l - r.x - q.x, c.p) && Cong(t.y, l * (r.x - (l * l - r.x - q.x)) - r.y, c.p)
    ensures s == t
  {
    hide Cong;
    var p, x3 := c.p, l * l - q.x - r.x;
    assert l * l - r.x - q.x == x3;
    CongSym(t.x, x3, p);
    CongTrans(s.x, x3, t.x, p);
    CongEqual(s.x, t.x, p);
    var y1, y2 := l * (q.x - x3) - q.y, l * (r.x - x3) - r.y;
    CongDifference(l * (q.x - r.x), q.y - r.y, p);
    assert y1 - y2 == l * (q.x - r.x) - (q.y - r.y);
    CongDifference(y1, y2, p);
    CongTrans(s.y, y1, y2, p);
    CongSym(t.y, y2, p);
    CongTrans(s.y, y2, t.y, p);
    CongEqual(s.y, t.y, p);
  }

  lemma NegClosed(c: Curve, q: Point)
    requires OnCurve(c, q)
    ensures OnCurve(c, Neg(c, q))
  {
    hide Cong;
    if q.Affine? {
      var y := (-q.y) % c.p;
      ModCong(-q.y, c.p);
      CongSquare(y, -q.y, c.p);
      SquareOfNegative(-q.y, q.y);
      CongTrans(y * y, q.y * q.y, q.x * q.x * q.x - 3 * q.x + c.b, c.p);
    }
  }

  lemma PlusNeg(c: Curve, q: Point)
    ensures Plus(c, q, Neg(c, q)) == Infinity
    ensures Plus(c, Neg(c, q), q) == Infinity
  {
    hide Cong;
    if q.Affine? {
      var y := (-q.y) % c.p;
      ModCong(-q.y, c.p);
      CongRefl(q.y, c.p);
      CongAdd(q.y, q.y, y, -q.y, c.p);
      assert y + q.y == q.y + y;
    }
  }

  /** Subtracting the ordinate from the prime, as `ec_full_sub` does, is negation. */
  lemma NegByPrime(c: Curve, q: Point)
    requires OnCurve(c, q) && q.Affine?
    ensures Neg(c, q) == Affine(q.x, if q.y == 0 then 0 else c.p - q.y)
  {
    if q.y == 0 {
      DivModUnique(0, 0, 0, c.p);
    } else {
      DivModUnique(-q.y, -1, c.p - q.y, c.p);
    }
  }
}
