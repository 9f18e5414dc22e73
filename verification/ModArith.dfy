/** Congruences, greatest common divisors and prime moduli, as far as the curve arithmetic needs them. */
module ModArith {

  /** `a` and `b` differ by a multiple of `m`. */
  ghost predicate Cong(a: int, b: int, m: int)
    requires m > 0
  {
    exists k: int :: a == b + k * m
  }

  lemma CongBy(a: int, b: int, k: int, m: int)
    requires m > 0 && a == b + k * m
    ensures Cong(a, b, m)
  {
  }

  lemma CongWitness(a: int, b: int, m: int) returns (k: int)
    requires m > 0 && Cong(a, b, m)
    ensures a == b + k * m
  {
    k :| a == b + k * m;
  }

  lemma CongRefl(a: int, m: int)
    requires m > 0
    ensures Cong(a, a, m)
  {
    CongBy(a, a, 0, m);
  }

  lemma CongSym(a: int, b: int, m: int)
    requires m > 0 && Cong(a, b, m)
    ensures Cong(b, a, m)
  {
    hide Cong;
    var k := CongWitness(a, b, m);
    NegDistributes(k, m);
    CongBy(b, a, -k, m);
  }

  lemma NegDistributes(k: int, m: int)
    ensures -k * m == -(k * m)
  {
  }

  lemma CongTrans(a: int, b: int, c: int, m: int)
    requires m > 0 && Cong(a, b, m) && Cong(b, c, m)
    ensures Cong(a, c, m)
  {
    hide Cong;
    var k := CongWitness(a, b, m);
    var l := CongWitness(b, c, m);
    SumDistributes(k, l, m);
    CongBy(a, c, k + l, m);
  }

  lemma SumDistributes(k: int, l: int, m: int)
    ensures (k + l) * m == k * m + l * m
    ensures (k - l) * m == k * m - l * m
  {
  }

  lemma CongAdd(a: int, b: int, c: int, d: int, m: int)
    requires m > 0 && Cong(a, b, m) && Cong(c, d, m)
    ensures Cong(a + c, b + d, m)
    ensures Cong(a - c, b - d, m)
  {
    hide Cong;
    var k := CongWitness(a, b, m);
    var l := CongWitness(c, d, m);
    SumDistributes(k, l, m);
    CongBy(a + c, b + d, k + l, m);
    CongBy(a - c, b - d, k - l, m);
  }

  lemma CongMul(a: int, b: int, c: int, d: int, m: int)
    requires m > 0 && Cong(a, b, m) && Cong(c, d, m)
    ensures Cong(a * c, b * d, m)
  {
    hide Cong;
    var k := CongWitness(a, b, m);
    var l := CongWitness(c, d, m);
    MulWitness(b, d, k, l, m);
    CongBy(a * c, b * d, b * l + k * d + k * l * m, m);
  }

  lemma MulWitness(b: int, d: int, k: int, l: int, m: int)
    ensures (b + k * m) * (d + l * m) == b * d + (b * l + k * d + k * l * m) * m
  {
  }

  /** Quotient and remainder are the only ones. */
  lemma DivModUnique(x: int, q: int, r: int, m: int)
    requires 0 <= r < m && x == q * m + r
    ensures x / m == q && x % m == r
  {
    var q', r' := x / m, x % m;
    SumDistributes(q, q', m);
    if q - q' >= 1 {
      MulLeft(1, q - q', m);
    } else if q' - q >= 1 {
      MulLeft(1, q' - q, m);
      SumDistributes(q', q, m);
    }
  }

  lemma MulLeft(a: int, b: int, m: int)
    requires a <= b && m >= 0
    ensures a * m <= b * m
  {
  }

  lemma ModCong(a: int, m: int)
    requires m > 0
    ensures 0 <= a % m < m && Cong(a % m, a, m)
  {
    hide Cong;
    var q := a / m;
    NegDistributes(q, m);
    CongBy(a % m, a, -q, m);
  }

  /** Congruent numbers have the same remainder. */
  lemma CongMod(a: int, b: int, m: int)
    requires m > 0 && Cong(a, b, m)
    ensures a % m == b % m
  {
    hide Cong;
    var k := CongWitness(a, b, m);
    var q, r := b / m, b % m;
    SumDistributes(q, k, m);
    DivModUnique(a, q + k, r, m);
  }

  lemma CongReduced(a: int, b: int, m: int)
    requires m > 0 && Cong(a, b, m) && 0 <= a < m
    ensures a == b % m
  {
    hide Cong;
    CongMod(a, b, m);
    DivModUnique(a, 0, a, m);
  }

  lemma SameModCong(a: int, b: int, m: int)
    requires m > 0 && a % m == b % m
    ensures Cong(a, b, m)
  {
    hide Cong;
    ModCong(a, m);
    ModCong(b, m);
    CongSym(a % m, a, m);
    CongTrans(a, a % m, b, m);
  }

  lemma CongZero(a: int, m: int)
    requires m > 0
    ensures Cong(a, 0, m) <==> a % m == 0
  {
    hide Cong;
    if Cong(a, 0, m) {
      CongMod(a, 0, m);
    }
    if a % m == 0 {
      SameModCong(a, 0, m);
    }
  }

  // Divisors

  ghost predicate Divides(d: int, a: int)
    requires d > 0
  {
    Cong(a, 0, d)
  }

  /** `g` is the greatest common divisor: it divides both, and every common divisor divides it. */
  ghost predicate IsGcd(g: int, a: int, b: int) {
    && g > 0
    && Divides(g, a) && Divides(g, b)
    && forall d: int | d > 0 && Divides(d, a) && Divides(d, b) :: Divides(d, g)
  }

  ghost predicate IsPrime(p: int) {
    && p > 1
    && forall d: int | 1 < d < p :: !Divides(d, p)
  }

  lemma DividesSub(d: int, a: int, b: int)
    requires d > 0 && Divides(d, b)
    ensures Divides(d, a) <==> Divides(d, a - b)
  {
    hide Cong;
    if Divides(d, a) {
      CongAdd(a, 0, b, 0, d);
    }
    if Divides(d, a - b) {
      CongAdd(a - b, 0, b, 0, d);
    }
  }

  lemma DividesMul(d: int, a: int, k: int)
    requires d > 0 && Divides(d, a)
    ensures Divides(d, k * a)
  {
    hide Cong;
    CongRefl(k, d);
    CongMul(k, k, a, 0, d);
  }

  lemma DividesBound(d: int, a: int)
    requires d > 0 && a > 0 && Divides(d, a)
    ensures d <= a
  {
    hide Cong;
    var k := CongWitness(a, 0, d);
    if k <= 0 {
      MulLeft(k, 0, d);
    }
    MulLeft(1, k, d);
  }

  /** A divisor of an odd number divides half of an even one when it divides the whole. */
  lemma DividesHalf(d: int, a: int, b: int)
    requires d > 0 && a % 2 == 1 && Divides(d, a)
    ensures Divides(d, 2 * b) <==> Divides(d, b)
  {
    hide Cong;
    if Divides(d, 2 * b) {
      var k := CongWitness(a, 0, d);
    var l := CongWitness(2 * b, 0, d);
      OddFactor(k, d, a);
      // b = a * b - (a - 1) / 2 * (2 * b)
      var h := (a - 1) / 2;
      assert a == 2 * h + 1;
      HalfWitness(b, h, k, l, d);
      CongBy(b, 0, k * b - h * l, d);
    }
    if Divides(d, b) {
      DividesMul(d, b, 2);
    }
  }

  lemma OddFactor(k: int, d: int, a: int)
    requires a == k * d
    ensures a == 0 + k * d
  {
  }

  lemma HalfWitness(b: int, h: int, k: int, l: int, d: int)
    requires k * d == 2 * h + 1 && l * d == 2 * b
    ensures (k * b - h * l) * d == b
  {
    calc {
      (k * b - h * l) * d;
      (k * d) * b - h * (l * d);
      (2 * h + 1) * b - h * (2 * b);
      b;
    }
  }

  /** Two cancels modulo an odd number. */
  lemma CancelTwo(u: int, v: int, p: int)
    requires p > 0 && p % 2 == 1 && Cong(2 * u, 2 * v, p)
    ensures Cong(u, v, p)
  {
    hide Cong;
    var k := CongWitness(2 * u, 2 * v, p);
    var h := k / 2;
    OddTimes(k, p);
    assert k == 2 * h;
    assert (2 * h) * p == 2 * (h * p);
    CongBy(u, v, h, p);
  }

  lemma OddTimes(k: int, p: int)
    requires p % 2 == 1 && (k * p) % 2 == 0
    ensures k % 2 == 0
  {
    OddProduct(k, p / 2);
    Parity(k * p, k * (p / 2), k);
  }

  lemma OddProduct(k: int, q: int)
    ensures k * (2 * q + 1) == 2 * (k * q) + k
  {
  }

  lemma Parity(n: int, m: int, k: int)
    requires n == 2 * m + k && n % 2 == 0
    ensures k % 2 == 0
  {
  }

  /** The half of `v` modulo an odd `p`. */
  function Half(v: int, p: int): int {
    if v % 2 == 0 then v / 2 else (v + p) / 2
  }

  lemma HalfIsHalf(v: int, p: int)
    requires p % 2 == 1 && 0 <= v < p
    ensures 0 <= Half(v, p) < p && Cong(2 * Half(v, p), v, p)
  {
    CongBy(2 * Half(v, p), v, if v % 2 == 0 then 0 else 1, p);
  }

  // Prime moduli

  lemma {:induction false} Bezout(a: int, b: int) returns (g: int, u: int, v: int)
    requires a > 0 && b >= 0
    ensures g > 0 && Divides(g, a) && Divides(g, b) && g == u * a + v * b
    decreases b
  {
    hide Cong;
    if b == 0 {
      g, u, v := a, 1, 0;
      CongBy(a, 0, 1, a);
      CongRefl(0, a);
    } else {
      var q, r := a / b, a % b;
      var u', v';
      g, u', v' := Bezout(b, r);
      u, v := v', u' - q * v';
      DividesMul(g, b, q);
      CongAdd(q * b, 0, r, 0, g);
      assert a == q * b + r;
      BezoutStep(u', v', q, b, r);
    }
  }

  lemma BezoutStep(u: int, v: int, q: int, b: int, r: int)
    ensures u * b + v * r == v * (q * b + r) + (u - q * v) * b
  {
  }

  lemma InverseExists(a: int, p: int)
    requires IsPrime(p) && !Cong(a, 0, p)
    ensures exists v: int :: 0 <= v < p && Cong(a * v, 1, p)
  {
    hide Cong;
    var r := a % p;
    ModCong(a, p);
    CongSym(r, a, p);
    if r == 0 {
      assert false;
    }
    var g, u, w := Bezout(p, r);
    DividesBound(g, r);
    assert g == 1;
    // 1 == u * p + w * r
    CongBy(w * r, 1, -u, p);
    var v := w % p;
    ModCong(w, p);
    CongMul(a, r, v, w, p);
    assert r * w == w * r;
    CongTrans(a * v, r * w, 1, p);
  }

  lemma NoZeroDivisors(a: int, b: int, p: int)
    requires IsPrime(p) && Cong(a * b, 0, p) && !Cong(a, 0, p)
    ensures Cong(b, 0, p)
  {
    hide Cong;
    var v := Inverse(a, p);
    CongRefl(b, p);
    CongRefl(v, p);
    CongMul(a * v, 1, b, b, p);
    CongMul(a * b, 0, v, v, p);
    assert (a * v) * b == (a * b) * v;
    assert 1 * b == b && 0 * v == 0;
    CongSym((a * v) * b, b, p);
    CongTrans(b, (a * v) * b, 0, p);
  }

  /** A factor prime to `p` cancels from a congruence. */
  lemma CongCancel(a: int, b: int, c: int, p: int)
    requires IsPrime(p) && Cong(a * b, a * c, p) && !Cong(a, 0, p)
    ensures Cong(b, c, p)
  {
    hide Cong;
    CongRefl(a * c, p);
    CongAdd(a * b, a * c, a * c, a * c, p);
    assert a * (b - c) == a * b - a * c;
    NoZeroDivisors(a, b - c, p);
    CongRefl(c, p);
    CongAdd(b - c, 0, c, c, p);
  }

  ghost function Inverse(a: int, p: int): (v: int)
    requires p > 0
    ensures IsPrime(p) && !Cong(a, 0, p) ==> 0 <= v < p && Cong(a * v, 1, p)
  {
    if IsPrime(p) && !Cong(a, 0, p) then
      InverseExists(a, p);
      var v :| 0 <= v < p && Cong(a * v, 1, p);
      v
    else
      0
  }

  lemma ModPlus(a: int, b: int, m: int)
    requires m > 0
    ensures (a % m + b) % m == (a + b) % m
  {
    hide Cong;
    ModCong(a, m);
    CongRefl(b, m);
    CongAdd(a % m, a, b, b, m);
    CongMod(a % m + b, a + b, m);
  }
}
