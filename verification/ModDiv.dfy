/** `ECCProvider.mod_sub`, `mod_half` and `mod_div`: modular difference, halving, and division by the
    binary Euclidean algorithm on swapped buffers. */
module ModDiv {
  import opened Words
  import opened Limbs
  import opened ModArith

  /** What `mod_sub` makes of two numbers of the width `w` stands for: one addition when a borrow is out. */
  function SubtractedOnce(x: int, y: int, p: int, w: int): int {
    if y <= x then x - y else if y <= x + p then x - y + p else x - y + p + w
  }

  /** `z = x - y (mod p)` for reduced operands, and what it is for others; `z` may be `x` or `y`. */
  method ModSub(z: array<Limb>, x: array<Limb>, y: array<Limb>, p: array<Limb>)
    requires z.Length == x.Length == y.Length == p.Length && z != p
    modifies z
    ensures V(z) == SubtractedOnce(old(V(x)), old(V(y)), V(p), Pow(z.Length))
  {
    hide Val, Pow;
    ValBound(x[..]);
    ValBound(y[..]);
    ValBound(p[..]);
    var c := Sub(z, x, y);
    if c != 0 {
      var c' := Add(z, z, p);
      ValBound(z[..]);
    }
  }

  lemma ReducedDifference(x: int, y: int, p: int, w: int)
    requires 0 <= x < p && 0 <= y < p
    ensures SubtractedOnce(x, y, p, w) == (x - y) % p
  {
    WrappedDifference(x, y, p);
  }

  lemma WrappedDifference(x: int, y: int, p: int)
    requires 0 <= x < p && 0 <= y < p
    ensures (x - y) % p == if y <= x then x - y else x - y + p
  {
    if y <= x {
      DivModUnique(x - y, 0, x - y, p);
    } else {
      DivModUnique(x - y, -1, x - y + p, p);
    }
  }

  /** A number is odd when its lowest limb is. */
  lemma LowBit(s: seq<Limb>)
    requires s != []
    ensures Val(s) % 2 == s[0] % 2
  {
    hide Val;
    ValSplitFirst(s);
    var low, high := s[0], Val(s[1..]);
    DivModUnique(Val(s), low / 2 + 0x8000_0000 * high, low % 2, 2);
  }

  /** `x = x / 2 (mod p)`. */
  method ModHalf(x: array<Limb>, p: array<Limb>)
    requires x.Length == p.Length > 0 && x != p
    requires V(p) % 2 == 1 && V(x) < V(p)
    modifies x
    ensures V(x) == Half(old(V(x)), V(p))
  {
    hide Val, Pow;
    ghost var v, vp := V(x), V(p);
    LowBit(x[..]);
    if x[0] % 2 != 0 {
      var c := Add(x, x, p);
      LowBit(x[..]);
      LowBit(p[..]);
      Shr(x, c, x);
    } else {
      Shr(x, 0, x);
    }
    ValBound(x[..]);
  }

  // Division

  /** The pairs have the same common divisors. */
  ghost predicate SameDivisors(a: int, b: int, c: int, d: int) {
    forall k: int | k > 0 :: (Divides(k, a) && Divides(k, b)) <==> (Divides(k, c) && Divides(k, d))
  }

  /** The state of the division loop: `a`, `b` shrink with their common divisors kept, and `ra`, `rb`
      stand to them as the quotient stands to the divisor. */
  ghost predicate Dividing(a: int, b: int, ra: int, rb: int, x: int, y: int, p: int) {
    && p > 0 && p % 2 == 1
    && a > 0 && a % 2 == 1 && b >= 0
    && 0 <= ra < p && 0 <= rb < p
    && Cong(ra * y, a * x, p) && Cong(rb * y, b * x, p)
    && SameDivisors(a, b, p, y)
  }

  lemma DividingStart(x: int, y: int, p: int)
    requires p > 0 && p % 2 == 1 && 0 <= x < p && 0 <= y < p
    ensures Dividing(p, y, 0, x, x, y, p)
  {
    hide Cong;
    assert 0 * y == 0;
    NegDistributes(x, p);
    CongBy(0, p * x, -x, p);
    CongRefl(x * y, p);
    assert x * y == y * x;
  }

  lemma DividingSwap(a: int, b: int, ra: int, rb: int, x: int, y: int, p: int)
    requires Dividing(a, b, ra, rb, x, y, p) && b % 2 == 1
    ensures Dividing(b, a, rb, ra, x, y, p)
  {
    hide Cong;
  }

  lemma DividingSub(a: int, b: int, ra: int, rb: int, x: int, y: int, p: int)
    requires Dividing(a, b, ra, rb, x, y, p) && b % 2 == 1 && a <= b
    ensures Dividing(a, b - a, ra, (rb - ra) % p, x, y, p) && (b - a) % 2 == 0
  {
    hide Cong;
    var r := (rb - ra) % p;
    ModCong(rb - ra, p);
    CongRefl(y, p);
    CongMul(r, rb - ra, y, y, p);
    CongAdd(rb * y, b * x, ra * y, a * x, p);
    assert (rb - ra) * y == rb * y - ra * y && (b - a) * x == b * x - a * x;
    CongTrans(r * y, (rb - ra) * y, (b - a) * x, p);
    forall k: int | k > 0
      ensures (Divides(k, a) && Divides(k, b - a)) <==> (Divides(k, p) && Divides(k, y))
    {
      if Divides(k, a) {
        DividesSub(k, b, a);
      }
    }
  }

  lemma DividingHalf(a: int, b: int, ra: int, rb: int, x: int, y: int, p: int)
    requires Dividing(a, 2 * b, ra, rb, x, y, p)
    ensures Dividing(a, b, ra, Half(rb, p), x, y, p)
  {
    hide Cong, Half;
    var h := Half(rb, p);
    HalfIsHalf(rb, p);
    CongRefl(y, p);
    CongMul(2 * h, rb, y, y, p);
    CongTrans((2 * h) * y, rb * y, (2 * b) * x, p);
    assert (2 * h) * y == 2 * (h * y) && (2 * b) * x == 2 * (b * x);
    CancelTwo(h * y, b * x, p);
    forall k: int | k > 0
      ensures (Divides(k, a) && Divides(k, b)) <==> (Divides(k, p) && Divides(k, y))
    {
      if Divides(k, a) {
        DividesHalf(k, a, b);
      }
    }
  }

  lemma DividingDone(a: int, ra: int, rb: int, x: int, y: int, p: int)
    requires Dividing(a, 0, ra, rb, x, y, p)
    ensures IsGcd(a, p, y)
  {
    CongBy(a, 0, 1, a);
    CongRefl(0, a);
    forall d: int | d > 0 && Divides(d, p) && Divides(d, y)
      ensures Divides(d, a)
    {
      assert Divides(d, a) && Divides(d, 0);
    }
  }

  /** `b -= a; rb -= ra (mod p)`. */
  method SubtractPair(a: array<Limb>, b: array<Limb>, ra: array<Limb>, rb: array<Limb>, p: array<Limb>,
                      ghost x: int, ghost y: int)
    requires a.Length == b.Length == ra.Length == rb.Length == p.Length > 0
    requires a != b && b != ra && b != rb && b != p && rb != a && rb != ra && rb != p
    requires Dividing(V(a), V(b), V(ra), V(rb), x, y, V(p)) && V(b) % 2 == 1 && V(a) <= V(b)
    modifies b, rb
    ensures Dividing(V(a), V(b), V(ra), V(rb), x, y, V(p)) && V(b) % 2 == 0
    ensures V(b) <= old(V(b))
  {
    hide Val, Pow, Dividing, Cong;
    DividingFacts(V(a), V(b), V(ra), V(rb), x, y, V(p));
    DividingSub(V(a), V(b), V(ra), V(rb), x, y, V(p));
    var c := Sub(b, b, a);
    ReducedDifference(V(rb), V(ra), V(p), Pow(rb.Length));
    ModSub(rb, rb, ra, p);
  }

  /** `b >>= 1; rb = half(rb)`. */
  method HalvePair(a: array<Limb>, b: array<Limb>, ra: array<Limb>, rb: array<Limb>, p: array<Limb>,
                   ghost x: int, ghost y: int)
    requires a.Length == b.Length == ra.Length == rb.Length == p.Length > 0
    requires a != b && b != ra && b != rb && b != p && rb != a && rb != ra && rb != p
    requires Dividing(V(a), V(b), V(ra), V(rb), x, y, V(p)) && V(b) % 2 == 0
    modifies b, rb
    ensures Dividing(V(a), V(b), V(ra), V(rb), x, y, V(p)) && 2 * V(b) == old(V(b))
  {
    hide Val, Pow, Dividing, Cong, Half;
    DividingFacts(V(a), V(b), V(ra), V(rb), x, y, V(p));
    LowBit(b[..]);
    Shr(b, 0, b);
    DividingHalf(V(a), V(b), V(ra), V(rb), x, y, V(p));
    ModHalf(rb, p);
  }

  /** `ra = x / y (mod p)` for odd `p`, through the scratch buffers `t1`, `t2`, `t3`.  In general `ra`
      is the quotient scaled by the greatest common divisor of `p` and `y`, so it is the quotient
      exactly when that is 1. */
  method ModDivide(ra0: array<Limb>, x: array<Limb>, y: array<Limb>, p: array<Limb>,
                   t1: array<Limb>, t2: array<Limb>, t3: array<Limb>)
    returns (ghost g: int)
    requires ra0.Length == x.Length == y.Length == p.Length == t1.Length == t2.Length == t3.Length > 0
    requires ra0 !in {x, y, p, t1, t2, t3} && t1 !in {x, y, p, t2, t3} && t2 !in {x, y, p, t3} && t3 !in {x, y, p}
    requires V(p) % 2 == 1 && V(x) < V(p) && V(y) < V(p)
    modifies ra0, t1, t2, t3
    ensures 0 <= V(ra0) < V(p)
    ensures IsGcd(g, V(p), V(y)) && Cong(V(ra0) * V(y), g * V(x), V(p))
  {
    hide Val, Pow, Dividing, Half, Cong, IsGcd;
    ghost var vx, vy, vp := V(x), V(y), V(p);
    ValBound(x[..]);
    ValBound(y[..]);
    var a, ra, b, rb := t1, ra0, t2, t3;
    Assign(a, p);
    SetZero(ra);
    Assign(b, y);
    Assign(rb, x);
    DividingStart(vx, vy, vp);
    var swapped := false;
    var done := IsZero(b);
    while !done
      invariant a in {t1, t2} && b in {t1, t2} && a != b
      invariant if swapped then ra == t3 && rb == ra0 else ra == ra0 && rb == t3
      invariant Dividing(V(a), V(b), V(ra), V(rb), vx, vy, vp)
      invariant V(p) == vp && V(x) == vx && V(y) == vy
      invariant done <==> V(b) == 0
      decreases V(a) + V(b)
    {
      DividingFacts(V(a), V(b), V(ra), V(rb), vx, vy, vp);
      LowBit(b[..]);
      if b[0] % 2 != 0 {
        var ordered := Leq(a, b);
        if !ordered {
          DividingSwap(V(a), V(b), V(ra), V(rb), vx, vy, vp);
          a, b := b, a;
          ra, rb := rb, ra;
          swapped := !swapped;
        }
        SubtractPair(a, b, ra, rb, p, vx, vy);
      }
      HalvePair(a, b, ra, rb, p, vx, vy);
      done := IsZero(b);
    }
    g := V(a);
    DividingFacts(V(a), V(b), V(ra), V(rb), vx, vy, vp);
    DividingDone(V(a), V(ra), V(rb), vx, vy, vp);
    if swapped {
      Assign(rb, ra);
    }
  }

  lemma DividingFacts(a: int, b: int, ra: int, rb: int, x: int, y: int, p: int)
    requires Dividing(a, b, ra, rb, x, y, p)
    ensures p > 0 && p % 2 == 1 && a > 0 && a % 2 == 1 && b >= 0 && 0 <= ra < p && 0 <= rb < p
    ensures Cong(ra * y, a * x, p)
  {
  }
}
