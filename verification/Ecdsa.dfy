/** ECDSA over P-384: what a signature and its verification are, as numbers and points, and the proof
    that every signature made is accepted.
 */
module Ecdsa {
  import opened ModArith
  import opened Residues
  import opened P384Field
  import opened Curves
  import opened Multiples
  import opened Provider
  import opened ScalarMultiplication
  import opened TwinScalar

  /** The setting that is taken as given: the field prime and the order are primes, the chord and tangent
      law is associative, and `g` is a point of that order. */
  ghost predicate IsSetting(c: Curve, g: Point) {
    && IsP384(c) && IsPrime(Order())
    && g.Affine? && OnCurve(c, g) && Times(c, Order(), g) == Infinity
  }

  datatype Outcome = Failed | Signed(r: int, s: int)

  /** `h / k` modulo the order. */
  ghost function Quotient(h: int, k: int): int {
    (h * Inverse(k, Order())) % Order()
  }

  /** Section 6.4 of FIPS 186-4: sign hash `e` with key `d` and ephemeral key `k`. */
  ghost function Sign(c: Curve, g: Point, d: int, e: int, k: int): Outcome {
    var n, q := Order(), Times(c, k, g);
    var r := if q.Infinity? then 0 else q.x % n;
    if r == 0 then Failed else
    var s := Quotient((e % n + (d * r) % n) % n, k);
    if s == 0 then Failed else Signed(r, s)
  }

  /** The comparison the code makes: the abscissa against `r`, and against `r + n` unless that carries. */
  predicate Accepts(x: int, r: int) {
    x == r || (r + Order() < TwoTo384() && x == (r + Order()) % Prime())
  }

  /** Verification of `(r, s)` for hash `e` under the public point `q`. */
  ghost predicate Verify(c: Curve, g: Point, e: int, r: int, s: int, q: Point) {
    var n := Order();
    && 0 < r < n && 0 < s < n
    && var w := Quotient(1, s);
       var v := Combination(c, ((e % n) * w) % n, g, (r * w) % n, q);
       v.Affine? && Accepts(v.x, r)
  }

  // Quotients modulo the order

  lemma QuotientUniqueMod(s: int, h: int, k: int)
    requires IsPrime(Order()) && 0 < k < Order() && 0 <= s < Order()
    requires Cong(s * k, h, Order())
    ensures s == Quotient(h, k)
  {
    hide Cong, IsPrime, Order;
    var n, v := Order(), Inverse(k, Order());
    SmallNonzero(k, n);
    CongScale(v, s * k, h, n);
    CongScale(s, k * v, 1, n);
    assert v * (s * k) == s * (k * v) && s * 1 == s && v * h == h * v;
    CongSym(s * (k * v), s, n);
    CongTrans(s, s * (k * v), h * v, n);
    CongReduced(s, h * v, n);
  }

  lemma QuotientTimes(h: int, k: int)
    requires IsPrime(Order()) && 0 < k < Order()
    ensures 0 <= Quotient(h, k) < Order() && Cong(Quotient(h, k) * k, h, Order())
  {
    hide Cong, IsPrime, Order;
    var n, v := Order(), Inverse(k, Order());
    SmallNonzero(k, n);
    ModCong(h * v, n);
    CongRefl(k, n);
    CongMul((h * v) % n, h * v, k, k, n);
    CongScale(h, k * v, 1, n);
    assert (h * v) * k == h * (k * v) && h * 1 == h;
    CongTrans(((h * v) % n) * k, h * (k * v), h, n);
  }

  // Points of prime order

  /** Scalars congruent modulo the order give the same multiple. */
  lemma CongruentMultiples(c: Curve, j: int, k: int, g: Point)
    requires IsSetting(c, g) && Cong(j, k, Order())
    ensures Times(c, j, g) == Times(c, k, g)
  {
    hide Cong, Plus, Times, OnCurve, Order;
    CongMod(j, k, Order());
    OrderReduces(c, Order(), j, g);
    OrderReduces(c, Order(), k, g);
  }

  lemma ReducedScalars(a: int, b: int, d: int, n: int)
    requires n > 0
    ensures Cong(a % n + (b % n) * d, a + b * d, n)
  {
    hide Cong;
    ModCong(a, n);
    ModCong(b, n);
    CongRefl(d, n);
    CongMul(b % n, b, d, d, n);
    CongAdd(a % n, a, (b % n) * d, b * d, n);
  }

  /** `s k = e + d r` modulo the order. */
  lemma SignedSum(e: int, d: int, r: int, s: int, k: int)
    requires IsPrime(Order()) && 0 < k < Order()
    requires s == Quotient((e + (d * r) % Order()) % Order(), k)
    ensures Cong(s * k, e + d * r, Order())
  {
    hide Cong, IsPrime, Order, Quotient;
    var n, dr := Order(), (d * r) % Order();
    QuotientTimes((e + dr) % n, k);
    ModCong(e + dr, n);
    ModCong(d * r, n);
    CongRefl(e, n);
    CongAdd(e, e, dr, d * r, n);
    CongTrans((e + dr) % n, e + dr, e + d * r, n);
    CongTrans(s * k, (e + dr) % n, e + d * r, n);
  }

  lemma VerifyRegroup(w: int, s: int, k: int, e: int, d: int, r: int)
    ensures w * (s * k) == k * (w * s) && k * 1 == k
    ensures e * w + (r * w) * d == w * (e + d * r)
  {
  }

  /** `u1 + u2 d = k` modulo the order. */
  lemma ScalarsAgree(e: int, r: int, s: int, d: int, k: int)
    requires IsPrime(Order()) && 0 < s < Order() && 0 < k < Order()
    requires s == Quotient((e % Order() + (d * r) % Order()) % Order(), k)
    ensures var n, w := Order(), Quotient(1, s);
      Cong(((e % n) * w) % n + ((r * w) % n) * d, k, n)
  {
    hide Cong, IsPrime, Order, Quotient;
    var n, w := Order(), Quotient(1, s);
    var e' := e % n;
    QuotientTimes(1, s);
    SignedSum(e', d, r, s, k);
    ScalarsCancel(e', d, r, s, k, w, n);
    ReducedScalars(e' * w, r * w, d, n);
    CongTrans((e' * w) % n + ((r * w) % n) * d, e' * w + (r * w) * d, k, n);
  }

  /** `w (e + d r) = w s k = k`. */
  lemma ScalarsCancel(e: int, d: int, r: int, s: int, k: int, w: int, n: int)
    requires n > 0 && Cong(s * k, e + d * r, n) && Cong(w * s, 1, n)
    ensures Cong(e * w + (r * w) * d, k, n)
  {
    hide Cong;
    CongScale(w, s * k, e + d * r, n);
    CongScale(k, w * s, 1, n);
    VerifyRegroup(w, s, k, e, d, r);
    CongSym(w * (s * k), w * (e + d * r), n);
    CongTrans(w * (e + d * r), k * (w * s), k, n);
  }

  // What a signature is, without any division

  /** `(r, s)` is the signature of hash `e`: `r` is the abscissa of `k g`, and `s k = e + d r`. */
  ghost predicate IsSignature(c: Curve, g: Point, d: int, e: int, k: int, r: int, s: int) {
    var q := Times(c, k, g);
    && 0 < r < Order() && 0 < s < Order()
    && q.Affine? && q.x % Order() == r
    && Cong(s * k, e + d * r, Order())
  }

  /** `Sign` makes the one signature there is, and fails when there is none. */
  lemma SignMeans(c: Curve, g: Point, d: int, e: int, k: int)
    requires IsSetting(c, g) && 0 < k < Order()
    ensures forall r, s :: Sign(c, g, d, e, k) == Signed(r, s) <==> IsSignature(c, g, d, e, k, r, s)
    ensures Sign(c, g, d, e, k) == Failed <==>
      var q := Times(c, k, g); q.Infinity? || q.x % Order() == 0 || Cong(e + d * (q.x % Order()), 0, Order())
  {
    hide Cong, Times, IsSetting, Quotient, Order;
    SettingIsPrime(c, g);
    OrderAboveOne();
    var n, q := Order(), Times(c, k, g);
    if q.Affine? {
      var r := q.x % n;
      ResidueBelow(q.x, n);
      var s := Quotient((e % n + (d * r) % n) % n, k);
      QuotientTimes((e % n + (d * r) % n) % n, k);
      SignedSumOf(e, d, r, s, k);
      forall s' | 0 < s' < n && Cong(s' * k, e + d * r, n) ensures s' == s {
        SignedSumUnique(e, d, r, s, s', k);
      }
      ZeroSum(e, d, r, s, k);
    }
  }

  lemma SettingIsPrime(c: Curve, g: Point)
    requires IsSetting(c, g)
    ensures IsPrime(Order())
  {
  }

  /** The same with the hash reduced first. */
  lemma SignedSumOf(e: int, d: int, r: int, s: int, k: int)
    requires IsPrime(Order()) && 0 < k < Order()
    requires s == Quotient((e % Order() + (d * r) % Order()) % Order(), k)
    ensures Cong(s * k, e + d * r, Order())
  {
    hide Cong, IsPrime, Order, Quotient;
    var n := Order();
    SignedSum(e % n, d, r, s, k);
    ModCong(e, n);
    CongRefl(d * r, n);
    CongAdd(e % n, e, d * r, d * r, n);
    CongTrans(s * k, e % n + d * r, e + d * r, n);
  }

  lemma SignedSumUnique(e: int, d: int, r: int, s: int, s': int, k: int)
    requires IsPrime(Order()) && 0 < k < Order() && 0 <= s < Order() && 0 <= s' < Order()
    requires Cong(s * k, e + d * r, Order()) && Cong(s' * k, e + d * r, Order())
    ensures s == s'
  {
    hide Cong, IsPrime, Order, Quotient;
    QuotientUniqueMod(s, e + d * r, k);
    QuotientUniqueMod(s', e + d * r, k);
  }

  /** No `s` but zero: `e + d r` vanishes. */
  lemma ZeroSum(e: int, d: int, r: int, s: int, k: int)
    requires IsPrime(Order()) && 0 < k < Order() && 0 <= s < Order() && Cong(s * k, e + d * r, Order())
    ensures s == 0 <==> Cong(e + d * r, 0, Order())
  {
    hide Cong, IsPrime, Order, Quotient;
    var n := Order();
    if s == 0 {
      CongSym(0, e + d * r, n);
    }
    if Cong(e + d * r, 0, n) {
      CongTrans(s * k, e + d * r, 0, n);
      CongRefl(0, n);
      QuotientUniqueMod(s, 0, k);
      QuotientUniqueMod(0, 0, k);
    }
  }

  /** An abscissa reduced modulo the order passes the comparison. */
  lemma ReducedAbscissaAccepted(x: int)
    requires 0 <= x < Prime()
    ensures Accepts(x, x % Order())
  {
    PrimeIs();
    OrderIs();
    DivModUnique(x, if x < Order() then 0 else 1, if x < Order() then x else x - Order(), Order());
    DivModUnique(x, 0, x, Prime());
  }

  /** Completeness: what `Sign` signs, `Verify` accepts under the matching public key. */
  lemma Completeness(c: Curve, g: Point, d: int, e: int, k: int)
    requires IsSetting(c, g) && 0 < d < Order() && 0 < k < Order()
    ensures var o := Sign(c, g, d, e, k);
      o.Signed? ==> Verify(c, g, e, o.r, o.s, Times(c, d, g))
  {
    hide Cong, Plus, Times, OnCurve, IsPrime, Order, Quotient, Accepts, Prime;
    var n, q, o := Order(), Times(c, k, g), Sign(c, g, d, e, k);
    if o.Signed? {
      var w := Quotient(1, o.s);
      var u1, u2 := ((e % n) * w) % n, (o.r * w) % n;
      OrderAboveOne();
      QuotientTimes((e % n + (d * o.r) % n) % n, k);
      ScalarsAgree(e, o.r, o.s, d, k);
      TimesTimes(c, u2, d, g);
      TimesPlus(c, u1, u2 * d, g);
      CongruentMultiples(c, u1 + u2 * d, k, g);
      TimesClosed(c, k, g);
      AbscissaRange(c, q);
      ReducedAbscissaAccepted(q.x);
      ResidueBelow(q.x, n);
    }
  }

  lemma OrderAboveOne()
    ensures Order() > 1
  {
  }

  lemma AbscissaRange(c: Curve, q: Point)
    requires IsP384(c) && OnCurve(c, q) && q.Affine?
    ensures 0 <= q.x < Prime()
  {
  }

  lemma ResidueBelow(x: int, n: int)
    requires n > 0
    ensures 0 <= x % n < n
  {
  }

  // How the comparison relates to the standard's

  /** The comparison is the standard's `x mod n = r`, except where `r + n` lies between the prime and
      `2^384` and `x` is what it leaves over. */
  lemma AcceptsIsStandard(x: int, r: int)
    requires 0 <= x < Prime() && 0 < r < Order()
    ensures Accepts(x, r) <==> (x % Order() == r || (Prime() <= r + Order() < TwoTo384() && x == r + Order() - Prime()))
  {
    var n, p := Order(), Prime();
    PrimeIs();
    OrderIs();
    if r + n < TwoTo384() {
      DivModUnique(r + n, if r + n < p then 0 else 1, if r + n < p then r + n else r + n - p, p);
    }
    DivModUnique(x, if x < n then 0 else 1, if x < n then x else x - n, n);
  }

  /** The signatures part `r` for which the comparison is not the standard's: `r + n` wraps past the prime. */
  predicate Wraps(r: int) {
    Prime() <= r + Order() < TwoTo384()
  }

  /** What a caller can check: the comparison is the standard's for every abscissa unless `r + n` wraps. */
  lemma ComparisonIsStandard(r: int)
    requires 0 < r < Order()
    ensures (forall x :: 0 <= x < Prime() ==> (Accepts(x, r) <==> x % Order() == r)) <==> !Wraps(r)
  {
    hide Accepts;
    OrderIs();
    PrimeIs();
    forall x | 0 <= x < Prime()
      ensures Accepts(x, r) <==> (x % Order() == r || (Wraps(r) && x == r + Order() - Prime()))
    {
      AcceptsIsStandard(x, r);
    }
    if Wraps(r) {
      var x := r + Order() - Prime();
      DivModUnique(x, 0, x, Order());
      assert Accepts(x, r) && x % Order() != r;
    }
  }

  /** The lowest such `r`, and the abscissa 0 it accepts. */
  lemma WrapExists()
    ensures var r := Prime() - Order(); 0 < r < Order() && Wraps(r) && Accepts(0, r) && 0 % Order() != r
  {
    OrderIs();
    PrimeIs();
    var r := Prime() - Order();
    DivModUnique(r + Order(), 1, 0, Prime());
    DivModUnique(0, 0, 0, Order());
  }

  /** Verification as section 6.4 of FIPS 186-4 has it, with the abscissa modulo the order. */
  ghost predicate VerifyStandard(c: Curve, g: Point, e: int, r: int, s: int, q: Point) {
    var n := Order();
    && 0 < r < n && 0 < s < n
    && var w := Quotient(1, s);
       var v := Combination(c, ((e % n) * w) % n, g, (r * w) % n, q);
       v.Affine? && v.x % n == r
  }

  /** The same without any division: `u1 s = e` and `u2 s = r` modulo the order. */
  lemma VerifyMeans(c: Curve, g: Point, e: int, r: int, s: int, q: Point, u1: int, u2: int)
    requires IsPrime(Order()) && 0 <= u1 < Order() && 0 <= u2 < Order() && 0 < s < Order()
    requires Cong(u1 * s, e, Order()) && Cong(u2 * s, r, Order())
    ensures VerifyStandard(c, g, e, r, s, q) <==>
      0 < r < Order() && var v := Combination(c, u1, g, u2, q); v.Affine? && v.x % Order() == r
  {
    hide Cong, IsPrime, Order, Quotient, Combination;
    var n, w := Order(), Quotient(1, s);
    OrderAboveOne();
    ModCong(e, n);
    ScaledByInverse(e, e % n, s, u1);
    ScaledByInverse(r, r, s, u2);
  }

  lemma TimesAssociate(a: int, b: int, c: int)
    ensures (a * b) * c == a * (b * c) && a * 1 == a
  {
  }

  /** `u s = h` has the one solution `h / s`. */
  lemma ScaledByInverse(h: int, h': int, s: int, u: int)
    requires IsPrime(Order()) && 0 < s < Order() && 0 <= u < Order()
    requires Cong(u * s, h, Order()) && (h' == h || h' == h % Order())
    ensures u == (h' * Quotient(1, s)) % Order()
  {
    hide Cong, IsPrime, Order, Quotient;
    var n, w := Order(), Quotient(1, s);
    OrderAboveOne();
    QuotientTimes(1, s);
    ModCong(h, n);
    CongRefl(h, n);
    ModCong(h' * w, n);
    CongRefl(s, n);
    CongMul((h' * w) % n, h' * w, s, s, n);
    CongScale(h', w * s, 1, n);
    TimesAssociate(h', w, s);
    CongTrans(((h' * w) % n) * s, (h' * w) * s, h', n);
    CongTrans(((h' * w) % n) * s, h', h, n);
    ResidueBelow(h' * w, n);
    QuotientUniqueMod(u, h, s);
    QuotientUniqueMod((h' * w) % n, h, s);
  }

  /** Every signature that the standard accepts is accepted, and no others unless `r + n` wraps. */
  lemma VerifyIsStandard(c: Curve, g: Point, e: int, r: int, s: int, q: Point)
    requires IsSetting(c, g) && OnCurve(c, q)
    ensures VerifyStandard(c, g, e, r, s, q) ==> Verify(c, g, e, r, s, q)
    ensures !Wraps(r) ==> (Verify(c, g, e, r, s, q) <==> VerifyStandard(c, g, e, r, s, q))
  {
    hide Accepts, Quotient, Combination, OnCurve, Order, Prime, IsPrime, IsGroup;
    if 0 < r < Order() && 0 < s < Order() {
      var n, w := Order(), Quotient(1, s);
      var v := Combination(c, ((e % n) * w) % n, g, (r * w) % n, q);
      CombinationClosed(c, ((e % n) * w) % n, g, (r * w) % n, q);
      if v.Affine? {
        AbscissaRange(c, v);
        AcceptsIsStandard(v.x, r);
      }
    }
  }

  /** Where the two differ: a point `v` of the group with a small abscissa gives a key and a signature of the
      hash 0 that the code accepts and the standard does not. */
  lemma AcceptedBeyondStandard(c: Curve, g: Point, v: Point)
    requires IsSetting(c, g) && v.Affine? && OnCurve(c, v) && Times(c, Order(), v) == Infinity
    requires v.x + Prime() < TwoTo384()
    ensures var r := v.x + Prime() - Order();
      var q := Times(c, Inverse(r, Order()), v);
      && OnCurve(c, q) && Wraps(r)
      && Verify(c, g, 0, r, 1, q) && !VerifyStandard(c, g, 0, r, 1, q)
  {
    hide Quotient, Combination, OnCurve, Order, Prime, IsPrime, IsGroup, Times, Plus, Cong, TwoTo384, Accepts;
    var n, r := Order(), v.x + Prime() - Order();
    var i := Inverse(r, n);
    var q := Times(c, i, v);
    AbscissaRange(c, v);
    BeyondArithmetic(v.x, r);
    OneInverse();
    DivModUnique(r, 0, r, n);
    DivModUnique(0, 0, 0, n);
    SmallNonzero(r, n);
    TimesClosed(c, i, v);
    RecoveredPoint(c, r, i, v);
    SingleCombination(c, g, r, q);
    assert (0 % n) * 1 % n == 0 && r * 1 % n == r;
  }

  lemma BeyondArithmetic(x: int, r: int)
    requires 0 <= x && x + Prime() < TwoTo384() && r == x + Prime() - Order()
    ensures 0 < r < Order() && 1 < Order() && Wraps(r) && Accepts(x, r) && x % Order() != r
  {
    OrderIs();
    PrimeIs();
    DivModUnique(r + Order(), 1, x, Prime());
    DivModUnique(x, 0, x, Order());
  }

  lemma OneInverse()
    requires IsPrime(Order())
    ensures Quotient(1, 1) == 1
  {
    hide Quotient, Cong, IsPrime, Order;
    OrderAboveOne();
    CongRefl(1, Order());
    QuotientUniqueMod(1, 1, 1);
  }

  /** `r (r^-1 v) = v` for a point of the group. */
  lemma RecoveredPoint(c: Curve, r: int, i: int, v: Point)
    requires IsP384(c) && OnCurve(c, v) && Times(c, Order(), v) == Infinity && Cong(r * i, 1, Order())
    ensures Times(c, r, Times(c, i, v)) == v
  {
    hide OnCurve, Order, IsGroup, Times, Plus, Cong;
    TimesTimes(c, r, i, v);
    CongMod(r * i, 1, Order());
    OrderReduces(c, Order(), r * i, v);
    OrderReduces(c, Order(), 1, v);
    TimesOne(c, v);
  }

  lemma SingleCombination(c: Curve, g: Point, r: int, q: Point)
    requires IsP384(c) && OnCurve(c, q) && OnCurve(c, g)
    ensures Combination(c, 0, g, r, q) == Times(c, r, q)
  {
    hide OnCurve, IsGroup, Times, Plus;
    TimesZero(c, g);
    TimesClosed(c, r, q);
    PlusInfinity(c, Times(c, r, q));
  }
}
