/** `mult` and `pow` on 64-bit words: multiplication of polynomials over GF(2) modulo
    x^64 + x^4 + x^3 + x + 1, and exponentiation in that ring.  A word is its bits, the low one first.
 */
module GF64 {

  /** Coefficient `i` of a polynomial; there are none past its end. */
  function At(p: seq<bool>, i: int): bool {
    0 <= i < |p| && p[i]
  }

  function Zeros(n: nat): (z: seq<bool>)
    ensures |z| == n && forall i :: 0 <= i < n ==> !z[i]
  {
    seq(n, _ => false)
  }

  type Word = w: seq<bool> | |w| == 64 witness Zeros(64)

  const ZERO: Word := Zeros(64)
  const ONE: Word := [true] + Zeros(63)

  function Xor(a: seq<bool>, b: seq<bool>): (r: seq<bool>)
    requires |a| == |b|
    ensures |r| == |a| && forall i :: 0 <= i < |r| ==> r[i] == (a[i] != b[i])
  {
    seq(|a|, i requires 0 <= i < |a| => a[i] != b[i])
  }

  /** 0x1b: what x^64 is modulo the field polynomial. */
  const FEEDBACK: Word := [true, true, false, true, true] + Zeros(59)

  function Left(x: Word): Word {
    [false] + x[..63]
  }

  /** Multiplication by x. */
  function Shifted(x: Word): Word {
    if x[63] then Xor(Left(x), FEEDBACK) else Left(x)
  }

  function Selected(b: bool, x: Word): Word {
    if b then x else ZERO
  }

  /** The product, one bit of `y` at a time. */
  function Product(x: Word, y: seq<bool>): Word
    decreases |y|
  {
    if |y| == 0 then ZERO else Xor(Selected(y[0], x), Product(Shifted(x), y[1..]))
  }

  lemma XorLaws(a: Word, b: Word, c: Word)
    ensures Xor(ZERO, a) == a && Xor(a, ZERO) == a
    ensures Xor(a, b) == Xor(b, a) && Xor(Xor(a, b), c) == Xor(a, Xor(b, c))
  {
  }

  lemma {:induction false} MultZeros(x: Word, n: nat)
    ensures Product(x, Zeros(n)) == ZERO
    decreases n
  {
    if n > 0 {
      assert Zeros(n)[1..] == Zeros(n - 1);
      MultZeros(Shifted(x), n - 1);
      assert Xor(ZERO, ZERO) == ZERO;
    }
  }

  lemma {:induction false} MultSnoc(x: Word, y: seq<bool>)
    ensures Product(x, y + [false]) == Product(x, y)
    decreases |y|
  {
    hide Shifted, Xor;
    if |y| == 0 {
      XorLaws(ZERO, ZERO, ZERO);
    } else {
      MultSnoc(Shifted(x), y[1..]);
      assert (y + [false])[1..] == y[1..] + [false];
    }
  }

  /** One round of the loop keeps the sum of the accumulator and the product that is left. */
  lemma MultStep(acc: Word, x: Word, y: Word)
    ensures Xor(acc, Product(x, y)) == Xor(if y[0] then Xor(acc, x) else acc, Product(Shifted(x), y[1..] + [false]))
  {
    hide Shifted, Xor;
    MultSnoc(Shifted(x), y[1..]);
    XorLaws(acc, Selected(y[0], x), Product(Shifted(x), y[1..]));
    XorLaws(acc, ZERO, acc);
  }

  /** The first `n` bits of `y` are the unread bits of `y0`, and zeros have been shifted in above them. */
  predicate Unread(y: Word, y0: Word, n: nat) {
    n <= 64 && forall i :: 0 <= i < 64 ==> y[i] == (i < n && y0[64 - n + i])
  }

  lemma AllUnread(y: Word)
    ensures Unread(y, y, 64)
  {
  }

  lemma NoneUnread(y: Word, y0: Word)
    requires Unread(y, y0, 0)
    ensures y == ZERO
  {
  }

  lemma SomeUnread(y: Word, y0: Word, n: nat)
    requires Unread(y, y0, n) && y != ZERO
    ensures n > 0 && Unread(y[1..] + [false], y0, n - 1)
  {
    if n == 0 {
      NoneUnread(y, y0);
    }
  }

  method Mult(x0: Word, y0: Word) returns (acc: Word)
    ensures acc == Product(x0, y0)
  {
    hide Product, Selected, Xor, Unread;
    var x, y := x0, y0;
    acc := ZERO;
    ghost var n := 64;
    assert Unread(y0, y0, 64) by { AllUnread(y0); }
    XorLaws(Product(x0, y0), ZERO, ZERO);
    while y != ZERO
      invariant n >= 0 && Unread(y, y0, n)
      invariant Xor(acc, Product(x, y)) == Product(x0, y0)
      decreases n
    {
      MultStep(acc, x, y);
      SomeUnread(y, y0, n);
      if y[0] {
        acc := Xor(acc, x);
      }
      y := y[1..] + [false];
      n := n - 1;
      if x[63] {
        x := Xor(Left(x), FEEDBACK);
      } else {
        x := Left(x);
      }
    }
    MultZeros(x, 64);
    XorLaws(acc, ZERO, ZERO);
  }

  // Ring laws

  lemma XorSwap(a: Word, b: Word, c: Word, d: Word)
    ensures Xor(Xor(a, b), Xor(c, d)) == Xor(Xor(a, c), Xor(b, d))
  {
  }

  lemma LeftXor(a: Word, b: Word)
    ensures Left(Xor(a, b)) == Xor(Left(a), Left(b)) && Left(ZERO) == ZERO
  {
  }

  lemma FoldXor(a: Word, b: Word, c: Word)
    ensures Xor(Xor(a, c), Xor(b, c)) == Xor(a, b)
    ensures Xor(Xor(a, c), b) == Xor(Xor(a, b), c)
    ensures Xor(a, Xor(b, c)) == Xor(Xor(a, b), c)
  {
  }

  lemma TopXor(a: Word, b: Word)
    ensures Xor(a, b)[63] == (a[63] != b[63])
  {
  }

  lemma ShiftedXor(a: Word, b: Word)
    ensures Shifted(Xor(a, b)) == Xor(Shifted(a), Shifted(b))
    ensures Shifted(ZERO) == ZERO
  {
    hide Xor, Left;
    TopXor(a, b);
    LeftXor(a, b);
    FoldXor(Left(a), Left(b), FEEDBACK);
  }

  lemma {:induction false} MultXorLeft(a: Word, b: Word, y: seq<bool>)
    ensures Product(Xor(a, b), y) == Xor(Product(a, y), Product(b, y))
    decreases |y|
  {
    hide Xor, Shifted;
    XorLaws(ZERO, ZERO, ZERO);
    if |y| > 0 {
      ShiftedXor(a, b);
      MultXorLeft(Shifted(a), Shifted(b), y[1..]);
      XorSwap(Selected(y[0], a), Selected(y[0], b), Product(Shifted(a), y[1..]), Product(Shifted(b), y[1..]));
    }
  }

  /** Multiplication by x may be done before or after. */
  lemma {:induction false} MultShifted(x: Word, y: seq<bool>)
    ensures Product(Shifted(x), y) == Shifted(Product(x, y))
    decreases |y|
  {
    hide Xor, Shifted;
    ShiftedXor(ZERO, ZERO);
    if |y| > 0 {
      MultShifted(Shifted(x), y[1..]);
      ShiftedXor(Selected(y[0], x), Product(Shifted(x), y[1..]));
    }
  }

  /** The word with the low bits `y` and zeros above. */
  function Padded(y: seq<bool>): Word
    requires |y| <= 64
  {
    y + Zeros(64 - |y|)
  }

  lemma PaddedStep(y: seq<bool>)
    requires 0 < |y| <= 64
    ensures Padded(y) == Xor(Selected(y[0], ONE), Shifted(Padded(y[1..])))
  {
    var w := Padded(y[1..]);
    assert !w[63] && Shifted(w) == Left(w);
  }

  lemma {:induction false} MultOne(y: seq<bool>)
    requires |y| <= 64
    ensures Product(ONE, y) == Padded(y)
    decreases |y|
  {
    hide Xor, Shifted;
    if |y| > 0 {
      MultOne(y[1..]);
      MultShifted(ONE, y[1..]);
      PaddedStep(y);
    }
  }

  /** Words as multipliers, by the bits of the left operand. */
  lemma {:induction false} MultCommutes(x: Word, y: seq<bool>)
    requires |y| <= 64
    ensures Product(x, y) == Product(Padded(y), x)
    decreases |y|
  {
    hide Xor, Shifted, Padded;
    if |y| == 0 {
      EmptyPadded(y);
      MultZero(x);
    } else {
      MultCommutes(x, y[1..]);
      PaddedStep(y);
      MultXorLeft(Selected(y[0], ONE), Shifted(Padded(y[1..])), x);
      MultShifted(Padded(y[1..]), x);
      MultShifted(x, y[1..]);
      MultOne(x);
      FullPadded(x);
      MultZero(x);
    }
  }

  lemma EmptyPadded(y: seq<bool>)
    requires y == []
    ensures Padded(y) == ZERO
  {
  }

  lemma FullPadded(x: Word)
    ensures Padded(x) == x
  {
  }

  lemma {:induction false} MultZero(y: seq<bool>)
    ensures Product(ZERO, y) == ZERO
    decreases |y|
  {
    hide Xor, Shifted;
    XorLaws(ZERO, ZERO, ZERO);
    ShiftedXor(ZERO, ZERO);
    if |y| > 0 {
      MultZero(y[1..]);
    }
  }

  lemma Commutative(x: Word, y: Word)
    ensures Product(x, y) == Product(y, x)
  {
    MultCommutes(x, y);
    FullPadded(y);
  }

  lemma Distributive(x: Word, y: Word, z: Word)
    ensures Product(Xor(x, y), z) == Xor(Product(x, z), Product(y, z))
    ensures Product(z, Xor(x, y)) == Xor(Product(z, x), Product(z, y))
  {
    hide Xor, Product;
    MultXorLeft(x, y, z);
    Commutative(Xor(x, y), z);
    Commutative(x, z);
    Commutative(y, z);
  }

  lemma Unit(x: Word)
    ensures Product(ONE, x) == x && Product(x, ONE) == x
  {
    hide Product;
    MultOne(x);
    FullPadded(x);
    Commutative(x, ONE);
  }

  lemma Associative(x: Word, y: Word, z: Word)
    ensures Product(Product(x, y), z) == Product(x, Product(y, z))
  {
    AssociativeBits(x, y, z);
  }

  lemma {:induction false} AssociativeBits(x: Word, y: Word, z: seq<bool>)
    ensures Product(Product(x, y), z) == Product(x, Product(y, z))
    decreases |z|, 0
  {
    hide Xor, Shifted;
    if |z| == 0 {
      Commutative(x, ZERO);
      MultZero(x);
    } else {
      AssociativeTail(x, y, z[1..]);
      Distributive(Selected(z[0], y), Shifted(Product(y, z[1..])), x);
      MultShifted(y, z[1..]);
      MultShifted(Product(x, y), z[1..]);
      Commutative(x, ZERO);
      MultZero(x);
    }
  }

  lemma {:induction false} AssociativeTail(x: Word, y: Word, z: seq<bool>)
    ensures Shifted(Product(Product(x, y), z)) == Product(x, Shifted(Product(y, z)))
    decreases |z|, 1
  {
    hide Xor, Shifted, Product;
    AssociativeBits(x, y, z);
    Commutative(x, Product(y, z));
    MultShifted(Product(y, z), x);
    Commutative(x, Shifted(Product(y, z)));
  }

  // Powers

  /** The number whose bits are `e`. */
  function Number(e: seq<bool>): nat
    decreases |e|
  {
    if |e| == 0 then 0 else (if e[0] then 1 else 0) + 2 * Number(e[1..])
  }

  /** `b` multiplied `n` times. */
  function Power(b: Word, n: nat): Word {
    if n == 0 then ONE else Product(b, Power(b, n - 1))
  }

  lemma {:induction false} PowerAdd(b: Word, m: nat, n: nat)
    ensures Power(b, m + n) == Product(Power(b, m), Power(b, n))
    decreases m
  {
    hide Product;
    if m == 0 {
      Unit(Power(b, n));
    } else {
      PowerAdd(b, m - 1, n);
      Associative(b, Power(b, m - 1), Power(b, n));
    }
  }

  /** `base` to the power of the exponent, for every 64-bit exponent. */
  method Pow(base: Word, exponent: Word) returns (acc: Word)
    ensures acc == Power(base, Number(exponent))
  {
    hide Product;
    acc := ONE;
    var i := 0;
    while i < 64
      invariant 0 <= i <= 64
      invariant acc == Power(base, Number(exponent[64 - i..]))
    {
      ghost var rest := exponent[64 - i..];
      assert exponent[63 - i..][1..] == rest;
      PowerAdd(base, Number(rest), Number(rest));
      acc := Mult(acc, acc);
      if exponent[63 - i] {
        acc := Mult(base, acc);
      }
      i := i + 1;
    }
    assert exponent[0..] == exponent;
  }

  // The product of polynomials, by its coefficients

  /** x^64 + x^4 + x^3 + x + 1. */
  const MODULUS: seq<bool> := [true, true, false, true, true] + Zeros(59) + [true]

  lemma ModulusTerms(i: int)
    ensures At(MODULUS, i) <==> i in {0, 1, 3, 4, 64}
  {
  }

  /** The sum of `a[i] b[k - i]` over `i < n`. */
  function Terms(a: seq<bool>, b: seq<bool>, k: int, n: nat): bool {
    n > 0 && Terms(a, b, k, n - 1) != (At(a, n - 1) && At(b, k - (n - 1)))
  }

  /** Coefficient `k` of the product `a b`. */
  function Coefficient(a: seq<bool>, b: seq<bool>, k: nat): bool {
    Terms(a, b, k, k + 1)
  }

  /** `a = t b + c`, coefficient by coefficient. */
  ghost predicate IsSum(a: seq<bool>, t: bool, b: seq<bool>, c: seq<bool>) {
    forall i :: At(a, i) == ((t && At(b, i)) != At(c, i))
  }

  lemma {:induction false} TermsLinear(a: seq<bool>, t: bool, b: seq<bool>, c: seq<bool>, y: seq<bool>, k: int, n: nat)
    requires IsSum(a, t, b, c)
    ensures Terms(a, y, k, n) == ((t && Terms(b, y, k, n)) != Terms(c, y, k, n))
    ensures Terms(y, a, k, n) == ((t && Terms(y, b, k, n)) != Terms(y, c, k, n))
  {
    hide At;
    if n > 0 {
      TermsLinear(a, t, b, c, y, k, n - 1);
    }
  }

  /** Taking a factor x from one operand to the other. */
  lemma {:induction false} TermsMove(a: seq<bool>, b: seq<bool>, k: int, n: nat)
    requires |b| > 0 && n <= k
    ensures Terms(a, b, k, n) == Terms([false] + a, b[1..], k, n + 1)
  {
    if n > 0 {
      TermsMove(a, b, k, n - 1);
      assert At([false] + a, n) == At(a, n - 1);
    } else {
      assert !At([false] + a, 0) && !Terms([false] + a, b[1..], k, 0);
    }
  }

  /** The quotient of the product by the field polynomial. */
  function Quotient(x: Word, y: seq<bool>): (q: seq<bool>)
    ensures |q| == |y|
    decreases |y|
  {
    if |y| == 0 then [] else
    var q := Quotient(Shifted(x), y[1..]);
    (if x[63] then Xor(y[1..], q) else q) + [false]
  }

  lemma ShiftedIsReduced(x: Word)
    ensures IsSum([false] + x, x[63], MODULUS, Shifted(x))
  {
    hide Xor, Left, At;
    forall i ensures At([false] + x, i) == ((x[63] && At(MODULUS, i)) != At(Shifted(x), i)) {
      LeftAt(x, i);
      ModulusAt(i);
      XorAt(Left(x), FEEDBACK, i);
    }
  }

  lemma LeftAt(x: Word, i: int)
    ensures At([false] + x, i) == (At(Left(x), i) != (i == 64 && x[63]))
  {
  }

  lemma ModulusAt(i: int)
    ensures At(MODULUS, i) == (At(FEEDBACK, i) != (i == 64))
  {
  }

  lemma QuotientIsSum(x: Word, y: seq<bool>)
    requires |y| > 0
    ensures IsSum(Quotient(x, y), x[63], y[1..], Quotient(Shifted(x), y[1..]))
  {
    hide Shifted;
  }

  /** `x y = MODULUS q + mult(x, y)`, coefficient by coefficient. */
  lemma {:induction false} Division(x: Word, y: seq<bool>, k: nat)
    ensures Coefficient(x, y, k) == (Coefficient(MODULUS, Quotient(x, y), k) != At(Product(x, y), k))
    decreases |y|
  {
    hide Xor, Shifted, Quotient, IsSum, At;
    if |y| == 0 {
      NoTerms(x, y, k, k + 1);
      NoTerms(MODULUS, Quotient(x, y), k, k + 1);
      ZeroAt(k);
    } else {
      var y', s := y[1..], Shifted(x);
      TermsMove(x, y, k, k);
      ShiftedIsReduced(x);
      TermsLinear([false] + x, x[63], MODULUS, s, y', k, k + 1);
      Division(s, y', k);
      QuotientIsSum(x, y);
      TermsLinear(Quotient(x, y), x[63], y', Quotient(s, y'), MODULUS, k, k + 1);
      XorAt(Selected(y[0], x), Product(s, y'), k);
      SelectedAt(y[0], x, k);
      FirstAt(y);
    }
  }

  lemma FirstAt(y: seq<bool>)
    requires |y| > 0
    ensures At(y, 0) == y[0]
  {
  }

  lemma ZeroAt(k: int)
    ensures !At(ZERO, k)
  {
  }

  lemma XorAt(a: Word, b: Word, k: int)
    ensures At(Xor(a, b), k) == (At(a, k) != At(b, k))
  {
  }

  lemma SelectedAt(b: bool, x: Word, k: int)
    ensures At(Selected(b, x), k) == (b && At(x, k))
  {
  }

  lemma {:induction false} NoTerms(a: seq<bool>, b: seq<bool>, k: int, n: nat)
    requires b == []
    ensures !Terms(a, b, k, n)
  {
    if n > 0 {
      NoTerms(a, b, k, n - 1);
    }
  }

  /** `r` is what the product `x y` leaves modulo the field polynomial, the quotient being `q`. */
  ghost predicate Leaves(x: seq<bool>, y: seq<bool>, q: seq<bool>, r: Word) {
    forall k: nat :: Coefficient(x, y, k) == (Coefficient(MODULUS, q, k) != At(r, k))
  }

  /** Below and above the leading term of the field polynomial. */
  lemma {:induction false} LeadingTerm(d: seq<bool>, m: nat, n: nat)
    requires m < |d| && d[m] && forall i :: m < i < |d| ==> !d[i]
    ensures Terms(MODULUS, d, 64 + m, n) == (n > 64)
    decreases n
  {
    if n > 0 {
      LeadingTerm(d, m, n - 1);
    }
  }

  /** The remainder of a product is unique. */
  lemma RemainderUnique(x: seq<bool>, y: seq<bool>, q: seq<bool>, r: Word, q': seq<bool>, r': Word)
    requires Leaves(x, y, q, r) && Leaves(x, y, q', r')
    ensures r == r'
  {
    hide Terms;
    var d := seq(|q| + |q'|, i => At(q, i) != At(q', i));
    assert IsSum(d, true, q, q');
    forall k: nat ensures Coefficient(MODULUS, d, k) == (At(r, k) != At(r', k)) {
      TermsLinear(d, true, q, q', MODULUS, k, k + 1);
      assert Coefficient(x, y, k) == (Coefficient(MODULUS, q, k) != At(r, k));
      assert Coefficient(x, y, k) == (Coefficient(MODULUS, q', k) != At(r', k));
    }
    NoLeading(d, r, r', |d|);
    forall i | 0 <= i < 64 ensures r[i] == r'[i] {
      NoTermsAt(d, i, i + 1);
      assert Coefficient(MODULUS, d, i) == (At(r, i) != At(r', i));
    }
  }

  lemma {:induction false} NoTermsAt(d: seq<bool>, k: int, n: nat)
    requires forall i :: 0 <= i < |d| ==> !d[i]
    ensures !Terms(MODULUS, d, k, n)
  {
    if n > 0 {
      NoTermsAt(d, k, n - 1);
    }
  }

  /** A multiple of the field polynomial of degree below 64 has no terms at all. */
  lemma {:induction false} NoLeading(d: seq<bool>, r: Word, r': Word, n: nat)
    requires n <= |d| && forall i :: n <= i < |d| ==> !d[i]
    requires forall k: nat :: Coefficient(MODULUS, d, k) == (At(r, k) != At(r', k))
    ensures forall i :: 0 <= i < |d| ==> !d[i]
    decreases n
  {
    if n > 0 {
      var k: nat := 64 + (n - 1);
      assert Coefficient(MODULUS, d, k) == (At(r, k) != At(r', k));
      if d[n - 1] {
        LeadingTerm(d, n - 1, k + 1);
      }
      NoLeading(d, r, r', n - 1);
    }
  }

  /** `mult` computes the one remainder of the polynomial product. */
  lemma MultIsRemainder(x: Word, y: Word, r: Word)
    ensures r == Product(x, y) <==> exists q: seq<bool> :: Leaves(x, y, q, r)
  {
    hide Product, Coefficient, Quotient;
    forall k: nat ensures Coefficient(x, y, k) == (Coefficient(MODULUS, Quotient(x, y), k) != At(Product(x, y), k)) {
      Division(x, y, k);
    }
    assert Leaves(x, y, Quotient(x, y), Product(x, y));
    forall q: seq<bool> | Leaves(x, y, q, r) ensures r == Product(x, y) {
      RemainderUnique(x, y, q, r, Quotient(x, y), Product(x, y));
    }
  }
}
