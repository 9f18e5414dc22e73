/** Words of `w` bits as numbers: exclusive or, rotations, and both as they come out in wider integers that
    are masked in the end.
 */
module WordBits {
  import opened Words
  import opened ModArith
  import opened Powers
  import opened Bytes

  // Exclusive or of the low `n` bits

  function Xor(a: int, b: int, n: nat): (r: int)
    ensures 0 <= r < Two(n)
    decreases n
  {
    if n == 0 then 0 else (if a % 2 != b % 2 then 1 else 0) + 2 * Xor(a / 2, b / 2, n - 1)
  }

  lemma {:induction false} XorComm(a: int, b: int, n: nat)
    ensures Xor(a, b, n) == Xor(b, a, n)
    decreases n
  {
    if n > 0 {
      XorComm(a / 2, b / 2, n - 1);
    }
  }

  lemma {:induction false} XorTwice(a: int, b: int, n: nat)
    requires 0 <= a < Two(n)
    ensures Xor(Xor(a, b, n), b, n) == a
    decreases n
  {
    if n > 0 {
      XorTwice(a / 2, b / 2, n - 1);
    }
  }

  /** Only the low bits of the operands matter. */
  lemma {:induction false} XorMasked(a: int, b: int, n: nat, w: nat)
    requires w <= n
    ensures Xor(a, b, n) % Two(w) == Xor(a % Two(w), b % Two(w), w)
    decreases n
  {
    hide Two, Xor;
    XorNone(a % Two(w), b % Two(w));
    TwoStep(0);
    if w > 0 {
      XorMasked(a / 2, b / 2, n - 1, w - 1);
      HalfMasked(a, w);
      HalfMasked(b, w);
      MaskedStep(Xor(a / 2, b / 2, n - 1), if a % 2 != b % 2 then 1 else 0, w);
      XorStep(a % Two(w), b % Two(w), w);
      XorStep(a, b, n);
    }
  }

  lemma XorNone(a: int, b: int)
    ensures Xor(a, b, 0) == 0
  {
  }

  lemma XorStep(a: int, b: int, n: nat)
    requires n > 0
    ensures Xor(a, b, n) == (if a % 2 != b % 2 then 1 else 0) + 2 * Xor(a / 2, b / 2, n - 1)
  {
  }

  lemma TwoStep(n: nat)
    ensures Two(0) == 1 && Two(n + 1) == 2 * Two(n)
  {
  }

  lemma HalfMasked(a: int, w: nat)
    requires w > 0
    ensures (a % Two(w)) / 2 == (a / 2) % Two(w - 1) && (a % Two(w)) % 2 == a % 2
  {
    hide Two;
    TwoStep(w - 1);
    MaskedStep(a / 2, a % 2, w);
  }

  lemma MaskedStep(v: int, b: int, w: nat)
    requires w > 0 && 0 <= b <= 1
    ensures (b + 2 * v) % Two(w) == b + 2 * (v % Two(w - 1))
  {
    hide Two;
    TwoStep(w - 1);
    var t := Two(w - 1);
    var q, r := v / t, v % t;
    assert v == q * t + r;
    assert b + 2 * v == q * (2 * t) + (b + 2 * r);
    DivModUnique(b + 2 * v, q, b + 2 * r, 2 * t);
  }

  lemma {:induction false} XorNarrow(a: int, b: int, n: nat, w: nat)
    requires w <= n && 0 <= a < Two(w) && 0 <= b < Two(w)
    ensures Xor(a, b, n) == Xor(a, b, w)
    decreases n
  {
    if n > 0 {
      if w == 0 {
        XorNarrow(a, b, n - 1, 0);
      } else {
        XorNarrow(a / 2, b / 2, n - 1, w - 1);
      }
    }
  }

  // Inclusive or of the low `n` bits

  function Or(a: int, b: int, n: nat): (r: int)
    ensures 0 <= r < Two(n)
    decreases n
  {
    if n == 0 then 0 else (if a % 2 == 1 || b % 2 == 1 then 1 else 0) + 2 * Or(a / 2, b / 2, n - 1)
  }

  lemma {:induction false} OrComm(a: int, b: int, n: nat)
    ensures Or(a, b, n) == Or(b, a, n)
    decreases n
  {
    if n > 0 {
      OrComm(a / 2, b / 2, n - 1);
    }
  }

  /** Without a common bit it is the sum. */
  lemma {:induction false} OrDisjoint(a: int, b: int, k: nat, n: nat)
    requires k <= n && 0 <= a < Two(n) && a % Two(k) == 0 && 0 <= b < Two(k)
    ensures Or(a, b, n) == a + b
    decreases n
  {
    hide Two;
    TwoStep(0);
    if n > 0 {
      TwoStep(n - 1);
      if k == 0 {
        DivModUnique(a / 2, a / 2, 0, 1);
        OrDisjoint(a / 2, 0, 0, n - 1);
      } else {
        HalfMasked(a, k);
        TwoStep(k - 1);
        OrDisjoint(a / 2, b / 2, k - 1, n - 1);
      }
    } else {
      assert Or(a, b, n) == 0;
    }
  }

  // Rotations of w-bit words

  function RotL(x: int, d: nat, w: nat): int
    requires d <= w
  {
    (x * Two(d)) % Two(w) + x / Two(w - d)
  }

  function RotR(x: int, d: nat, w: nat): int
    requires d <= w
  {
    x / Two(d) + (x % Two(d)) * Two(w - d)
  }

  /** A word is `q 2^d + r`; rotated right it is `r 2^(w-d) + q`. */
  lemma RotRParts(x: int, d: nat, w: nat)
    requires d <= w && 0 <= x < Two(w)
    ensures var q, r := x / Two(d), x % Two(d);
      && x == q * Two(d) + r && 0 <= r < Two(d) && 0 <= q < Two(w - d)
      && RotR(x, d, w) == r * Two(w - d) + q
  {
    hide Two;
    var a, b := Two(d), Two(w - d);
    TwoAdd(d, w - d);
    QuotientBelow(x, a, b);
  }

  lemma QuotientBelow(x: int, a: int, b: int)
    requires a > 0 && b > 0 && 0 <= x < a * b
    ensures 0 <= x / a < b && x == (x / a) * a + x % a
  {
    var q := x / a;
    if q >= b {
      MulLe(b, q, a);
    }
  }

  /** Two parts make a number below the product of their bounds. */
  lemma PartsBelow(r: int, q: int, a: int, b: int)
    requires 0 <= r < a && 0 <= q < b
    ensures 0 <= r * b + q < a * b
  {
    MulLe(r, a - 1, b);
    MulLe(0, r, b);
  }

  /** Rotated left, with the parts the other way round. */
  lemma RotLParts(q: int, r: int, d: nat, w: nat)
    requires d <= w && 0 <= r < Two(d) && 0 <= q < Two(w - d)
    ensures RotL(r * Two(w - d) + q, d, w) == q * Two(d) + r
    ensures 0 <= r * Two(w - d) + q < Two(w) && 0 <= q * Two(d) + r < Two(w)
  {
    hide Two;
    var a, b := Two(d), Two(w - d);
    TwoAdd(d, w - d);
    PartsBelow(r, q, a, b);
    PartsBelow(q, r, b, a);
    var z := r * b + q;
    DivModUnique(z, r, q, b);
    ShiftedParts(r, q, a, b);
  }

  lemma ShiftedParts(r: int, q: int, a: int, b: int)
    requires 0 <= r < a && 0 <= q < b
    ensures ((r * b + q) * a) % (a * b) == q * a
  {
    PartsBelow(q, 0, b, a);
    MulLe(0, q, a);
    Spread(r, q, a, b);
    DivModUnique((r * b + q) * a, r, q * a, a * b);
  }

  lemma Spread(r: int, q: int, a: int, b: int)
    ensures (r * b + q) * a == r * (a * b) + q * a && b * a == a * b
  {
  }

  lemma RotLOfRotR(x: int, d: nat, w: nat)
    requires d <= w && 0 <= x < Two(w)
    ensures 0 <= RotR(x, d, w) < Two(w) && RotL(RotR(x, d, w), d, w) == x
  {
    hide Two, RotL, RotR;
    RotRParts(x, d, w);
    RotLParts(x / Two(d), x % Two(d), d, w);
  }

  lemma RotROfRotL(x: int, d: nat, w: nat)
    requires d <= w && 0 <= x < Two(w)
    ensures 0 <= RotL(x, d, w) < Two(w) && RotR(RotL(x, d, w), d, w) == x
  {
    hide Two, RotL;
    var b := Two(w - d);
    RotRParts(x, w - d, w);
    var r, q := x / b, x % b;
    RotLParts(q, r, d, w);
    DivModUnique(q * Two(d) + r, q, r, Two(d));
  }

  // Rotations of a word in integers of `n` bits

  /** `(i << d) | (i >>> (w - d))`. */
  function WideRotL(i: int, d: nat, w: nat, n: nat): int
    requires d <= w <= n
  {
    Or((i * Two(d)) % Two(n), i / Two(w - d), n)
  }

  /** `(i >>> d) | (i << (w - d))`. */
  function WideRotR(i: int, d: nat, w: nat, n: nat): int
    requires d <= w <= n
  {
    Or(i / Two(d), (i * Two(w - d)) % Two(n), n)
  }

  /** For words the two parts share no bit, so that they add up. */
  lemma WideIsSum(i: int, d: nat, w: nat, n: nat)
    requires 0 < d < w <= n && 0 <= i < Two(w)
    ensures WideRotL(i, d, w, n) == (i * Two(d)) % Two(n) + i / Two(w - d)
    ensures WideRotR(i, d, w, n) == i / Two(d) + (i * Two(w - d)) % Two(n)
  {
    hide Two, Or;
    TwoAdd(d, w - d);
    QuotientBelow(i, Two(w - d), Two(d));
    QuotientBelow(i, Two(d), Two(w - d));
    ShiftedIsMultiple(i, d, n);
    ShiftedIsMultiple(i, w - d, n);
    OrDisjoint((i * Two(d)) % Two(n), i / Two(w - d), d, n);
    OrDisjoint((i * Two(w - d)) % Two(n), i / Two(d), w - d, n);
    OrComm(i / Two(d), (i * Two(w - d)) % Two(n), n);
  }

  lemma ShiftedIsMultiple(i: int, d: nat, n: nat)
    requires d <= n && i >= 0
    ensures 0 <= (i * Two(d)) % Two(n) < Two(n) && ((i * Two(d)) % Two(n)) % Two(d) == 0
  {
    hide Two;
    TwoAdd(d, n - d);
    MultipleBelow(i, Two(d), Two(n - d));
  }

  lemma MultipleBelow(i: int, a: int, m: int)
    requires a > 0 && m > 0
    ensures a * m > 0 && 0 <= (i * a) % (a * m) < a * m && ((i * a) % (a * m)) % a == 0
  {
    var q, r := i / m, i % m;
    PartsBelow(r, 0, m, a);
    MultipleSplit(i, q, r, a, m);
    DivModUnique(i * a, q, r * a, a * m);
    DivModUnique(r * a, r, 0, a);
  }

  lemma MultipleSplit(i: int, q: int, r: int, a: int, m: int)
    requires i == q * m + r
    ensures i * a == q * (a * m) + r * a && m * a == a * m
  {
  }

  lemma MaskMask(a: int, w: nat, n: nat)
    requires w <= n
    ensures Cong(a % Two(n), a, Two(w))
  {
    hide Two, Cong;
    TwoAdd(n - w, w);
    var q := a / Two(n);
    assert a == q * (Two(n - w) * Two(w)) + a % Two(n);
    assert q * (Two(n - w) * Two(w)) == (q * Two(n - w)) * Two(w);
    assert (-(q * Two(n - w))) * Two(w) == -((q * Two(n - w)) * Two(w));
    CongBy(a % Two(n), a, -(q * Two(n - w)), Two(w));
  }

  /** Masked, they are the rotations of the word. */
  lemma WideRotations(i: int, d: nat, w: nat, n: nat)
    requires 0 < d < w <= n && 0 <= i < Two(w)
    ensures Cong(WideRotL(i, d, w, n), RotL(i, d, w), Two(w))
    ensures Cong(WideRotR(i, d, w, n), RotR(i, d, w), Two(w))
  {
    hide Two, Cong, Or;
    WideIsSum(i, d, w, n);
    MaskMask(i * Two(d), w, n);
    ModCong(i * Two(d), Two(w));
    CongSym((i * Two(d)) % Two(w), i * Two(d), Two(w));
    CongTrans((i * Two(d)) % Two(n), i * Two(d), (i * Two(d)) % Two(w), Two(w));
    CongRefl(i / Two(w - d), Two(w));
    CongAdd((i * Two(d)) % Two(n), (i * Two(d)) % Two(w), i / Two(w - d), i / Two(w - d), Two(w));
    MaskMask(i * Two(w - d), w, n);
    LowPart(i, d, w);
    CongTrans((i * Two(w - d)) % Two(n), i * Two(w - d), (i % Two(d)) * Two(w - d), Two(w));
    CongRefl(i / Two(d), Two(w));
    CongAdd(i / Two(d), i / Two(d), (i * Two(w - d)) % Two(n), (i % Two(d)) * Two(w - d), Two(w));
  }

  /** Shifted out on the left, only the low part stays. */
  lemma LowPart(i: int, d: nat, w: nat)
    requires d <= w
    ensures Cong(i * Two(w - d), (i % Two(d)) * Two(w - d), Two(w))
  {
    hide Two, Cong;
    TwoAdd(d, w - d);
    var a, b := Two(d), Two(w - d);
    var q, r := i / a, i % a;
    assert i == q * a + r;
    assert (q * a + r) * b == r * b + q * (a * b);
    CongBy(i * b, r * b, q, a * b);
  }

  lemma LowPartExact(i: int, d: nat, w: nat)
    requires d <= w
    ensures (i * Two(w - d)) % Two(w) == (i % Two(d)) * Two(w - d)
  {
    hide Two, Cong;
    LowPart(i, d, w);
    TwoAdd(d, w - d);
    PartsBelow(i % Two(d), 0, Two(d), Two(w - d));
    CongMod(i * Two(w - d), (i % Two(d)) * Two(w - d), Two(w));
    DivModUnique((i % Two(d)) * Two(w - d), 0, (i % Two(d)) * Two(w - d), Two(w));
  }

  /** Rotation to the left multiplies by a power of two, modulo `2^w - 1`. */
  lemma RotationMultiplies(x: int, k: nat, w: nat)
    requires 0 <= x < Two(w) && k <= w && w > 0
    ensures Cong(RotL(x, k, w), Two(k) * x, Two(w) - 1)
  {
    hide Two, Cong, RotL, RotR;
    var a, b := Two(k), Two(w - k);
    TwoAdd(k, w - k);
    RotRParts(x, w - k, w);
    var q, r := x / b, x % b;
    RotLParts(r, q, k, w);
    MovedAround(x, q, r, a, b);
    TwoStep(w - 1);
    CongBy(r * a + q, a * x, -q, a * b - 1);
  }

  lemma MovedAround(x: int, q: int, r: int, a: int, b: int)
    requires x == q * b + r
    ensures r * a + q - a * x == -q * (a * b - 1)
  {
    assert a * x == q * (a * b) + r * a;
  }

  // The bits of a word

  predicate Bit(x: int, i: nat)
    decreases i
  {
    if i == 0 then x % 2 == 1 else Bit(x / 2, i - 1)
  }

  lemma {:induction false} BitOfXor(a: int, b: int, n: nat, i: nat)
    requires i < n
    ensures Bit(Xor(a, b, n), i) == (Bit(a, i) != Bit(b, i))
    decreases i
  {
    hide Two, Xor;
    XorStep(a, b, n);
    if i > 0 {
      BitOfXor(a / 2, b / 2, n - 1, i - 1);
    }
  }

  lemma {:induction false} BitShifted(x: int, k: nat, i: nat)
    ensures Bit(x / Two(k), i) == Bit(x, i + k)
    decreases k
  {
    if k > 0 {
      DivDiv(x, 2, Two(k - 1));
      BitShifted(x / 2, k - 1, i);
    }
  }

  /** Adding a multiple of a power of two leaves the bits below it. */
  lemma {:induction false} BitBelow(r: int, q: int, d: nat, i: nat)
    requires i < d
    ensures Bit(r * Two(d) + q, i) == Bit(q, i)
    decreases i
  {
    hide Two;
    TwoStep(d - 1);
    HalfOfSum(r, Two(d - 1), q);
    if i > 0 {
      BitBelow(r, q / 2, d - 1, i - 1);
    }
  }

  lemma HalfOfSum(r: int, t: int, q: int)
    ensures (r * (2 * t) + q) / 2 == r * t + q / 2 && (r * (2 * t) + q) % 2 == q % 2
  {
    Doubled(r, t);
    DivModUnique(r * (2 * t) + q, r * t + q / 2, q % 2, 2);
  }

  lemma Doubled(r: int, t: int)
    ensures r * (2 * t) == 2 * (r * t)
  {
  }

  /** Rotation moves every bit. */
  lemma BitRotated(x: int, d: nat, w: nat, i: nat)
    requires d <= w && 0 <= x < Two(w) && i < w
    ensures Bit(RotL(x, d, w), i) == Bit(x, if i < d then i + w - d else i - d)
  {
    hide Two, RotL, Bit;
    var a, b := Two(d), Two(w - d);
    RotRParts(x, w - d, w);
    var q, r := x / b, x % b;
    RotLParts(r, q, d, w);
    if i < d {
      BitBelow(r, q, d, i);
      BitShifted(x, w - d, i);
    } else {
      DivModUnique(r * a + q, r, q, a);
      BitShifted(r * a + q, d, i - d);
      BitBelow(q, r, w - d, i - d);
    }
  }

  lemma {:induction false} SameBits(x: int, y: int, n: nat)
    requires 0 <= x < Two(n) && 0 <= y < Two(n)
    requires forall i :: 0 <= i < n ==> Bit(x, i) == Bit(y, i)
    ensures x == y
    decreases n
  {
    if n > 0 {
      assert Bit(x, 0) == Bit(y, 0);
      forall i | 0 <= i < n - 1 ensures Bit(x / 2, i) == Bit(y / 2, i) {
        assert Bit(x, i + 1) == Bit(y, i + 1);
      }
      SameBits(x / 2, y / 2, n - 1);
    }
  }

  // Exclusive or, computed

  lemma {:induction false} XorZero(x: int, n: nat)
    requires 0 <= x < Two(n)
    ensures Xor(x, 0, n) == x
    decreases n
  {
    if n > 0 {
      XorZero(x / 2, n - 1);
    }
  }

  // On bytes it is the bit-vector operation

  function Number(a: bv8): int {
    a as int
  }

  function Upper(a: bv8): bv8 {
    a >> 1
  }

  function BvXor(a: bv8, b: bv8): bv8 {
    a ^ b
  }

  lemma UpperIsHalf(a: bv8)
    ensures Number(Upper(a)) == Number(a) / 2 && (a & 1) as int == Number(a) % 2
  {
  }

  lemma UpperOfXor(a: bv8, b: bv8)
    ensures Upper(BvXor(a, b)) == BvXor(Upper(a), Upper(b))
    ensures (BvXor(a, b) & 1) as int == if (a & 1) as int != (b & 1) as int then 1 else 0
  {
  }

  lemma XorOfNone(a: bv8, b: bv8)
    ensures Number(a) < 1 && Number(b) < 1 ==> Number(BvXor(a, b)) == 0
  {
  }

  lemma {:induction false} XorOfBv(a: bv8, b: bv8, n: nat)
    requires Number(a) < Two(n) && Number(b) < Two(n)
    ensures Xor(Number(a), Number(b), n) == Number(BvXor(a, b))
    decreases n
  {
    hide Xor, Two, Number, Upper, BvXor;
    TwoStep(0);
    if n == 0 {
      XorNone(Number(a), Number(b));
      XorOfNone(a, b);
    } else {
      TwoStep(n - 1);
      XorStep(Number(a), Number(b), n);
      UpperIsHalf(a);
      UpperIsHalf(b);
      UpperIsHalf(BvXor(a, b));
      UpperOfXor(a, b);
      XorOfBv(Upper(a), Upper(b), n - 1);
    }
  }

  lemma XorOfByte(a: bv8, b: bv8)
    ensures Xor(a as int, b as int, 8) == (a ^ b) as int
  {
    TwoEight(0);
    XorOfBv(a, b, 8);
  }

  /** One more byte behind the number `a`. */
  function Appended(a: int, a0: bv8): int {
    0x100 * a + a0 as int
  }

  function FromTwo(b1: bv8, b0: bv8): int {
    Appended(b1 as int, b0)
  }

  function FromBytes(b3: bv8, b2: bv8, b1: bv8, b0: bv8): int {
    Appended(Appended(Appended(b3 as int, b2), b1), b0)
  }

  lemma XorAppended(a: int, b: int, a0: bv8, b0: bv8, n: nat)
    requires n >= 8
    ensures Xor(Appended(a, a0), Appended(b, b0), n) == Appended(Xor(a, b, n - 8), BvXor(a0, b0))
  {
    hide Xor;
    XorLastByte(a, b, a0, b0, n);
  }

  lemma XorLastByte(a: int, b: int, a0: bv8, b0: bv8, n: nat)
    requires n >= 8
    ensures Xor(0x100 * a + a0 as int, 0x100 * b + b0 as int, n) == 0x100 * Xor(a, b, n - 8) + (a0 ^ b0) as int
  {
    hide Xor, Two;
    TwoEight(0);
    var x, y := 0x100 * a + a0 as int, 0x100 * b + b0 as int;
    XorWhole(x, y, 8, n);
    XorMasked(x, y, 8, 8);
    ByteOf(x, a, a0);
    ByteOf(y, b, b0);
    XorOfByte(a0, b0);
  }

  lemma XorOfTwo(a1: bv8, a0: bv8, b1: bv8, b0: bv8)
    ensures Xor(FromTwo(a1, a0), FromTwo(b1, b0), 16) == FromTwo(BvXor(a1, b1), BvXor(a0, b0))
  {
    hide Xor, Appended;
    XorOfByte(a1, b1);
    XorAppended(a1 as int, b1 as int, a0, b0, 16);
  }

  /** On words it goes byte by byte. */
  lemma XorOfBytes(a3: bv8, a2: bv8, a1: bv8, a0: bv8, b3: bv8, b2: bv8, b1: bv8, b0: bv8)
    ensures Xor(FromBytes(a3, a2, a1, a0), FromBytes(b3, b2, b1, b0), 32)
         == FromBytes(BvXor(a3, b3), BvXor(a2, b2), BvXor(a1, b1), BvXor(a0, b0))
  {
    hide Xor, Appended, BvXor;
    XorOfTwo(a3, a2, b3, b2);
    XorAppended(FromTwo(a3, a2), FromTwo(b3, b2), a1, b1, 24);
    XorAppended(Appended(FromTwo(a3, a2), a1), Appended(FromTwo(b3, b2), b1), a0, b0, 32);
  }

  lemma ByteOf(x: int, a: int, a0: bv8)
    requires x == 0x100 * a + a0 as int
    ensures x / 0x100 == a && x % 0x100 == a0 as int
  {
    DivModUnique(x, a, a0 as int, 0x100);
  }

  lemma {:induction false} XorWhole(a: int, b: int, k: nat, n: nat)
    requires k <= n
    ensures Xor(a, b, n) == Xor(a, b, k) + Two(k) * Xor(a / Two(k), b / Two(k), n - k)
    ensures Xor(a, b, k) % Two(k) == Xor(a, b, k)
    decreases k
  {
    hide Two, Xor;
    TwoStep(0);
    XorNone(a, b);
    if k > 0 {
      XorStep(a, b, n);
      XorStep(a, b, k);
      TwoStep(k - 1);
      XorWhole(a / 2, b / 2, k - 1, n - 1);
      DivDiv(a, 2, Two(k - 1));
      DivDiv(b, 2, Two(k - 1));
      Doubling(Two(k - 1), Xor(a / Two(k), b / Two(k), n - k));
    }
    DivModUnique(Xor(a, b, k), 0, Xor(a, b, k), Two(k));
  }

  lemma Doubling(t: int, v: int)
    ensures 2 * (t * v) == (2 * t) * v
  {
  }
}
