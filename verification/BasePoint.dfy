/** The tables of P-384 against the published curve, section D.1.2.4 of FIPS 186-4. */
module BasePoint {
  import opened Words
  import opened ModArith
  import opened P384Field
  import opened Curves
  import opened Provider

  const B := 0xb3312fa7e23ee7e4988e056be3f82d19181d9c6efe8141120314088f5013875ac656398d8a2ed19d2a85c8edd3ec2aef
  const X := 0xaa87ca22be8b05378eb1c71ef320ad746e1d3b628ba79b9859f741e082542a385502f25dbf55296c3a545e3872760ab7
  const Y := 0x3617de4a96262c6f5d9e98bf9292dc29f8f41dbd289a147ce9da3113b5f0b8c00a60b1ce1d7e819d7a431d7c90ea0e5f

  /** The prime is `2^384 - 2^128 - 2^96 + 2^32 - 1`, and the order as near to it as Hasse's bound asks. */
  lemma PrimeAndOrder()
    ensures Prime() == Pow(12) - Pow(4) - Pow(3) + Pow(1) - 1
    ensures var t := Prime() + 1 - Order(); t * t <= 4 * Prime()
  {
    PrimeIs();
    OrderIs();
    PowLow();
    PowHigh();
    HasseBound();
  }

  lemma HasseBound()
    ensures var t := FieldPrime() + 1 - GroupOrder(); t * t <= 4 * FieldPrime()
  {
  }

  lemma Coordinates()
    ensures Val(BaseXLimbs()) == X && Val(BaseYLimbs()) == Y
  {
    hide Val;
    ValTwelve(BaseXLimbs());
    ValTwelve(BaseYLimbs());
  }

  /** The base point of the tables lies on `y^2 = x^3 - 3x + b` with the standard's `b`. */
  lemma BaseIsOnCurve()
    ensures OnCurve(CurveParameters(Prime(), B), Affine(Val(BaseXLimbs()), Val(BaseYLimbs())))
  {
    hide Cong, Val, Prime;
    PrimeIs();
    Coordinates();
    Equation();
  }

  lemma Equation()
    ensures 0 <= X < FieldPrime() && 0 <= Y < FieldPrime() && Cong(Y * Y, X * X * X - 3 * X + B, FieldPrime())
  {
    hide Cong;
    CongBy(Y * Y, X * X * X - 3 * X + B, -Multiple(), FieldPrime());
  }

  /** How many times the prime goes into the difference of the sides. */
  function Multiple(): int {
    0x4bab9bc17641ab3bca6dd8cf8cc8319b9532b7b1e5dc1af1f571cb67e0305b620dc799a2e4b3e3e5532ca58aee3fa564
      * 0x1000000000000000000000000000000000000000000000000000000000000000000000000000000000000000000000000
    + 0xbe6daeab22cdca1972745cf7ee2df3cd043ff67b5bd3ac3b14b1f42b0583b0e79f2fcbd9383ec074bbf09e4ea8c87b10
  }
}
