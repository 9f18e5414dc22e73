/** P-384: the field prime and its Solinas reduction (`P384ECC64`). */
module P384Field {
  import opened Words
  import opened Limbs
  import opened ModArith

  /** 2^384 - 2^128 - 2^96 + 2^32 - 1, the limbs of `field_prime`. */
  function FieldPrime(): int {
    0xfffffffffffffffffffffffffffffffffffffffffffffffffffffffffffffffeffffffff0000000000000000ffffffff
  }

  /** The limbs of `group_order`. */
  function GroupOrder(): int {
    0xffffffffffffffffffffffffffffffffffffffffffffffffc7634d81f4372ddf581a0db248b0a77aecec196accc52973
  }

  function TwoTo384(): int {
    0x1000000000000000000000000000000000000000000000000000000000000000000000000000000000000000000000000
  }

  lemma PowLow()
    ensures Pow(0) == 1 && Pow(1) == 0x100000000 && Pow(2) == 0x10000000000000000 &&
      Pow(3) == 0x1000000000000000000000000
    ensures Pow(4) == 0x100000000000000000000000000000000 && Pow(5) == 0x10000000000000000000000000000000000000000 &&
      Pow(6) == 0x1000000000000000000000000000000000000000000000000
  {
    assert Pow(3) == 0x1000000000000000000000000;
    assert Pow(5) == 0x10000000000000000000000000000000000000000;
  }

  lemma PowHigh()
    ensures Pow(7) == 0x100000000000000000000000000000000000000000000000000000000 &&
      Pow(8) == 0x10000000000000000000000000000000000000000000000000000000000000000 &&
      Pow(9) == 0x1000000000000000000000000000000000000000000000000000000000000000000000000
    ensures Pow(10) == 0x100000000000000000000000000000000000000000000000000000000000000000000000000000000 &&
      Pow(11) == 0x10000000000000000000000000000000000000000000000000000000000000000000000000000000000000000 &&
      Pow(12) == TwoTo384()
  {
    PowLow();
    assert Pow(7) == 0x100000000000000000000000000000000000000000000000000000000;
    assert Pow(9) == 0x1000000000000000000000000000000000000000000000000000000000000000000000000;
    assert Pow(11) == 0x10000000000000000000000000000000000000000000000000000000000000000000000000000000000000000;
  }

  /** What a column of digits, of any sign and size, stands for. */
  function Total(es: seq<int>): int {
    if es == [] then 0 else Total(es[..|es| - 1]) + es[|es| - 1] * Pow(|es| - 1)
  }

  lemma TotalSnoc(es: seq<int>, i: nat)
    requires i < |es|
    ensures Total(es[..i + 1]) == Total(es[..i]) + es[i] * Pow(i)
  {
    assert es[..i + 1][..i] == es[..i];
  }

  lemma {:induction false} TotalOfLimbs(s: seq<Limb>)
    ensures Total(s) == Val(s)
  {
    if s != [] {
      TotalOfLimbs(s[..|s| - 1]);
    }
  }

  lemma TotalLast(es: seq<int>)
    requires es != []
    ensures Total(es) == Total(es[..|es| - 1]) + es[|es| - 1] * Pow(|es| - 1)
  {
  }

  lemma {:induction false} TotalAdd(xs: seq<int>, ds: seq<int>)
    requires |xs| == |ds|
    ensures Total(seq(|xs|, i requires 0 <= i < |xs| => xs[i] + ds[i])) == Total(xs) + Total(ds)
  {
    hide Total, Pow;
    var s := seq(|xs|, i requires 0 <= i < |xs| => xs[i] + ds[i]);
    if xs == [] {
      assert s == [] && ds == [];
      TotalNone();
    } else {
      var n := |xs| - 1;
      TotalAdd(xs[..n], ds[..n]);
      assert s[..n] == seq(n, i requires 0 <= i < n => xs[..n][i] + ds[..n][i]);
      TotalLast(s);
      TotalLast(xs);
      TotalLast(ds);
      SumDistributes(xs[n], ds[n], Pow(n));
    }
  }

  /** The number with the given 32-bit words, least significant first. */
  function Words12(
    w0: int, w1: int, w2: int, w3: int, w4: int, w5: int, w6: int, w7: int, w8: int, w9: int, w10: int, w11: int): int
  {
    w0 +
    0x100000000 * w1 +
    0x10000000000000000 * w2 +
    0x1000000000000000000000000 * w3 +
    0x100000000000000000000000000000000 * w4 +
    0x10000000000000000000000000000000000000000 * w5 +
    0x1000000000000000000000000000000000000000000000000 * w6 +
    0x100000000000000000000000000000000000000000000000000000000 * w7 +
    0x10000000000000000000000000000000000000000000000000000000000000000 * w8 +
    0x1000000000000000000000000000000000000000000000000000000000000000000000000 * w9 +
    0x100000000000000000000000000000000000000000000000000000000000000000000000000000000 * w10 +
    0x10000000000000000000000000000000000000000000000000000000000000000000000000000000000000000 * w11
  }

  /** Twelve columns, written out. */
  lemma TotalTwelve(s: seq<int>)
    requires |s| == 12
    ensures Total(s) == Words12(s[0], s[1], s[2], s[3], s[4], s[5], s[6], s[7], s[8], s[9], s[10], s[11])
  {
    hide Total, Pow;
    PowLow();
    PowHigh();
    TotalNone();
    assert s[..0] == [];
    TotalSnoc(s, 0);
    TotalSnoc(s, 1);
    TotalSnoc(s, 2);
    TotalSnoc(s, 3);
    TotalSnoc(s, 4);
    TotalSnoc(s, 5);
    TotalSnoc(s, 6);
    TotalSnoc(s, 7);
    TotalSnoc(s, 8);
    TotalSnoc(s, 9);
    TotalSnoc(s, 10);
    TotalSnoc(s, 11);
    assert s[..12] == s;
  }

  lemma TotalNone()
    ensures Total([]) == 0
  {
  }

  /** The limbs `zs` and the pending `d` together are the columns `es`. */
  ghost predicate Emitted(zs: seq<Limb>, d: int, es: seq<int>) {
    |zs| == |es| && Val(zs) + d * Pow(|zs|) == Total(es)
  }

  lemma EmitStep(zs: seq<Limb>, d: int, es: seq<int>, z: Limb, d': int, e: int)
    requires Emitted(zs, d, es)
    requires z + 0x1_0000_0000 * d' == d + e
    ensures Emitted(zs + [z], d', es + [e])
  {
    var n := |zs|;
    assert (zs + [z])[..n] == zs && (es + [e])[..n] == es;
    CarryStep(Val(zs), d, Pow(n), Total(es), z, d', e);
  }

  /** `d = d + e; z[k] = (int) d; d >>= 32`. */
  method EmitColumn(z: array<Limb>, k: nat, d: int, e: int, ghost es: seq<int>) returns (d': int)
    requires k < z.Length && k < |es| && e == es[k]
    requires -16 <= d <= 16 && -0x4_0000_0000 <= e <= 0xC_0000_0000
    requires Emitted(z[..k], d, es[..k])
    modifies z
    ensures Emitted(z[..k + 1], d', es[..k + 1])
    ensures forall i :: k < i < z.Length ==> z[i] == old(z[i])
    ensures -5 <= d' <= 12
  {
    hide Val, Pow, Total, Emitted;
    ghost var zs := z[..k];
    var l := ToLong(d + e);
    z[k] := Low(l);
    d' := Asr32(l);
    EmitStep(zs, d, es[..k], z[k], d', e);
    assert z[..k + 1] == zs + [z[k]] && es[..k + 1] == es[..k] + [es[k]];
  }

  lemma EmittedAll(z: seq<Limb>, d: int, es: seq<int>)
    requires |z| == |es| == 12 && Emitted(z[..12], d, es[..12])
    ensures Val(z) + TwoTo384() * d == Total(es)
  {
    hide Val, Total;
    assert z[..12] == z && es[..12] == es;
    PowHigh();
  }

  lemma EmittedNone(z: seq<Limb>, es: seq<int>)
    ensures Emitted(z[..0], 0, es[..0])
  {
  }

  // Adding and subtracting the prime

  /** The prime less `2^384`, limb by limb, as `incFieldPrime` adds it. */
  function IncDigits(): seq<int> {
    [-1, -0xFFFF_FFFF, -0xFFFF_FFFF, 0, -1, 0, 0, 0, 0, 0, 0, 0]
  }

  function DecDigits(): seq<int> {
    [1, 0xFFFF_FFFF, 0xFFFF_FFFF, 0, 1, 0, 0, 0, 0, 0, 0, 0]
  }

  lemma DigitTotals()
    ensures Total(IncDigits()) == FieldPrime() - TwoTo384()
    ensures Total(DecDigits()) == TwoTo384() - FieldPrime()
  {
    TotalTwelve(IncDigits());
    TotalTwelve(DecDigits());
  }

  /** The twelve unrolled steps shared by `incFieldPrime` and `decFieldPrime`. */
  method AddDigits(x: array<Limb>, ds: seq<int>) returns (c: int)
    requires x.Length == |ds| == 12
    requires forall i :: 0 <= i < 12 ==> -0xFFFF_FFFF <= ds[i] <= 0xFFFF_FFFF
    modifies x
    ensures -5 <= c <= 12
    ensures V(x) + TwoTo384() * c == old(V(x)) + Total(ds)
  {
    hide Val, Pow, Total, Emitted, TwoTo384;
    ghost var xs := x[..];
    ghost var es := seq(12, i requires 0 <= i < 12 => xs[i] + ds[i]);
    c := 0;
    EmittedNone(x[..], es);
    assert x[..0] == x[..][..0];
    c := EmitColumn(x, 0, c, x[0] + ds[0], es);
    c := EmitColumn(x, 1, c, x[1] + ds[1], es);
    c := EmitColumn(x, 2, c, x[2] + ds[2], es);
    c := EmitColumn(x, 3, c, x[3] + ds[3], es);
    c := EmitColumn(x, 4, c, x[4] + ds[4], es);
    c := EmitColumn(x, 5, c, x[5] + ds[5], es);
    c := EmitColumn(x, 6, c, x[6] + ds[6], es);
    c := EmitColumn(x, 7, c, x[7] + ds[7], es);
    c := EmitColumn(x, 8, c, x[8] + ds[8], es);
    c := EmitColumn(x, 9, c, x[9] + ds[9], es);
    c := EmitColumn(x, 10, c, x[10] + ds[10], es);
    c := EmitColumn(x, 11, c, x[11] + ds[11], es);
    assert x[..12] == x[..][..12];
    EmittedAll(x[..], c, es);
    TotalAdd(xs, ds);
    TotalOfLimbs(xs);
  }

  /** Adds the field prime; returns the carry. */
  method IncFieldPrime(x: array<Limb>) returns (c: int)
    requires x.Length == 12
    modifies x
    ensures 0 <= c <= 1
    ensures V(x) + TwoTo384() * c == old(V(x)) + FieldPrime()
  {
    hide Val, Pow, Total;
    ghost var xs := x[..];
    var b := AddDigits(x, IncDigits());
    DigitTotals();
    ValBound(xs);
    ValBound(x[..]);
    PowHigh();
    c := 1 + b;
  }

  /** Subtracts the field prime; returns 0, or -1 for a borrow. */
  method DecFieldPrime(x: array<Limb>) returns (c: int)
    requires x.Length == 12
    modifies x
    ensures -1 <= c <= 0
    ensures V(x) + TwoTo384() * c == old(V(x)) - FieldPrime()
  {
    hide Val, Pow, Total;
    ghost var xs := x[..];
    var b := AddDigits(x, DecDigits());
    DigitTotals();
    ValBound(xs);
    ValBound(x[..]);
    PowHigh();
    c := -1 + b;
  }

  // Reduction of a double-width product

  /** The twelve column sums of `field_red`. */
  function Columns(a: seq<Limb>): (es: seq<int>)
    requires |a| == 24
    ensures |es| == 12
  {
    var a: seq<int> := a;
    [ a[0] + a[12] + a[21] + a[20] - a[23],
      a[1] + a[13] + a[22] + a[23] - a[12] - a[20],
      a[2] + a[14] + a[23] - a[13] - a[21],
      a[3] + a[15] + a[12] + a[20] + a[21] - a[14] - a[22] - a[23],
      a[4] + 2 * a[21] + a[16] + a[13] + a[12] + a[20] + a[22] - a[15] - 2 * a[23],
      a[5] + 2 * a[22] + a[17] + a[14] + a[13] + a[21] + a[23] - a[16],
      a[6] + 2 * a[23] + a[18] + a[15] + a[14] + a[22] - a[17],
      a[7] + a[19] + a[16] + a[15] + a[23] - a[18],
      a[8] + a[20] + a[17] + a[16] - a[19],
      a[9] + a[21] + a[18] + a[17] - a[20],
      a[10] + a[22] + a[19] + a[18] - a[21],
      a[11] + a[23] + a[20] + a[19] - a[22] ]
  }

  /** The same sum by section D.2.4 of FIPS 186-4: T + 2 S1 + S2 + .. + S6 - D1 - D2 - D3 over the
      words of the product. */
  function FipsSum(a: seq<Limb>): int
    requires |a| == 24
  {
    var t := Words12(a[0], a[1], a[2], a[3], a[4], a[5], a[6], a[7], a[8], a[9], a[10], a[11]);
    var s1 := Words12(0, 0, 0, 0, a[21], a[22], a[23], 0, 0, 0, 0, 0);
    var s2 := Words12(a[12], a[13], a[14], a[15], a[16], a[17], a[18], a[19], a[20], a[21], a[22], a[23]);
    var s3 := Words12(a[21], a[22], a[23], a[12], a[13], a[14], a[15], a[16], a[17], a[18], a[19], a[20]);
    var s4 := Words12(0, a[23], 0, a[20], a[12], a[13], a[14], a[15], a[16], a[17], a[18], a[19]);
    var s5 := Words12(0, 0, 0, 0, a[20], a[21], a[22], a[23], 0, 0, 0, 0);
    var s6 := Words12(a[20], 0, 0, a[21], a[22], a[23], 0, 0, 0, 0, 0, 0);
    var d1 := Words12(a[23], a[12], a[13], a[14], a[15], a[16], a[17], a[18], a[19], a[20], a[21], a[22]);
    var d2 := Words12(0, a[20], a[21], a[22], a[23], 0, 0, 0, 0, 0, 0, 0);
    var d3 := Words12(0, 0, 0, a[23], a[23], 0, 0, 0, 0, 0, 0, 0);
    t + 2 * s1 + s2 + s3 + s4 + s5 + s6 - d1 - d2 - d3
  }

  lemma ValTwelve(s: seq<Limb>)
    requires |s| == 12
    ensures Val(s) == Words12(s[0], s[1], s[2], s[3], s[4], s[5], s[6], s[7], s[8], s[9], s[10], s[11])
  {
    hide Val, Total;
    TotalOfLimbs(s);
    TotalTwelve(s);
  }

  /** The folded columns are the standard's sum. */
  lemma ColumnsAreFips(a: seq<Limb>)
    requires |a| == 24
    ensures Total(Columns(a)) == FipsSum(a)
  {
    hide Val, Total;
    TotalTwelve(Columns(a));
  }

  /** What the folding takes away, in multiples of the prime. */
  function FoldQuotient(a: seq<Limb>): int
    requires |a| == 24
  {
    var a: seq<int> := a;
    0x1 * a[12] +
    0x100000000 * a[13] +
    0x10000000000000000 * a[14] +
    0x1000000000000000000000000 * a[15] +
    0x100000000000000000000000000000000 * a[16] +
    0x10000000000000000000000000000000000000000 * a[17] +
    0x1000000000000000000000000000000000000000000000000 * a[18] +
    0x100000000000000000000000000000000000000000000000000000000 * a[19] +
    0x10000000000000000000000000000000000000000000000000000000000000001 * a[20] +
    0x1000000000000000000000000000000000000000000000000000000000000000100000001 * a[21] +
    0x100000000000000000000000000000000000000000000000000000000000000010000000100000000 * a[22] +
    0x1000000000000000000000000000000000000000000000000000000000000000100000000ffffffffffffffff * a[23]
  }

  /** The folded sum is congruent to the whole number, above `-p` and below `4 * 2^384`. */
  lemma ColumnsCongruent(a: seq<Limb>)
    requires |a| == 24
    ensures Val(a) == Total(Columns(a)) + FoldQuotient(a) * FieldPrime()
    ensures -FieldPrime() < Total(Columns(a)) < 4 * TwoTo384()
  {
    hide *;
    SplitDouble(a);
    FoldIdentity(a);
    FoldRange(a);
    PrimeTimes(FoldQuotient(a));
  }

  lemma PrimeTimes(q: int)
    ensures q * FieldPrime()
      == 0xfffffffffffffffffffffffffffffffffffffffffffffffffffffffffffffffeffffffff0000000000000000ffffffff * q
  {
  }

  lemma FoldIdentity(a: seq<Limb>)
    requires |a| == 24
    ensures Words12(a[0], a[1], a[2], a[3], a[4], a[5], a[6], a[7], a[8], a[9], a[10], a[11])
      + TwoTo384() * Words12(a[12], a[13], a[14], a[15], a[16], a[17], a[18], a[19], a[20], a[21], a[22], a[23])
      == Total(Columns(a))
        + 0xfffffffffffffffffffffffffffffffffffffffffffffffffffffffffffffffeffffffff0000000000000000ffffffff
          * FoldQuotient(a)
  {
    hide Val, Total;
    TotalTwelve(Columns(a));
  }

  lemma FoldRange(a: seq<Limb>)
    requires |a| == 24
    ensures -FieldPrime() < Total(Columns(a)) < 4 * TwoTo384()
  {
    hide *;
    FoldAbove(a);
    FoldBelow(a);
  }

  lemma FoldAbove(a: seq<Limb>)
    requires |a| == 24
    ensures -FieldPrime() < Total(Columns(a))
  {
    hide Val, Total;
    TotalTwelve(Columns(a));
  }

  lemma FoldBelow(a: seq<Limb>)
    requires |a| == 24
    ensures Total(Columns(a)) < 4 * TwoTo384()
  {
    hide Val, Total;
    TotalTwelve(Columns(a));
  }

  lemma SplitDouble(a: seq<Limb>)
    requires |a| == 24
    ensures Val(a) == Words12(a[0], a[1], a[2], a[3], a[4], a[5], a[6], a[7], a[8], a[9], a[10], a[11])
      + TwoTo384() * Words12(a[12], a[13], a[14], a[15], a[16], a[17], a[18], a[19], a[20], a[21], a[22], a[23])
  {
    hide Val, Total, Words12;
    var low, high := a[..12], a[12..];
    assert a == low + high;
    ValAppend(low, high);
    ValTwelve(low);
    ValTwelve(high);
    PowHigh();
  }

  /** First pass of `field_red`: the column sums of `a`, carried into `z`. */
  method FoldColumns(z: array<Limb>, a: array<Limb>) returns (d: int)
    requires z.Length == 12 && a.Length == 24 && z != a
    modifies z
    ensures -5 <= d <= 12
    ensures V(z) + TwoTo384() * d == Total(Columns(a[..]))
  {
    hide Val, Pow, Total, Emitted, TwoTo384;
    var es := ColumnSums(a);
    d := 0;
    EmittedNone(z[..], es);
    assert z[..0] == z[..][..0];
    d := EmitColumn(z, 0, d, es[0], es);
    d := EmitColumn(z, 1, d, es[1], es);
    d := EmitColumn(z, 2, d, es[2], es);
    d := EmitColumn(z, 3, d, es[3], es);
    d := EmitColumn(z, 4, d, es[4], es);
    d := EmitColumn(z, 5, d, es[5], es);
    d := EmitColumn(z, 6, d, es[6], es);
    d := EmitColumn(z, 7, d, es[7], es);
    d := EmitColumn(z, 8, d, es[8], es);
    d := EmitColumn(z, 9, d, es[9], es);
    d := EmitColumn(z, 10, d, es[10], es);
    d := EmitColumn(z, 11, d, es[11], es);
    assert z[..12] == z[..][..12];
    EmittedAll(z[..], d, es);
  }

  /** The column sums, each from the limbs read as unsigned `long`s. */
  method ColumnSums(a: array<Limb>) returns (es: seq<int>)
    requires a.Length == 24
    ensures es == Columns(a[..])
    ensures |es| == 12 && forall k :: 0 <= k < 12 ==> -0x4_0000_0000 <= es[k] <= 0xC_0000_0000
  {
    es := Columns(a[..]);
  }

  /** The prime's defect `2^384 - p` times `of`, limb by limb. */
  function FoldDigits(of: int): seq<int> {
    [of, -of, 0, of, of, 0, 0, 0, 0, 0, 0, 0]
  }

  lemma FoldDigitsTotal(of: int)
    ensures Total(FoldDigits(of)) == of * (TwoTo384() - FieldPrime())
  {
    hide Total;
    TotalTwelve(FoldDigits(of));
  }

  /** `z = a (mod p)` for every double-width `a`, fully reduced; `prime` is the provider's `field_prime`. */
  method FieldRed(z: array<Limb>, a: array<Limb>, prime: array<Limb>)
    requires z.Length == prime.Length == 12 && a.Length == 24 && z != a && z != prime
    requires V(prime) == FieldPrime()
    modifies z
    ensures V(z) == V(a) % FieldPrime()
  {
    hide Val, Pow, Total, Columns, FoldQuotient, Words12, FieldPrime, TwoTo384;
    ghost var va, t, q := V(a), Total(Columns(a[..])), FoldQuotient(a[..]);
    var d := FoldColumns(z, a);
    ColumnsCongruent(a[..]);
    Below(z[..]);
    FirstFold(V(z), d, t);
    d := Signed(Low(d));
    if d < 0 {
      var c := IncFieldPrime(z);
      Below(z[..]);
      OneAddition(V(z), c, t);
      FoldReduced(V(z), va, t, q, -1);
      return;
    }
    ghost var of := d;
    d := FoldOverflow(z, d, t);
    FieldRedTail(z, d, prime, t - of * FieldPrime());
    FoldReduced(V(z), va, t, q, if t - of * FieldPrime() < FieldPrime() then of else of + 1);
  }

  lemma Below(z: seq<Limb>)
    requires |z| == 12
    ensures 0 <= Val(z) < TwoTo384()
  {
    hide Val;
    ValBound(z);
    PowHigh();
  }

  lemma FirstFold(v: int, d: int, t: int)
    requires v + TwoTo384() * d == t && 0 <= v < TwoTo384() && -FieldPrime() < t < 4 * TwoTo384()
    ensures -1 <= d <= 3 && Signed(Low(d)) == d
    ensures d == -1 ==> t == v - TwoTo384() && t < 0
    ensures d == 0 ==> 0 <= t - d * FieldPrime() < 2 * FieldPrime() && v + TwoTo384() * d == t - d * FieldPrime()
  {
  }

  /** A negative sum needs the prime exactly once. */
  lemma OneAddition(z: int, c: int, t: int)
    requires z + TwoTo384() * c == t + TwoTo384() + FieldPrime() && 0 <= c <= 1
    requires 0 <= z < TwoTo384() && -FieldPrime() < t < 0
    ensures z == t + FieldPrime()
  {
  }

  /** Folding an overflow of at most three leaves less than twice the prime. */
  lemma SecondFold(z: int, d: int, t: int, of: int)
    requires 1 <= of <= 3 && of * TwoTo384() <= t < (of + 1) * TwoTo384()
    requires z + TwoTo384() * d == t - of * TwoTo384() + of * (TwoTo384() - FieldPrime()) && 0 <= z < TwoTo384()
    ensures z + TwoTo384() * d == t - of * FieldPrime() && 0 <= d <= 1
    ensures 0 <= t - of * FieldPrime() < 2 * FieldPrime()
  {
  }

  /** The second fold of `field_red`, made only when the first one overflows. */
  method FoldOverflow(z: array<Limb>, of: int, ghost t: int) returns (d: int)
    requires z.Length == 12 && 0 <= of <= 3 && V(z) + TwoTo384() * of == t
    requires of == 0 ==> 0 <= t < 2 * FieldPrime()
    modifies z
    ensures V(z) + TwoTo384() * d == t - of * FieldPrime() && 0 <= t - of * FieldPrime() < 2 * FieldPrime()
  {
    hide Val, Pow, Total, FieldPrime, TwoTo384;
    d := of;
    if d > 0 {
      Below(z[..]);
      Overflows(V(z), of, t);
      d := AddDigits(z, FoldDigits(of));
      FoldDigitsTotal(of);
      Below(z[..]);
      SecondFold(V(z), d, t, of);
    }
  }

  lemma Overflows(v: int, of: int, t: int)
    requires 0 <= v < TwoTo384() && v + TwoTo384() * of == t && 1 <= of <= 3
    ensures of * TwoTo384() <= t < (of + 1) * TwoTo384()
  {
  }

  /** The last conditional subtraction of `field_red`. */
  method FieldRedTail(z: array<Limb>, d: int, prime: array<Limb>, ghost s: int)
    requires z.Length == prime.Length == 12 && z != prime && V(prime) == FieldPrime()
    requires V(z) + TwoTo384() * d == s && 0 <= s < 2 * FieldPrime()
    modifies z
    ensures V(z) == if s < FieldPrime() then s else s - FieldPrime()
  {
    hide Val, Pow, Total;
    Below(z[..]);
    var above := Leq(prime, z);
    if d > 0 || above {
      var c := DecFieldPrime(z);
      Below(z[..]);
    }
  }

  lemma FoldReduced(z: int, a: int, t: int, q: int, k: int)
    requires a == t + q * FieldPrime() && z == t - k * FieldPrime() && 0 <= z < FieldPrime()
    ensures z == a % FieldPrime()
  {
    SumDistributes(q, k, FieldPrime());
    DivModUnique(a, q + k, z, FieldPrime());
  }
}
