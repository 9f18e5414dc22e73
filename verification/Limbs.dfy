/** The width-generic big-number routines of `NIST64` and `ECCProvider` that work limb by limb on
    Java arrays in place, each proved against the integers its arrays stand for.
 */
module Limbs {
  import opened Words

  // Comparisons and copies

  method IsZero(x: array<Limb>) returns (r: bool)
    ensures r <==> V(x) == 0
  {
    var i := 0;
    while i != x.Length
      invariant 0 <= i <= x.Length
      invariant forall k :: 0 <= k < i ==> x[k] == 0
    {
      if x[i] != 0 {
        ValNonzero(x[..], i);
        return false;
      }
      i := i + 1;
    }
    ValZero(x[..]);
    r := true;
  }

  lemma {:induction false} ValNonzero(s: seq<Limb>, i: nat)
    requires i < |s| && s[i] != 0
    ensures Val(s) > 0
  {
    var n := |s| - 1;
    ValBound(s[..n]);
    MulLe(0, s[n], Pow(n));
    if i < n {
      ValNonzero(s[..n], i);
    } else {
      MulLe(1, s[n], Pow(n));
    }
  }

  method IsEqual(x: array<Limb>, y: array<Limb>) returns (r: bool)
    requires x.Length == y.Length
    ensures r <==> V(x) == V(y)
    ensures r <==> x[..] == y[..]
  {
    var i := 0;
    while i != x.Length
      invariant 0 <= i <= x.Length
      invariant forall k :: 0 <= k < i ==> x[k] == y[k]
    {
      if x[i] != y[i] {
        CompareUnequal(x[..], y[..], i);
        return false;
      }
      i := i + 1;
    }
    assert x[..] == y[..];
    r := true;
  }

  lemma CompareUnequal(s: seq<Limb>, t: seq<Limb>, i: nat)
    requires i < |s| == |t| && s[i] != t[i]
    ensures Val(s) != Val(t)
  {
    if Val(s) == Val(t) {
      ValInjective(s, t);
    }
  }

  method Assign(x: array<Limb>, y: array<Limb>)
    requires x.Length == y.Length
    modifies x
    ensures x[..] == old(y[..])
  {
    var i := 0;
    while i != x.Length
      invariant 0 <= i <= x.Length
      invariant forall k :: 0 <= k < i ==> x[k] == old(y[k])
      invariant forall k :: i <= k < x.Length ==> y[k] == old(y[k])
    {
      x[i] := y[i];
      i := i + 1;
    }
  }

  method ZeroSlice(x: array<Limb>, lo: nat, hi: nat)
    requires lo <= hi <= x.Length
    modifies x
    ensures x[..lo] == old(x[..lo]) && x[hi..] == old(x[hi..])
    ensures forall k :: lo <= k < hi ==> x[k] == 0
  {
    var i := lo;
    while i != hi
      invariant lo <= i <= hi
      invariant forall k :: 0 <= k < lo || hi <= k < x.Length ==> x[k] == old(x[k])
      invariant forall k :: lo <= k < i ==> x[k] == 0
    {
      x[i] := 0;
      i := i + 1;
    }
  }

  method SetZero(x: array<Limb>)
    modifies x
    ensures V(x) == 0
  {
    var i := 0;
    while i != x.Length
      invariant 0 <= i <= x.Length
      invariant forall k :: 0 <= k < i ==> x[k] == 0
    {
      x[i] := 0;
      i := i + 1;
    }
    ValZero(x[..]);
  }

  method SetUnit(x: array<Limb>)
    requires x.Length > 0
    modifies x
    ensures V(x) == 1
  {
    x[0] := 1;
    var i := 1;
    while i != x.Length
      invariant 1 <= i <= x.Length
      invariant x[0] == 1
      invariant forall k :: 1 <= k < i ==> x[k] == 0
    {
      x[i] := 0;
      i := i + 1;
    }
    assert x[..] == [1] + x[1..];
    ValAppend([1], x[1..]);
    ValZero(x[1..]);
    assert Val([1]) == 1;
  }

  lemma ValSplitFirst(s: seq<Limb>)
    requires s != []
    ensures Val(s) == s[0] + 0x1_0000_0000 * Val(s[1..])
  {
    hide Val;
    assert s == [s[0]] + s[1..];
    ValAppend([s[0]], s[1..]);
    SingleLimb(s[0]);
    assert Pow(1) == 0x1_0000_0000;
  }

  /** Unsigned comparison out of signed limb comparisons, from the top limb down. */
  method Leq(x: array<Limb>, y: array<Limb>) returns (r: bool)
    requires x.Length == y.Length > 0
    ensures r <==> V(x) <= V(y)
  {
    var i := x.Length;
    var n := x.Length;
    while true
      invariant 0 < i <= n
      invariant x[i..] == y[i..]
      decreases i
    {
      i := i - 1;
      if x[i] != y[i] {
        CompareAt(x[..], y[..], i);
        var xPos := 0 <= Signed(x[i]);
        var yPos := 0 <= Signed(y[i]);
        if !yPos && xPos { return true; }
        if !xPos && yPos { return false; }
        return Signed(x[i]) < Signed(y[i]);
      }
      assert x[i..] == y[i..];
      if i == 0 { break; }
    }
    assert x[..] == y[..];
    r := true;
  }

  lemma CompareAt(s: seq<Limb>, t: seq<Limb>, i: nat)
    requires i < |s| == |t| && s[i] != t[i] && s[i + 1..] == t[i + 1..]
    ensures Val(s) < Val(t) <==> s[i] < t[i]
    ensures Val(s) != Val(t)
  {
    assert s == s[..i + 1] + s[i + 1..] && t == t[..i + 1] + t[i + 1..];
    ValAppend(s[..i + 1], s[i + 1..]);
    ValAppend(t[..i + 1], t[i + 1..]);
    ValSnoc(s, i);
    ValSnoc(t, i);
    ValBound(s[..i]);
    ValBound(t[..i]);
    CompareTop(Val(s[..i]), s[i], Val(t[..i]), t[i], Pow(i));
  }

  lemma CompareTop(a: int, x: int, b: int, y: int, p: int)
    requires 0 <= a < p && 0 <= b < p && 0 <= x && 0 <= y && x != y
    ensures a + x * p < b + y * p <==> x < y
    ensures a + x * p != b + y * p
  {
    if x < y {
      MulLe(x + 1, y, p);
    } else {
      MulLe(y + 1, x, p);
    }
  }

  /** Halving from the top: `top` holds the limbs already shifted, `c` the bit shifted out of them,
      and `rest` is what is left to shift. */
  ghost predicate IsHalving(top: seq<Limb>, c: int, rest: seq<Limb>, total: int) {
    2 * Pow(|rest|) * Val(top) + c * Pow(|rest|) + Val(rest) == total
  }

  lemma HalvingStep(top: seq<Limb>, c: int, rest: seq<Limb>, x: Limb, z: Limb, c': int, total: int)
    requires IsHalving(top, c, rest + [x], total)
    requires 2 * z + c' == 0x1_0000_0000 * c + x
    ensures IsHalving([z] + top, c', rest, total)
  {
    var p, t := Pow(|rest|), Val(top);
    assert (rest + [x])[..|rest|] == rest;
    ValAppend([z], top);
    SingleLimb(z);
    assert Pow(1) == 0x1_0000_0000;
    HalvingArith(p, t, c, x, z, c');
  }

  lemma HalvingArith(p: int, t: int, c: int, x: int, z: int, c': int)
    requires 2 * z + c' == 0x1_0000_0000 * c + x
    ensures 2 * p * (z + 0x1_0000_0000 * t) + c' * p
         == 2 * (0x1_0000_0000 * p) * t + c * (0x1_0000_0000 * p) + x * p
  {
    calc {
      2 * p * (z + 0x1_0000_0000 * t) + c' * p;
      (2 * z + c') * p + 2 * (0x1_0000_0000 * p) * t;
      (0x1_0000_0000 * c + x) * p + 2 * (0x1_0000_0000 * p) * t;
    }
  }

  lemma HalvingStart(c: int, x: seq<Limb>)
    requires 0 <= c <= 1
    ensures IsHalving([], c, x, (if c == 0 then 0 else Pow(|x|)) + Val(x))
  {
    hide Pow;
    if c != 0 {
      assert c * Pow(|x|) == 1 * Pow(|x|);
    }
  }

  lemma HalvingDone(z: seq<Limb>, c: int, total: int)
    requires IsHalving(z, c, [], total)
    ensures 2 * Val(z) + c == total
  {
  }

  /** `(c << 31) | (x >>> 1)`. */
  function ShiftIn(c: int, x: Limb): Limb
    requires 0 <= c <= 1
  {
    c * 0x8000_0000 + x / 2
  }

  lemma ShiftInSplits(c: int, x: Limb)
    requires 0 <= c <= 1
    ensures 2 * ShiftIn(c, x) + x % 2 == 0x1_0000_0000 * c + x
  {
  }

  /** `z = c * 2^(bits - 1) + (x >> 1)`, from the top limb down; `z` may be `x`. */
  method Shr(z: array<Limb>, c0: int, x: array<Limb>)
    requires z.Length == x.Length > 0
    requires 0 <= c0 <= 1
    modifies z
    ensures 2 * V(z) + old(x[0]) % 2 == (if c0 == 0 then 0 else Pow(z.Length)) + old(V(x))
  {
    hide IsHalving, Val, Pow, ShiftIn;
    var c := c0;
    var n := z.Length;
    ghost var xs := x[..];
    ghost var total := (if c0 == 0 then 0 else Pow(n)) + Val(xs);
    HalvingStart(c0, xs);
    assert xs[..n] == xs && z[n..] == [];
    var i := n - 1;
    while i != -1
      invariant -1 <= i < n
      invariant 0 <= c <= 1
      invariant forall k :: 0 <= k <= i ==> x[k] == xs[k]
      invariant IsHalving(z[i + 1..], c, xs[..i + 1], total)
      invariant i < n - 1 ==> c == xs[i + 1] % 2
    {
      var xi := x[i];
      ghost var top, c1 := z[i + 1..], c;
      ShiftInSplits(c, xi);
      z[i] := ShiftIn(c, xi);
      c := xi % 2;
      assert xs[..i + 1] == xs[..i] + [xi];
      HalvingStep(top, c1, xs[..i], xi, z[i], c, total);
      assert z[i..] == [z[i]] + top;
      i := i - 1;
    }
    assert z[0..] == z[..] && xs[..0] == [];
    HalvingDone(z[..], c, total);
  }

  // Sums and differences

  /** `zs` with carry `c` is the sum of `xs` and `ys`. */
  ghost predicate IsSum(zs: seq<Limb>, c: int, xs: seq<Limb>, ys: seq<Limb>) {
    && |zs| == |xs| == |ys|
    && Val(zs) + c * Pow(|zs|) == Val(xs) + Val(ys)
  }

  ghost predicate IsDifference(zs: seq<Limb>, b: int, xs: seq<Limb>, ys: seq<Limb>) {
    IsSum(xs, -b, zs, ys)
  }

  lemma SumNone()
    ensures IsSum([], 0, [], [])
  {
  }

  lemma SumStep(zs: seq<Limb>, c: int, xs: seq<Limb>, ys: seq<Limb>, z: Limb, c': int, x: Limb, y: Limb)
    requires IsSum(zs, c, xs, ys)
    requires z + 0x1_0000_0000 * c' == c + x + y
    ensures IsSum(zs + [z], c', xs + [x], ys + [y])
  {
    var n, w: int := |zs|, x as int + y;
    assert (zs + [z])[..n] == zs && (xs + [x])[..n] == xs && (ys + [y])[..n] == ys;
    CarryStep(Val(zs), c, Pow(n), Val(xs) + Val(ys), z, c', w);
    assert w * Pow(n) == x * Pow(n) + y * Pow(n);
  }

  lemma SumResult(zs: seq<Limb>, c: int, xs: seq<Limb>, ys: seq<Limb>)
    requires IsSum(zs, c, xs, ys) && 0 <= c <= 1
    ensures Val(zs) + (if c == 0 then 0 else Pow(|zs|)) == Val(xs) + Val(ys)
  {
    hide Val, Pow;
    if c != 0 {
      assert c * Pow(|zs|) == 1 * Pow(|zs|);
    }
  }

  /** Returns the carry, 0 or 1; `z` may be `x` or `y`. */
  method Add(z: array<Limb>, x: array<Limb>, y: array<Limb>) returns (r: int)
    requires z.Length == x.Length == y.Length
    modifies z
    ensures 0 <= r <= 1
    ensures V(z) + (if r == 0 then 0 else Pow(z.Length)) == old(V(x) + V(y))
  {
    hide IsSum, Pow, Val;
    ghost var xs, ys := x[..], y[..];
    var c := 0;
    var i := 0;
    SumNone();
    while i != z.Length
      invariant 0 <= i <= z.Length
      invariant 0 <= c <= 1
      invariant forall k :: i <= k < z.Length ==> x[k] == xs[k] && y[k] == ys[k]
      invariant IsSum(z[..i], c, xs[..i], ys[..i])
    {
      ghost var done, c0 := z[..i], c;
      c := ToLong(c + x[i] + y[i]);
      z[i] := Low(c);
      c := Asr32(c);
      SumStep(done, c0, xs[..i], ys[..i], z[i], c, xs[i], ys[i]);
      assert z[..i + 1] == done + [z[i]] && xs[..i + 1] == xs[..i] + [xs[i]] && ys[..i + 1] == ys[..i] + [ys[i]];
      i := i + 1;
    }
    assert z[..i] == z[..] && xs[..i] == xs && ys[..i] == ys;
    SumResult(z[..], c, xs, ys);
    r := c;
  }

  method Dbl(z: array<Limb>, x: array<Limb>) returns (r: int)
    requires z.Length == x.Length
    modifies z
    ensures 0 <= r <= 1
    ensures V(z) + (if r == 0 then 0 else Pow(z.Length)) == 2 * old(V(x))
  {
    hide IsSum, Pow, Val;
    ghost var xs := x[..];
    var c := 0;
    var i := 0;
    SumNone();
    while i != z.Length
      invariant 0 <= i <= z.Length
      invariant 0 <= c <= 1
      invariant forall k :: i <= k < z.Length ==> x[k] == xs[k]
      invariant IsSum(z[..i], c, xs[..i], xs[..i])
    {
      ghost var done, c0 := z[..i], c;
      c := ToLong(c + 2 * (x[i] as int));
      z[i] := Low(c);
      c := Asr32(c);
      SumStep(done, c0, xs[..i], xs[..i], z[i], c, xs[i], xs[i]);
      assert z[..i + 1] == done + [z[i]] && xs[..i + 1] == xs[..i] + [xs[i]];
      i := i + 1;
    }
    assert z[..i] == z[..] && xs[..i] == xs;
    SumResult(z[..], c, xs, xs);
    r := c;
  }

  /** Returns the borrow, -1 or 0; `z` may be `x` or `y`. */
  method Sub(z: array<Limb>, x: array<Limb>, y: array<Limb>) returns (r: int)
    requires z.Length == x.Length == y.Length
    modifies z
    ensures -1 <= r <= 0
    ensures r == 0 <==> old(V(y) <= V(x))
    ensures V(z) == old(V(x) - V(y)) + (if r == 0 then 0 else Pow(z.Length))
  {
    hide IsSum, Pow, Val;
    ghost var xs, ys := x[..], y[..];
    var b := 0;
    var i := 0;
    SumNone();
    while i < z.Length
      invariant 0 <= i <= z.Length
      invariant -1 <= b <= 0
      invariant forall k :: i <= k < z.Length ==> x[k] == xs[k] && y[k] == ys[k]
      invariant IsDifference(z[..i], b, xs[..i], ys[..i])
    {
      ghost var done, b0 := z[..i], b;
      b := ToLong(b + x[i] - y[i]);
      z[i] := Low(b);
      b := Asr32(b);
      SumStep(xs[..i], -b0, done, ys[..i], xs[i], -b, z[i], ys[i]);
      assert z[..i + 1] == done + [z[i]] && xs[..i + 1] == xs[..i] + [xs[i]] && ys[..i + 1] == ys[..i] + [ys[i]];
      i := i + 1;
    }
    assert z[..i] == z[..] && xs[..i] == xs && ys[..i] == ys;
    SumResult(xs, -b, z[..], ys);
    ValBound(z[..]);
    ValBound(xs);
    ValBound(ys);
    r := b;
  }

  // Products

  /** One inner step of a product row: `a[ij] + 2^32 * r = d + xi * yj + a[ij]`, or without the old
      `a[ij]` when `azero`.  The sum never exceeds an unsigned 64-bit `long`. */
  method MulInner(azero: bool, a: array<Limb>, ij: nat, xi: Limb, yj: Limb, d: Limb) returns (r: Limb)
    requires ij < a.Length
    modifies a
    ensures a[..] == old(a[..])[ij := a[ij]]
    ensures a[ij] + 0x1_0000_0000 * r == d + xi * yj + (if azero then 0 else old(a[ij]))
  {
    Product32(xi, yj);
    var m := ToLong(xi as int * yj);
    var aij := if azero then 0 else a[ij];
    var d' := ToLong(ToLong(d + m) + aij);
    InnerSum(d, xi as int * yj, aij);
    a[ij] := Low(d');
    r := Lsr32(d');
  }

  lemma InnerSum(d: Limb, m: int, aij: Limb)
    requires 0 <= m <= 0xFFFF_FFFF * 0xFFFF_FFFF
    ensures var s := ToLong(ToLong(d + ToLong(m)) + aij);
      Low(s) + 0x1_0000_0000 * Lsr32(s) == d + m + aij
  {
    assert ToLong(ToLong(d + ToLong(m)) + aij) == ToLong(d + m + aij);
    UnsignedSplit(d + m + aij);
  }

  /** `zs` with carry `d` is the row `x * ys` added to the number `v`. */
  ghost predicate IsRow(zs: seq<Limb>, d: int, v: int, x: int, ys: seq<Limb>) {
    && |zs| == |ys|
    && Val(zs) + d * Pow(|zs|) == v + x * Val(ys)
  }

  lemma RowNone(x: int)
    ensures IsRow([], 0, 0, x, [])
  {
  }

  lemma RowStep(zs: seq<Limb>, d: int, v: int, x: int, ys: seq<Limb>, z: Limb, d': int, r: Limb, y: Limb)
    requires IsRow(zs, d, v, x, ys)
    requires z + 0x1_0000_0000 * d' == d + x * y + r
    ensures IsRow(zs + [z], d', v + r * Pow(|zs|), x, ys + [y])
  {
    var n, p, w: int := |zs|, Pow(|zs|), x * y + r;
    assert (zs + [z])[..n] == zs && (ys + [y])[..n] == ys;
    CarryStep(Val(zs), d, p, v + x * Val(ys), z, d', w);
    RowFactor(v, x, Val(ys), r, y, p);
  }

  lemma RowFactor(v: int, x: int, vy: int, r: int, y: int, p: int)
    ensures v + x * vy + (x * y + r) * p == (v + r * p) + x * (vy + y * p)
  {
    calc {
      v + x * vy + (x * y + r) * p;
      v + x * vy + (x * y) * p + r * p;
      (v + r * p) + x * vy + x * (y * p);
    }
  }

  /** The row's final carry is its top limb. */
  lemma RowResult(zs: seq<Limb>, d: Limb, v: int, x: int, ys: seq<Limb>)
    requires IsRow(zs, d, v, x, ys)
    ensures Val(zs + [d]) == v + x * Val(ys)
  {
    assert (zs + [d])[..|zs|] == zs;
  }

  /** One row of a product: `a[ai .. ai+l] = [a[ai .. ai+l-1] +] xi * y[yi .. yi+l)`, the inner loops of
      `mul`, `sq` and `sq_loop`. */
  method MulRow(azero: bool, a: array<Limb>, ai: nat, xi: Limb, y: array<Limb>, yi: nat)
    requires yi <= y.Length && ai + (y.Length - yi) < a.Length
    requires a != y
    modifies a
    ensures a[..ai] == old(a[..ai])
    ensures a[ai + (y.Length - yi) + 1..] == old(a[ai + (y.Length - yi) + 1..])
    ensures Val(a[ai..ai + (y.Length - yi) + 1])
         == (if azero then 0 else old(Val(a[ai..ai + (y.Length - yi)]))) + xi * Val(y[yi..])
  {
    hide IsRow, Pow, Val;
    ghost var ys := y[yi..];
    ghost var l := |ys|;
    ghost var row := if azero then seq(l, _ => 0) else a[ai..ai + l];
    ghost var low, high := a[..ai], a[ai + l + 1..];
    var d := 0;
    var ij := ai;
    var j := yi;
    RowNone(xi);
    ValNone();
    assert row[..0] == [] && ys[..0] == [] && a[ai..ai] == [];
    while j != y.Length
      invariant yi <= j <= y.Length && ij == ai + (j - yi)
      invariant 0 <= d < 0x1_0000_0000
      invariant a[..ai] == low && a[ai + l + 1..] == high
      invariant !azero ==> forall k :: j - yi <= k < l ==> a[ai + k] == row[k]
      invariant IsRow(a[ai..ij], d, Val(row[..j - yi]), xi, ys[..j - yi])
    {
      ghost var k, done, d0 := j - yi, a[ai..ij], d;
      d := MulInner(azero, a, ij, xi, y[j], d);
      assert a[ai..ij] == done && a[..ai] == low && a[ai + l + 1..] == high;
      RowStep(done, d0, Val(row[..k]), xi, ys[..k], a[ij], d, row[k], ys[k]);
      ValSnoc(row, k);
      assert a[ai..ij + 1] == done + [a[ij]] && ys[..k + 1] == ys[..k] + [ys[k]];
      j := j + 1;
      ij := ij + 1;
    }
    a[ij] := d;
    assert row[..l] == row && ys[..l] == ys;
    RowResult(a[ai..ij], d, Val(row), xi, ys);
    assert a[ai..ij + 1] == a[ai..ij] + [d];
    if azero { ValZero(row); }
  }

  lemma ValNone()
    ensures Val([]) == 0
  {
  }

  /** `zs` is the product of `xs` and the number `y`. */
  ghost predicate IsProduct(zs: seq<Limb>, xs: seq<Limb>, y: int) {
    Val(zs) == Val(xs) * y
  }

  /** `a[0 .. 2l) = x * y` by schoolbook multiplication. */
  method Mul(a: array<Limb>, x: array<Limb>, y: array<Limb>)
    requires x.Length == y.Length > 0 && a.Length >= 2 * x.Length
    requires a != x && a != y
    modifies a
    ensures Val(a[..2 * x.Length]) == V(x) * V(y)
    ensures a[2 * x.Length..] == old(a[2 * x.Length..])
  {
    hide Val, Pow, IsProduct;
    var l := x.Length;
    ghost var rest, yv := a[2 * l..], V(y);
    MulRow(true, a, 0, x[0], y, 0);
    assert a[0..l + 1] == a[..l + 1] && y[0..] == y[..];
    assert x[..1] == [x[0]];
    ProductOne(a[..l + 1], x[0], yv);
    var i := 1;
    while i != l
      invariant 1 <= i <= l
      invariant a[2 * l..] == rest
      invariant IsProduct(a[..i + l], x[..i], yv)
    {
      ghost var low, row := a[..i], a[i..i + l];
      assert a[..i + l] == low + row;
      MulRow(false, a, i, x[i], y, 0);
      assert y[0..] == y[..];
      ghost var mid := a[i..i + l + 1];
      assert a[..i + l + 1] == low + mid;
      RowAdded(low, row, mid, x[..], i, yv);
      i := i + 1;
    }
    assert x[..l] == x[..] && a[..l + l] == a[..2 * l];
    ProductResult(a[..2 * l], x[..], yv);
  }

  lemma SingleLimb(x: Limb)
    ensures Val([x]) == x
  {
    assert [x][..0] == [];
  }

  lemma ProductOne(zs: seq<Limb>, x: Limb, y: int)
    requires Val(zs) == x * y
    ensures IsProduct(zs, [x], y)
  {
    SingleLimb(x);
  }

  lemma ProductResult(zs: seq<Limb>, xs: seq<Limb>, y: int)
    requires IsProduct(zs, xs, y)
    ensures Val(zs) == Val(xs) * y
  {
  }

  /** Adding the row `x[i] * y` at limb `i` extends the product by one limb of `x`. */
  lemma RowAdded(low: seq<Limb>, row: seq<Limb>, mid: seq<Limb>, x: seq<Limb>, i: nat, y: int)
    requires |low| == i < |x|
    requires IsProduct(low + row, x[..i], y)
    requires Val(mid) == Val(row) + x[i] * y
    ensures IsProduct(low + mid, x[..i + 1], y)
  {
    hide Val, Pow;
    ValAppend(low, row);
    ValAppend(low, mid);
    ValSnoc(x, i);
    RowSum(Val(low), Pow(i), Val(row), Val(x[..i]), x[i], y, Val(mid), Val(low + row), Val(low + mid), Val(x[..i + 1]));
  }

  lemma RowSum(low: int, p: int, row: int, vx: int, xi: int, y: int, mid: int, before: int, after: int, vx': int)
    requires before == low + p * row && before == vx * y
    requires mid == row + xi * y && after == low + p * mid
    requires vx' == vx + xi * p
    ensures after == vx' * y
  {
    calc {
      after;
      low + p * (row + xi * y);
      low + p * row + p * (xi * y);
      vx * y + (xi * p) * y;
      (vx + xi * p) * y;
    }
  }
}
