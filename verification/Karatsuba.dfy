/** `NIST32`: multiplication on 16-bit halves, and one in-place Karatsuba round above it. */
module Karatsuba {
  import opened Words
  import opened Limbs

  function Lo16(x: int): int { x % 0x1_0000 }

  function Hi16(x: Limb): int { x / 0x1_0000 }

  /** `c & INT_MASK | v << 16`, the shift dropping what leaves the word. */
  function Join16(c: int, v: int): Limb { c % 0x1_0000 + 0x1_0000 * (v % 0x1_0000) }

  /** The unsigned reading of an `int` result that may have wrapped. */
  function U32(v: int): Limb { v % 0x1_0000_0000 }

  // Sums over slices

  /** `z[zi .. zi+w) = x[xi .. xi+w) + y[yi .. yi+w)`. */
  method IAdd(z: array<Limb>, zi: nat, x: array<Limb>, xi: nat, y: array<Limb>, yi: nat, w: nat) returns (r: int)
    requires zi + w <= z.Length && xi + w <= x.Length && yi + w <= y.Length
    requires z != x && z != y
    modifies z
    ensures z[..zi] == old(z[..zi]) && z[zi + w..] == old(z[zi + w..])
    ensures 0 <= r <= 1
    ensures Val(z[zi..zi + w]) + (if r == 0 then 0 else Pow(w)) == Val(x[xi..xi + w]) + Val(y[yi..yi + w])
  {
    hide IsSum, Pow, Val;
    ghost var low, high := z[..zi], z[zi + w..];
    ghost var xs, ys := x[xi..xi + w], y[yi..yi + w];
    var c := 0;
    var i := 0;
    SumNone();
    assert z[zi..zi] == [] && xs[..0] == [] && ys[..0] == [];
    while i != w
      invariant 0 <= i <= w
      invariant 0 <= c <= 1
      invariant z[..zi] == low && z[zi + w..] == high
      invariant IsSum(z[zi..zi + i], c, xs[..i], ys[..i])
    {
      ghost var done, c0 := z[zi..zi + i], c;
      c := c + Lo16(x[xi + i]) + Lo16(y[yi + i]);
      var v := c / 0x1_0000 + Hi16(x[xi + i]) + Hi16(y[yi + i]);
      z[zi + i] := Join16(c, v);
      c := v / 0x1_0000;
      SumStep(done, c0, xs[..i], ys[..i], z[zi + i], c, xs[i], ys[i]);
      assert z[zi..zi + i + 1] == done + [z[zi + i]];
      assert xs[..i + 1] == xs[..i] + [xs[i]] && ys[..i + 1] == ys[..i] + [ys[i]];
      assert z[..zi] == low && z[zi + w..] == high;
      i := i + 1;
    }
    assert xs[..w] == xs && ys[..w] == ys;
    SumResult(z[zi..zi + w], c, xs, ys);
    r := c;
  }

  /** `z[zi .. zi+w) += x[xi .. xi+w)`. */
  method IInc(z: array<Limb>, zi: nat, x: array<Limb>, xi: nat, w: nat) returns (r: int)
    requires zi + w <= z.Length && xi + w <= x.Length && z != x
    modifies z
    ensures z[..zi] == old(z[..zi]) && z[zi + w..] == old(z[zi + w..])
    ensures 0 <= r <= 1
    ensures Val(z[zi..zi + w]) + (if r == 0 then 0 else Pow(w)) == old(Val(z[zi..zi + w])) + Val(x[xi..xi + w])
  {
    hide IsSum, Pow, Val;
    ghost var low, high := z[..zi], z[zi + w..];
    ghost var zs, xs := z[zi..zi + w], x[xi..xi + w];
    var c := 0;
    var i := 0;
    SumNone();
    assert z[zi..zi] == [] && xs[..0] == [] && zs[..0] == [];
    while i != w
      invariant 0 <= i <= w
      invariant 0 <= c <= 1
      invariant z[..zi] == low && z[zi + w..] == high
      invariant forall k :: i <= k < w ==> z[zi + k] == zs[k]
      invariant IsSum(z[zi..zi + i], c, zs[..i], xs[..i])
    {
      ghost var done, c0 := z[zi..zi + i], c;
      c := c + Lo16(z[zi + i]) + Lo16(x[xi + i]);
      var v := c / 0x1_0000 + Hi16(z[zi + i]) + Hi16(x[xi + i]);
      z[zi + i] := Join16(c, v);
      c := v / 0x1_0000;
      SumStep(done, c0, zs[..i], xs[..i], z[zi + i], c, zs[i], xs[i]);
      assert z[zi..zi + i + 1] == done + [z[zi + i]];
      assert xs[..i + 1] == xs[..i] + [xs[i]] && zs[..i + 1] == zs[..i] + [zs[i]];
      assert z[..zi] == low && z[zi + w..] == high;
      i := i + 1;
    }
    assert xs[..w] == xs && zs[..w] == zs;
    SumResult(z[zi..zi + w], c, zs, xs);
    r := c;
  }

  /** `z[zi .. zi+w) -= x[xi .. xi+w)`; the borrow is returned as -1. */
  method IDec(z: array<Limb>, zi: nat, x: array<Limb>, xi: nat, w: nat) returns (r: int)
    requires zi + w <= z.Length && xi + w <= x.Length && z != x
    modifies z
    ensures z[..zi] == old(z[..zi]) && z[zi + w..] == old(z[zi + w..])
    ensures -1 <= r <= 0
    ensures Val(z[zi..zi + w]) - (if r == 0 then 0 else Pow(w)) == old(Val(z[zi..zi + w])) - Val(x[xi..xi + w])
  {
    hide IsSum, Pow, Val;
    ghost var low, high := z[..zi], z[zi + w..];
    ghost var zs, xs := z[zi..zi + w], x[xi..xi + w];
    var c := 0;
    var i := 0;
    SumNone();
    assert z[zi..zi] == [] && xs[..0] == [] && zs[..0] == [];
    while i != w
      invariant 0 <= i <= w
      invariant -1 <= c <= 0
      invariant z[..zi] == low && z[zi + w..] == high
      invariant forall k :: i <= k < w ==> z[zi + k] == zs[k]
      invariant IsSum(zs[..i], -c, z[zi..zi + i], xs[..i])
    {
      ghost var done, c0 := z[zi..zi + i], c;
      c := c + Lo16(z[zi + i]) - Lo16(x[xi + i]);
      var v := c / 0x1_0000 + Hi16(z[zi + i]) - Hi16(x[xi + i]);
      z[zi + i] := Join16(c, v);
      c := v / 0x1_0000;
      SumStep(zs[..i], -c0, done, xs[..i], zs[i], -c, z[zi + i], xs[i]);
      assert z[zi..zi + i + 1] == done + [z[zi + i]];
      assert xs[..i + 1] == xs[..i] + [xs[i]] && zs[..i + 1] == zs[..i] + [zs[i]];
      assert z[..zi] == low && z[zi + w..] == high;
      i := i + 1;
    }
    assert xs[..w] == xs && zs[..w] == zs;
    SumResult(zs, -c, z[zi..zi + w], xs);
    r := c;
  }

  /** A sum as a signed 32-bit number. */
  function S32(v: int): int { (v + 0x8000_0000) % 0x1_0000_0000 - 0x8000_0000 }

  /** What `iincc` adds: its carry, less 2^32 where the sum with the lowest half limb overflows an `int`. */
  function Entering(c: int, zs: seq<Limb>): int {
    if zs != [] && c + Lo16(zs[0]) >= 0x8000_0000 then c - 0x1_0000_0000 else c
  }

  /** `z[zi .. zi+w) += c` for every `int` carry of either sign, stopping once it is gone. */
  method IIncC(z: array<Limb>, zi: nat, w: nat, c0: int) returns (r: int)
    requires zi + w <= z.Length && -0x8000_0000 <= c0 < 0x8000_0000
    modifies z
    ensures z[..zi] == old(z[..zi]) && z[zi + w..] == old(z[zi + w..])
    ensures w > 0 ==> -1 <= r <= 1
    ensures 0 <= c0 <= 1 ==> 0 <= r <= 1
    ensures Val(z[zi..zi + w]) + r * Pow(w) == old(Val(z[zi..zi + w]) + Entering(c0, z[zi..zi + w]))
  {
    hide IsRow, Pow, Val, S32, Lo16, Entering, IsCarried;
    ghost var low, high, zs := z[..zi], z[zi + w..], z[zi..zi + w];
    ghost var e := Entering(c0, zs);
    EnteringIs(c0, zs);
    var c := c0;
    var i := 0;
    CarryStart(e);
    assert z[zi..zi] == [] && zs[..0] == [];
    while i != w && c != 0
      invariant 0 <= i <= w
      invariant i == 0 ==> c == c0
      invariant i > 0 ==> -1 <= c <= 1
      invariant 0 <= c0 <= 1 ==> 0 <= c <= 1
      invariant z[..zi] == low && z[zi + w..] == high
      invariant forall k :: i <= k < w ==> z[zi + k] == zs[k]
      invariant IsCarried(z[zi..zi + i], if i == 0 then e else c, zs[..i], e)
    {
      ghost var done, c1 := z[zi..zi + i], if i == 0 then e else c;
      z[zi + i], c := CarryLimb(c, z[zi + i], c1);
      CarriedStep(done, c1, zs[..i], e, z[zi + i], c, zs[i]);
      assert z[zi..zi + i + 1] == done + [z[zi + i]];
      assert zs[..i + 1] == zs[..i] + [zs[i]];
      assert z[..zi] == low && z[zi + w..] == high;
      i := i + 1;
    }
    r := c;
    CarriedDone(z[zi..zi + i], c, zs[..i], e, zs[i..]);
    assert z[zi..zi + w] == z[zi..zi + i] + zs[i..];
    assert zs == zs[..i] + zs[i..];
  }

  lemma EnteringIs(c: int, zs: seq<Limb>)
    requires -0x8000_0000 <= c < 0x8000_0000
    ensures zs == [] || c <= 0x7FFF_0000 ==> Entering(c, zs) == c
    ensures zs != [] ==> S32(c + Lo16(zs[0])) == Entering(c, zs) + Lo16(zs[0])
  {
  }

  /** One limb: the sum that may have wrapped, and what is written and carried on. */
  method CarryLimb(c0: int, z: Limb, ghost c1: int) returns (n: Limb, c: int)
    requires -0x8000_0000 <= c0 < 0x8000_0000
    requires S32(c0 + Lo16(z)) == c1 + Lo16(z) || (c0 == c1 && -1 <= c0 <= 1)
    ensures n + 0x1_0000_0000 * c == c1 + z
    ensures -1 <= c <= 1 && (0 <= c0 <= 1 ==> 0 <= c)
  {
    c := S32(c0 + Lo16(z));
    var v := c / 0x1_0000 + Hi16(z);
    n := Join16(c, v);
    c := v / 0x1_0000;
  }

  ghost predicate IsCarried(ns: seq<Limb>, c: int, zs: seq<Limb>, c0: int) {
    |ns| == |zs| && Val(ns) + c * Pow(|ns|) == Val(zs) + c0
  }

  lemma CarryStart(c0: int)
    ensures IsCarried([], c0, [], c0)
  {
  }

  lemma CarriedStep(ns: seq<Limb>, c: int, zs: seq<Limb>, c0: int, n: Limb, c': int, z: Limb)
    requires IsCarried(ns, c, zs, c0)
    requires n + 0x1_0000_0000 * c' == c + z
    ensures IsCarried(ns + [n], c', zs + [z], c0)
  {
    assert (ns + [n])[..|ns|] == ns && (zs + [z])[..|ns|] == zs;
    CarryStep(Val(ns), c, Pow(|ns|), Val(zs) + c0, n, c', z);
  }

  lemma CarriedDone(ns: seq<Limb>, c: int, zs: seq<Limb>, c0: int, rest: seq<Limb>)
    requires IsCarried(ns, c, zs, c0)
    requires c == 0 || rest == []
    ensures Val(ns + rest) + c * Pow(|ns + rest|) == Val(zs + rest) + c0
  {
    hide Pow, Val;
    ValAppend(ns, rest);
    ValAppend(zs, rest);
    if c != 0 {
      assert ns + rest == ns && zs + rest == zs;
    } else {
      assert c * Pow(|ns|) == 0;
    }
  }

  // Schoolbook product over slices

  /** One inner step of `imul`: `a + 2^32 * r = aij + c + x * y`, all on 16-bit halves. */
  method Mul16(aij: Limb, c: Limb, x: Limb, y: Limb) returns (a: Limb, r: Limb)
    ensures a + 0x1_0000_0000 * r == aij + c + x * y
  {
    hide Lo16, Hi16, Join16, U32;
    var xl, xh, yl, yh := Lo16(x), Hi16(x), Lo16(y), Hi16(y);
    var mll, mlh, mhl, mhh := U32(xl * yl), U32(xl * yh), U32(xh * yl), U32(xh * yh);
    var vl := U32(Lo16(aij) + Lo16(c) + mll);
    var vh := U32(Hi16(aij) + Hi16(vl) + Hi16(c) + Lo16(mlh) + Lo16(mhl));
    a := Join16(vl, vh);
    var t: int := Hi16(vh) + Hi16(mlh) + Hi16(mhl) + mhh;
    r := U32(t);
    Product16(x, y);
    Mul16Sum(aij, c, mll, mlh, mhl, mhh);
    CarryFits(a, t, aij, c, x, y);
    Unwrapped(t);
  }

  /** The middle of `imul` without its products: nothing wraps and nothing is lost. */
  lemma Mul16Sum(aij: Limb, c: Limb, mll: int, mlh: int, mhl: int, mhh: int)
    requires 0 <= mll <= 0xFFFF * 0xFFFF && 0 <= mlh <= 0xFFFF * 0xFFFF
    requires 0 <= mhl <= 0xFFFF * 0xFFFF && 0 <= mhh <= 0xFFFF * 0xFFFF
    ensures var vl := U32(Lo16(aij) + Lo16(c) + mll);
      var vh := U32(Hi16(aij) + Hi16(vl) + Hi16(c) + Lo16(mlh) + Lo16(mhl));
      Join16(vl, vh) + 0x1_0000_0000 * (Hi16(vh) + Hi16(mlh) + Hi16(mhl) + mhh)
        == aij + c + mll + 0x1_0000 * mlh + 0x1_0000 * mhl + 0x1_0000_0000 * mhh
  {
    var vl := Lo16(aij) + Lo16(c) + mll;
    var vh := Hi16(aij) + Hi16(vl) + Hi16(c) + Lo16(mlh) + Lo16(mhl);
    Unwrapped(vl);
    Unwrapped(vh);
    assert Join16(vl, vh) + 0x1_0000_0000 * Hi16(vh) == Lo16(vl) + 0x1_0000 * vh;
    Halves(aij);
    Halves(c);
    Halves(vl);
    Halves(mlh);
    Halves(mhl);
  }

  lemma Product16(x: Limb, y: Limb)
    ensures U32(Lo16(x) * Lo16(y)) + 0x1_0000 * U32(Lo16(x) * Hi16(y)) + 0x1_0000 * U32(Hi16(x) * Lo16(y))
          + 0x1_0000_0000 * U32(Hi16(x) * Hi16(y)) == x * y
    ensures 0 <= U32(Lo16(x) * Lo16(y)) <= 0xFFFF * 0xFFFF && 0 <= U32(Lo16(x) * Hi16(y)) <= 0xFFFF * 0xFFFF
    ensures 0 <= U32(Hi16(x) * Lo16(y)) <= 0xFFFF * 0xFFFF && 0 <= U32(Hi16(x) * Hi16(y)) <= 0xFFFF * 0xFFFF
  {
    hide *;
    Halves(x);
    Halves(y);
    Bound16(Lo16(x), Lo16(y));
    Bound16(Lo16(x), Hi16(y));
    Bound16(Hi16(x), Lo16(y));
    Bound16(Hi16(x), Hi16(y));
    Split16(x, y, Lo16(x), Hi16(x), Lo16(y), Hi16(y));
    Unwrapped(Lo16(x) * Lo16(y));
    Unwrapped(Lo16(x) * Hi16(y));
    Unwrapped(Hi16(x) * Lo16(y));
    Unwrapped(Hi16(x) * Hi16(y));
  }

  lemma Halves(x: Limb)
    ensures 0 <= Lo16(x) < 0x1_0000 && 0 <= Hi16(x) < 0x1_0000 && x == Lo16(x) + 0x1_0000 * Hi16(x)
  {
  }

  lemma Unwrapped(m: int)
    requires 0 <= m < 0x1_0000_0000
    ensures U32(m) == m
  {
  }

  lemma Bound16(x: int, y: int)
    requires 0 <= x < 0x1_0000 && 0 <= y < 0x1_0000
    ensures 0 <= x * y <= 0xFFFF * 0xFFFF
  {
    MulLe(x, 0xFFFF, y);
    MulLe(y, 0xFFFF, 0xFFFF);
  }

  lemma Split16(x: int, y: int, xl: int, xh: int, yl: int, yh: int)
    requires x == xl + 0x1_0000 * xh && y == yl + 0x1_0000 * yh
    ensures x * y == xl * yl + 0x1_0000 * (xl * yh) + 0x1_0000 * (xh * yl) + 0x1_0000_0000 * (xh * yh)
  {
    calc {
      x * y;
      xl * y + 0x1_0000 * xh * y;
      xl * (yl + 0x1_0000 * yh) + 0x1_0000 * xh * (yl + 0x1_0000 * yh);
    }
  }

  lemma CarryFits(a: Limb, t: int, aij: Limb, c: Limb, x: Limb, y: Limb)
    requires a + 0x1_0000_0000 * t == aij + c + x * y && t >= 0
    ensures t < 0x1_0000_0000
  {
    Product32(x, y);
  }

  /** `a[ai .. ai+2w) = x[xi .. xi+w) * y[yi .. yi+w)`. */
  method IMul(a: array<Limb>, ai: nat, x: array<Limb>, xi: nat, y: array<Limb>, yi: nat, w: nat)
    requires ai + 2 * w <= a.Length && xi + w <= x.Length && yi + w <= y.Length
    requires a != x && a != y
    modifies a
    ensures a[..ai] == old(a[..ai]) && a[ai + 2 * w..] == old(a[ai + 2 * w..])
    ensures Val(a[ai..ai + 2 * w]) == Val(x[xi..xi + w]) * Val(y[yi..yi + w])
  {
    hide Val, Pow, IsProduct;
    ghost var low, high := a[..ai], a[ai + 2 * w..];
    ghost var xs, yv := x[xi..xi + w], Val(y[yi..yi + w]);
    IMulStart(a, ai, w, yv);
    assert xs[..0] == [];
    var i := 0;
    while i != w
      invariant 0 <= i <= w
      invariant a[..ai] == low && a[ai + 2 * w..] == high
      invariant IsProduct(a[ai..ai + i + w], xs[..i], yv)
    {
      IMulRound(a, ai, i, x[xi + i], y, yi, w, xs, yv);
      i := i + 1;
    }
    assert xs[..w] == xs && a[ai..ai + w + w] == a[ai..ai + 2 * w];
    ProductResult(a[ai..ai + 2 * w], xs, yv);
  }

  /** The low half cleared: the product of nothing. */
  method IMulStart(a: array<Limb>, ai: nat, w: nat, ghost y: int)
    requires ai + 2 * w <= a.Length
    modifies a
    ensures a[..ai] == old(a[..ai]) && a[ai + 2 * w..] == old(a[ai + 2 * w..])
    ensures IsProduct(a[ai..ai + 0 + w], [], y)
  {
    hide Val, Pow, IsProduct;
    ZeroSlice(a, ai, ai + w);
    assert a[ai + 2 * w..] == a[ai + w..][w..] == old(a[ai + w..])[w..];
    ValZero(a[ai..ai + w]);
    ProductNone(a[ai..ai + 0 + w], y);
  }

  /** A row written inside `a[ai .. ai+2w)` leaves what is outside, and extends what is below it. */
  lemma RowInside(was: seq<Limb>, now: seq<Limb>, ai: nat, i: nat, w: nat)
    requires i < w && ai + 2 * w <= |was| == |now|
    requires was[..ai + i] == now[..ai + i] && was[ai + i + w + 1..] == now[ai + i + w + 1..]
    ensures now[..ai] == was[..ai] && now[ai + 2 * w..] == was[ai + 2 * w..]
    ensures now[ai..ai + (i + 1) + w] == was[ai..ai + i] + now[ai + i..ai + i + w + 1]
  {
    forall k | 0 <= k < ai + i
      ensures now[k] == was[k]
    {
      assert now[k] == now[..ai + i][k];
    }
    forall k | ai + i + w + 1 <= k < |now|
      ensures now[k] == was[k]
    {
      assert now[k] == now[ai + i + w + 1..][k - (ai + i + w + 1)];
    }
  }

  /** One round of `imul`: the row of limb `i`, added `i` limbs up. */
  method IMulRound(a: array<Limb>, ai: nat, i: nat, x: Limb, y: array<Limb>, yi: nat, w: nat,
                   ghost xs: seq<Limb>, ghost yv: int)
    requires ai + 2 * w <= a.Length && yi + w <= y.Length && a != y && i < w == |xs| && x == xs[i]
    requires yv == Val(y[yi..yi + w]) && IsProduct(a[ai..ai + i + w], xs[..i], yv)
    modifies a
    ensures a[..ai] == old(a[..ai]) && a[ai + 2 * w..] == old(a[ai + 2 * w..])
    ensures IsProduct(a[ai..ai + (i + 1) + w], xs[..i + 1], yv)
  {
    hide Val, Pow, IsProduct;
    ghost var was, done, row := a[..], a[ai..ai + i], a[ai + i..ai + i + w];
    assert a[ai..ai + i + w] == done + row;
    IMulRow(a, ai + i, x, y, yi, w);
    RowInside(was, a[..], ai, i, w);
    RowAdded(done, row, a[ai + i..ai + i + w + 1], xs, i, yv);
  }

  lemma ProductNone(zs: seq<Limb>, y: int)
    requires Val(zs) == 0
    ensures IsProduct(zs, [], y)
  {
  }

  /** One row of `imul`: `a[ai .. ai+w] = a[ai .. ai+w) + x * y[yi .. yi+w)`. */
  method IMulRow(a: array<Limb>, ai: nat, x: Limb, y: array<Limb>, yi: nat, w: nat)
    requires ai + w < a.Length && yi + w <= y.Length && a != y
    modifies a
    ensures a[..ai] == old(a[..ai]) && a[ai + w + 1..] == old(a[ai + w + 1..])
    ensures Val(a[ai..ai + w + 1]) == old(Val(a[ai..ai + w])) + x * Val(y[yi..yi + w])
  {
    hide IsRow, Val, Pow;
    ghost var low, high, row, ys := a[..ai], a[ai + w + 1..], a[ai..ai + w], y[yi..yi + w];
    var c := 0;
    var j := 0;
    RowNone(x);
    ValNone();
    assert row[..0] == [] && ys[..0] == [] && a[ai..ai] == [];
    while j != w
      invariant 0 <= j <= w
      invariant 0 <= c < 0x1_0000_0000
      invariant a[..ai] == low && a[ai + w + 1..] == high
      invariant forall k :: j <= k < w ==> a[ai + k] == row[k]
      invariant IsRow(a[ai..ai + j], c, Val(row[..j]), x, ys[..j])
    {
      ghost var done, c0 := a[ai..ai + j], c;
      var v, c' := Mul16(a[ai + j], c, x, y[yi + j]);
      a[ai + j] := v;
      c := c';
      RowStep(done, c0, Val(row[..j]), x, ys[..j], v, c, row[j], ys[j]);
      ValSnoc(row, j);
      assert a[ai..ai + j + 1] == done + [v] && ys[..j + 1] == ys[..j] + [ys[j]];
      assert a[..ai] == low && a[ai + w + 1..] == high;
      j := j + 1;
    }
    a[ai + w] := c;
    assert row[..w] == row && ys[..w] == ys;
    RowResult(a[ai..ai + w], c, Val(row), x, ys);
    assert a[ai..ai + w + 1] == a[ai..ai + w] + [c];
    assert a[..ai] == low && a[ai + w + 1..] == high;
  }

  // Karatsuba

  lemma ValThree(a: seq<Limb>, b: seq<Limb>, d: seq<Limb>)
    ensures Val(a + (b + d)) == Val(a) + Pow(|a|) * Val(b) + Pow(|a|) * (Pow(|b|) * Val(d))
  {
    hide Val, Pow;
    ValAppend(a, b + d);
    ValAppend(b, d);
    Distribute(Pow(|a|), Val(b), Pow(|b|) * Val(d));
  }

  lemma Distribute(p: int, x: int, y: int)
    ensures p * (x + y) == p * x + p * y
  {
  }

  /** Replacing a slice moves the whole number by the slice's change at its weight. */
  lemma SliceChange(s: seq<Limb>, t: seq<Limb>, off: nat, n: nat)
    requires |s| == |t| && off + n <= |s|
    requires s[..off] == t[..off] && s[off + n..] == t[off + n..]
    ensures Val(t) - Val(s) == Pow(off) * Val(t[off..off + n]) - Pow(off) * Val(s[off..off + n])
  {
    hide Val, Pow;
    ThreeSlices(s, off, n);
    ThreeSlices(t, off, n);
  }

  lemma ThreeSlices(s: seq<Limb>, off: nat, n: nat)
    requires off + n <= |s|
    ensures Val(s) == Val(s[..off]) + Pow(off) * Val(s[off..off + n]) + Pow(off) * (Pow(n) * Val(s[off + n..]))
  {
    hide Val, Pow;
    assert s == s[..off] + (s[off..off + n] + s[off + n..]);
    ValThree(s[..off], s[off..off + n], s[off + n..]);
  }

  /** The number a Karatsuba buffer stands for while limb `|f|` holds the running sum `t` of carries. */
  ghost function Running(f: seq<Limb>, t: int): int {
    Val(f) + t * Pow(|f|)
  }

  /** Adding `d` at limb `off`, with what leaves the `n` limbs there still owed at the top. */
  lemma RunningStep(s: seq<Limb>, t: seq<Limb>, off: nat, n: nat, top: int, d: int, carry: int)
    requires |s| == |t| && off + n == |s|
    requires s[..off] == t[..off]
    requires -1 <= carry <= 1
    requires Val(t[off..off + n]) + (if carry == 0 then 0 else if carry == 1 then Pow(n) else -Pow(n))
          == Val(s[off..off + n]) + d
    ensures Running(t, top + carry) == Running(s, top) + Pow(off) * d
  {
    hide Val, Pow;
    SliceChange(s, t, off, n);
    PowAdd(off, n);
    var c := if carry == 0 then 0 else if carry == 1 then Pow(n) else -Pow(n);
    assert c == carry * Pow(n);
    RunningArith(Pow(off), Pow(n), carry, top, Val(s[off..off + n]), d, Val(t[off..off + n]));
  }

  lemma RunningArith(p: int, q: int, carry: int, top: int, old': int, d: int, new': int)
    requires new' == old' + d - carry * q
    ensures p * new' - p * old' + (top + carry) * (p * q) == top * (p * q) + p * d
  {
    calc {
      p * new' - p * old' + (top + carry) * (p * q);
      p * (old' + d - carry * q) - p * old' + (top + carry) * (p * q);
    }
  }

  /** Karatsuba's identity: the running number before the last addition, and what that one makes of it. */
  lemma KaratsubaIdentity(p: int, x0: int, x1: int, y0: int, y1: int)
    ensures p * ((x0 + x1) * (y0 + y1)) + x0 * y0 - p * (x0 * y0) - p * (x1 * y1)
         == x0 * y0 + p * (x0 * y1 + x1 * y0)
    ensures x0 * y0 + p * (x0 * y1 + x1 * y0) + p * p * (x1 * y1) == (x0 + p * x1) * (y0 + p * y1)
  {
    assert (x0 + x1) * (y0 + y1) == x0 * y0 + x0 * y1 + x1 * y0 + x1 * y1;
    calc {
      (x0 + p * x1) * (y0 + p * y1);
      x0 * (y0 + p * y1) + (p * x1) * (y0 + p * y1);
      x0 * y0 + x0 * (p * y1) + (p * x1) * y0 + (p * x1) * (p * y1);
    }
  }

  /** The middle product with the carries of its factors put back. */
  lemma MiddleProduct(p: int, rx: int, ry: int, c0: int, c1: int)
    ensures p * (rx * ry) + p * p * (c1 * rx) + p * p * (c0 * ry) + p * p * p * (c0 * c1)
         == p * ((rx + c0 * p) * (ry + c1 * p))
  {
  }

  /** Limb `k` holds the running sum `top` of carries above `a[..k)`, modulo its width. */
  ghost predicate Holds(a: array<Limb>, k: nat, top: int, q: int)
    reads a
  {
    && k < a.Length
    && a[k] == U32(top)
    && Running(a[..k], top) == q
    && forall i :: k < i < a.Length ==> a[i] == 0
  }

  /** `a[k] += iinc(a, off, r, ri, n)` with `off + n = k`. */
  method IncInto(a: array<Limb>, off: nat, r: array<Limb>, ri: nat, n: nat, ghost top: int, ghost q: int)
    returns (ghost top': int)
    requires a != r && ri + n <= r.Length
    requires Holds(a, off + n, top, q)
    modifies a
    ensures Holds(a, off + n, top', q + Pow(off) * Val(r[ri..ri + n]))
  {
    hide Running, Val, Pow, U32;
    var k := off + n;
    ghost var was, high := a[..k], a[k + 1..];
    var c := IInc(a, off, r, ri, n);
    assert a[k..] == old(a[k..]);
    assert a[k] == a[k..][0] && a[k + 1..] == a[k..][1..] == old(a[k..])[1..] == high;
    assert a[..k][..off] == was[..off] by { assert a[..k][..off] == a[..off]; }
    assert a[..k][off..k] == a[off..k] && was[off..k] == old(a[off..k]);
    top' := top + c;
    RunningStep(was, a[..k], off, n, top, Val(r[ri..ri + n]), c);
    ghost var now := a[..k];
    CarryWraps(a[k], top, c);
    a[k] := U32(a[k] as int + c);
    assert a[..k] == now;
    assert forall i :: k < i < a.Length ==> a[i] == high[i - (k + 1)] && high[i - (k + 1)] == 0;
  }

  /** `a[k] += idec(a, off, r, ri, n)` with `off + n = k`. */
  method DecInto(a: array<Limb>, off: nat, r: array<Limb>, ri: nat, n: nat, ghost top: int, ghost q: int)
    returns (ghost top': int)
    requires a != r && ri + n <= r.Length
    requires Holds(a, off + n, top, q)
    modifies a
    ensures Holds(a, off + n, top', q - Pow(off) * Val(r[ri..ri + n]))
  {
    hide Running, Val, Pow, U32;
    var k := off + n;
    ghost var was, high := a[..k], a[k + 1..];
    var c := IDec(a, off, r, ri, n);
    assert a[k..] == old(a[k..]);
    assert a[k] == a[k..][0] && a[k + 1..] == a[k..][1..] == old(a[k..])[1..] == high;
    assert a[..k][..off] == was[..off] by { assert a[..k][..off] == a[..off]; }
    assert a[..k][off..k] == a[off..k] && was[off..k] == old(a[off..k]);
    top' := top + c;
    RunningStep(was, a[..k], off, n, top, -Val(r[ri..ri + n]), c);
    Negate(Pow(off), Val(r[ri..ri + n]));
    ghost var now := a[..k];
    CarryWraps(a[k], top, c);
    a[k] := U32(a[k] as int + c);
    assert a[..k] == now;
    assert forall i :: k < i < a.Length ==> a[i] == high[i - (k + 1)] && high[i - (k + 1)] == 0;
  }

  lemma Negate(p: int, x: int)
    ensures p * -x == -(p * x)
  {
  }

  lemma CarryWraps(limb: Limb, top: int, c: int)
    requires limb == U32(top)
    ensures U32(limb + c) == U32(top + c)
  {
  }

  /** `a[w+l] += iincc(a, w, l, iinc(a, 0, r, 0, w))`: a carry out of the low `w` limbs travels on. */
  method IncThrough(a: array<Limb>, r: array<Limb>, w: nat, l: nat, ghost top: int, ghost q: int)
    returns (ghost top': int)
    requires a != r && r.Length == w
    requires Holds(a, w + l, top, q)
    modifies a
    ensures Holds(a, w + l, top', q + V(r))
  {
    hide Running, Val, Pow, U32;
    var k := w + l;
    ghost var was, high := a[..k], a[k..];
    var c := IInc(a, 0, r, 0, w);
    assert r[0..w] == r[..];
    ghost var mid := a[..k];
    assert a[k..] == high by { assert a[k..] == a[0 + w..][l..]; assert old(a[k..]) == old(a[0 + w..])[l..]; }
    assert mid[w..] == was[w..] by { assert mid[w..] == a[0 + w..][..l]; assert was[w..] == old(a[0 + w..])[..l]; }
    assert mid[..w] == a[0..w] && was[..w] == old(a[0..0 + w]);
    LowStep(was, mid, w, top, V(r), c);
    var c' := IIncC(a, w, l, c);
    EnteringIs(c, mid[w..k]);
    assert c' * Pow(l) == if c' == 0 then 0 else Pow(l);
    assert a[k..] == high by { assert a[k..] == a[w + l..]; }
    assert a[..k][..w] == mid[..w] by { assert a[..k][..w] == a[..w]; }
    assert a[..k][w..k] == a[w..k] && mid[w..k] == mid[w..];
    RunningStep(mid, a[..k], w, l, top, c, c');
    top' := top + c';
    ghost var now := a[..k];
    assert a[k] == a[k..][0];
    CarryWraps(a[k], top, c');
    a[k] := U32(a[k] as int + c');
    assert a[..k] == now;
    assert forall i :: k < i < a.Length ==> a[i] == high[i - k] && high[i - k] == 0;
  }

  lemma LowStep(s: seq<Limb>, t: seq<Limb>, w: nat, top: int, d: int, carry: int)
    requires w <= |s| == |t| && s[w..] == t[w..] && 0 <= carry <= 1
    requires Val(t[..w]) + (if carry == 0 then 0 else Pow(w)) == Val(s[..w]) + d
    ensures Running(t, top) + Pow(w) * carry == Running(s, top) + d
  {
    hide Val, Pow;
    SliceChange(s, t, 0, w);
    assert s[0..0 + w] == s[..w] && t[0..0 + w] == t[..w];
    assert Pow(0) == 1 by { PowZero(); }
    if carry == 1 {
      assert Pow(w) * carry == Pow(w);
    }
  }

  lemma PowZero()
    ensures Pow(0) == 1
  {
  }

  /** What a half sum is worth with its carry. */
  ghost function Carried(v: int, c: int, l: nat): int {
    v + if c == 0 then 0 else Pow(l)
  }

  /** First lines of `kmul`: the half sums in `r`, and their product in the middle of `a`. */
  method KMulStart(a: array<Limb>, r: array<Limb>, x: array<Limb>, y: array<Limb>, l: nat) returns (c0: int, c1: int)
    requires x.Length == y.Length == r.Length == 2 * l && a.Length == 4 * l && l > 0
    requires a != r && a != x && a != y && r != x && r != y
    modifies a, r
    ensures 0 <= c0 <= 1 && 0 <= c1 <= 1
    ensures Carried(Val(r[..l]), c0, l) == Val(x[..l]) + Val(x[l..])
    ensures Carried(Val(r[l..]), c1, l) == Val(y[..l]) + Val(y[l..])
    ensures Holds(a, 3 * l, 0, Pow(l) * (Val(r[..l]) * Val(r[l..])))
  {
    hide Running, Val, Pow, U32, Holds, Carried;
    c0, c1 := HalfSums(r, x, y, l);
    ghost var rx, ry := r[..l], r[l..];
    ZeroSlice(a, 0, l);
    ghost var zeros := a[..l];
    assert r[0..0 + l] == rx && r[l..l + l] == ry;
    IMul(a, l, r, 0, r, l, l);
    ghost var product, m := a[l..l + 2 * l], Val(rx) * Val(ry);
    assert Val(product) == m;
    assert a[..3 * l] == zeros + product by { assert a[..l] == zeros; }
    ZeroSlice(a, 3 * l, 4 * l);
    assert r[..l] == rx && r[l..] == ry;
    MiddleStart(a, l, zeros, product, m);
  }

  /** `r[0 .. l) = x0 + x1` and `r[l .. 2l) = y0 + y1`. */
  method HalfSums(r: array<Limb>, x: array<Limb>, y: array<Limb>, l: nat) returns (c0: int, c1: int)
    requires x.Length == y.Length == r.Length == 2 * l && r != x && r != y
    modifies r
    ensures 0 <= c0 <= 1 && 0 <= c1 <= 1
    ensures Carried(Val(r[..l]), c0, l) == Val(x[..l]) + Val(x[l..])
    ensures Carried(Val(r[l..]), c1, l) == Val(y[..l]) + Val(y[l..])
  {
    hide Val, Pow;
    assert x[0..0 + l] == x[..l] && x[l..l + l] == x[l..] && y[0..0 + l] == y[..l] && y[l..l + l] == y[l..];
    c0 := IAdd(r, 0, x, 0, x, l, l);
    ghost var rxs := r[..l];
    assert rxs == r[0..0 + l];
    c1 := IAdd(r, l, y, 0, y, l, l);
    assert r[..l] == rxs && r[l..l + l] == r[l..];
  }

  /** The carries of the half sums, multiplied out into the middle product. */
  method KMulCarries(a: array<Limb>, r: array<Limb>, l: nat, c0: int, c1: int) returns (ghost top: int)
    requires r.Length == 2 * l && a.Length == 4 * l && a != r
    requires 0 <= c0 <= 1 && 0 <= c1 <= 1
    requires Holds(a, 3 * l, 0, Pow(l) * (Val(r[..l]) * Val(r[l..])))
    modifies a
    ensures Holds(a, 3 * l, top, Pow(l) * (Carried(Val(r[..l]), c0, l) * Carried(Val(r[l..]), c1, l)))
  {
    hide Running, Val, Pow, U32, Holds, Carried;
    assert r[0..0 + l] == r[..l] && r[l..l + l] == r[l..];
    top := 0;
    ghost var rx, ry := Val(r[..l]), Val(r[l..]);
    MiddleSum(l, rx, ry, c0, c1);
    ghost var q := Pow(l) * (rx * ry);
    if c1 != 0 {
      top := IncInto(a, 2 * l, r, 0, l, top, q);
      q := q + Pow(2 * l) * rx;
    }
    if c0 != 0 {
      top := IncInto(a, 2 * l, r, l, l, top, q);
      q := q + Pow(2 * l) * ry;
    }
    if c0 == 1 && c1 == 1 {
      top := TopUp(a, 3 * l, top, q);
    }
  }

  /** `a[k] += 1`. */
  method TopUp(a: array<Limb>, k: nat, ghost top: int, ghost q: int) returns (ghost top': int)
    requires Holds(a, k, top, q)
    modifies a
    ensures Holds(a, k, top', q + Pow(k))
  {
    hide Pow, Val, U32;
    top' := top + 1;
    ghost var low := a[..k];
    assert (top + 1) * Pow(k) == top * Pow(k) + Pow(k);
    CarryWraps(a[k], top, 1);
    a[k] := U32(a[k] as int + 1);
    assert a[..k] == low;
  }

  lemma MiddleStart(a: array<Limb>, l: nat, zeros: seq<Limb>, product: seq<Limb>, m: int)
    requires l > 0 && a.Length == 4 * l && |zeros| == l && |product| == 2 * l
    requires a[..3 * l] == zeros + product && Val(product) == m
    requires forall k :: 0 <= k < l ==> zeros[k] == 0
    requires forall k :: 3 * l <= k < 4 * l ==> a[k] == 0
    ensures Holds(a, 3 * l, 0, Pow(l) * m)
  {
    hide Pow, Val;
    ValZero(zeros);
    ValAppend(zeros, product);
    assert 0 * Pow(3 * l) == 0;
  }

  lemma MiddleSum(l: nat, rx: int, ry: int, c0: int, c1: int)
    requires 0 <= c0 <= 1 && 0 <= c1 <= 1
    ensures Pow(l) * (rx * ry) + (if c1 == 0 then 0 else Pow(2 * l) * rx) + (if c0 == 0 then 0 else Pow(2 * l) * ry)
          + (if c0 == 1 && c1 == 1 then Pow(3 * l) else 0)
         == Pow(l) * (Carried(rx, c0, l) * Carried(ry, c1, l))
  {
    hide Pow;
    var p := Pow(l);
    PowAdd(l, l);
    PowAdd(2 * l, l);
    MiddleProduct(p, rx, ry, c0, c1);
  }

  /** What is left once the outer products are taken out of the middle: the cross products alone. */
  lemma CrossProducts(p: int, x0: int, x1: int, y0: int, y1: int)
    requires p > 0 && 0 <= x0 < p && 0 <= x1 < p && 0 <= y0 < p && 0 <= y1 < p
    ensures p * ((x0 + x1) * (y0 + y1)) + x0 * y0 - p * (x0 * y0) - p * (x1 * y1)
         == x0 * y0 + p * (x0 * y1 + x1 * y0)
    ensures 0 <= x0 * y0 + p * (x0 * y1 + x1 * y0) < 3 * (p * p * p)
  {
    KaratsubaIdentity(p, x0, x1, y0, y1);
    CrossBound(p, x0, y0);
    CrossBound(p, x0, y1);
    CrossBound(p, x1, y0);
    CrossSum(p, x0 * y0, x0 * y1, x1 * y0);
  }

  lemma CrossSum(p: int, a: int, b: int, c: int)
    requires p > 0 && 0 <= a <= p * p - 1 && 0 <= b <= p * p - 1 && 0 <= c <= p * p - 1
    ensures 0 <= a + p * (b + c) < 3 * (p * p * p)
  {
    MulLe(b + c, 2 * (p * p) - 2, p);
    CubeBound(p);
  }

  lemma CrossBound(p: int, x: int, y: int)
    requires 0 <= x < p && 0 <= y < p
    ensures 0 <= x * y <= p * p - 1
  {
    MulLe(x, p - 1, y);
    MulLe(y, p - 1, p - 1);
    assert (p - 1) * (p - 1) == p * p - 2 * p + 1;
  }

  lemma CubeBound(p: int)
    requires p > 0
    ensures p * p - 1 + (2 * (p * p) - 2) * p < 3 * (p * p * p)
  {
    MulLe(1, p, p * p);
    assert (2 * (p * p) - 2) * p == 2 * (p * p * p) - 2 * p;
  }

  /** The top limb holds the number's true top once the carries have all arrived. */
  lemma TopIsExact(a: array<Limb>, k: nat, top: int, q: int)
    requires Holds(a, k, top, q) && 0 <= q < 3 * Pow(k)
    ensures a[k] == top
    ensures V(a) == q
  {
    hide Val, Pow;
    ValBound(a[..k]);
    TopRange(Val(a[..k]), Pow(k), top);
    var s := a[..];
    assert s == a[..k] + a[k..] && a[k..] == [a[k]] + a[k + 1..];
    ValAppend(a[..k], a[k..]);
    ValAppend([a[k]], a[k + 1..]);
    ValZero(a[k + 1..]);
    SingleLimb(a[k]);
    assert Pow(1) * 0 == 0;
  }

  lemma TopRange(v: int, p: int, top: int)
    requires 0 <= v < p && 0 <= v + top * p < 3 * p
    ensures 0 <= top <= 2
  {
    if top < 0 {
      MulLe(1, -top, p);
    } else if top > 2 {
      MulLe(3, top, p);
    }
  }

  /** `r = x0 * y0`, added at limb 0 and taken off at limb `l`. */
  method KMulLow(a: array<Limb>, r: array<Limb>, x: array<Limb>, y: array<Limb>, l: nat, ghost top: int, ghost q: int)
    returns (ghost top': int)
    requires x.Length == y.Length == r.Length == 2 * l && a != r && r != x && r != y
    requires a != x && a != y && Holds(a, 3 * l, top, q)
    modifies a, r
    ensures Holds(a, 3 * l, top', q + Val(x[..l]) * Val(y[..l]) - Pow(l) * (Val(x[..l]) * Val(y[..l])))
  {
    hide Running, Val, Pow, U32, Holds;
    ghost var xs, ys := x[..l], y[..l];
    assert x[0..0 + l] == xs && y[0..0 + l] == ys;
    IMul(r, 0, x, 0, y, 0, l);
    assert r[0..0 + 2 * l] == r[..];
    ghost var low := V(r);
    top' := AddAndTakeOff(a, r, l, top, q);
    assert x[..l] == xs && y[..l] == ys && low == Val(x[..l]) * Val(y[..l]);
  }

  /** `r`, added at limb 0 and taken off at limb `l`. */
  method AddAndTakeOff(a: array<Limb>, r: array<Limb>, l: nat, ghost top: int, ghost q: int) returns (ghost top': int)
    requires r.Length == 2 * l && a != r && Holds(a, 3 * l, top, q)
    modifies a
    ensures Holds(a, 3 * l, top', q + V(r) - Pow(l) * V(r))
  {
    hide Running, Val, Pow, U32, Holds;
    ghost var rs := r[..];
    top' := IncThrough(a, r, 2 * l, l, top, q);
    assert r[0..0 + 2 * l] == rs;
    top' := DecInto(a, l, r, 0, 2 * l, top', q + Val(rs));
    assert r[0..0 + 2 * l] == rs;
  }

  /** `r = x1 * y1`, taken off at limb `l`. */
  method KMulHigh(a: array<Limb>, r: array<Limb>, x: array<Limb>, y: array<Limb>, l: nat, ghost top: int, ghost q: int)
    returns (ghost top': int)
    requires x.Length == y.Length == r.Length == 2 * l && a != r && r != x && r != y
    requires a != x && a != y && Holds(a, 3 * l, top, q)
    modifies a, r
    ensures V(r) == Val(x[l..]) * Val(y[l..])
    ensures Holds(a, 3 * l, top', q - Pow(l) * (Val(x[l..]) * Val(y[l..])))
  {
    hide Running, Val, Pow, U32, Holds;
    ghost var xs, ys := x[l..], y[l..];
    ghost var high := Val(xs) * Val(ys);
    assert x[l..l + l] == xs && y[l..l + l] == ys;
    IMul(r, 0, x, l, y, l, l);
    ghost var rs := r[..];
    assert r[0..0 + 2 * l] == rs && Val(rs) == high;
    top' := DecInto(a, l, r, 0, 2 * l, top, q);
    assert r[0..0 + 2 * l] == rs && r[..] == rs && x[l..] == xs && y[l..] == ys;
  }

  /** `a = x * y` by one Karatsuba round over halves of `l` limbs.  Limb `a[w + l]` collects every carry
      and borrow of the middle product; `r` is the provider's scratch buffer. */
  method KMul(a: array<Limb>, r: array<Limb>, x: array<Limb>, y: array<Limb>)
    requires x.Length == y.Length == r.Length && a.Length == 2 * x.Length
    requires x.Length % 2 == 0 && x.Length > 0
    requires a != r && a != x && a != y && r != x && r != y
    modifies a, r
    ensures V(a) == V(x) * V(y)
  {
    hide Running, Val, Pow, U32, Holds, Carried;
    var w := x.Length;
    var l := w / 2;
    var c0, c1 := KMulStart(a, r, x, y, l);
    ghost var top := KMulCarries(a, r, l, c0, c1);
    ghost var q := Pow(l) * ((Val(x[..l]) + Val(x[l..])) * (Val(y[..l]) + Val(y[l..])));
    top := KMulLow(a, r, x, y, l, top, q);
    ghost var q1 := q + Val(x[..l]) * Val(y[..l]) - Pow(l) * (Val(x[..l]) * Val(y[..l]));
    top := KMulHigh(a, r, x, y, l, top, q1);
    ghost var q2 := q1 - Pow(l) * (Val(x[l..]) * Val(y[l..]));
    KMulFinish(a, r, x, y, l, top, q2);
  }

  /** The last `iinc` of `kmul`: the high product at limb `w`; its carry is always zero. */
  method KMulFinish(a: array<Limb>, r: array<Limb>, x: array<Limb>, y: array<Limb>, l: nat, ghost top: int,
                    ghost q: int)
    requires l > 0 && x.Length == y.Length == r.Length == 2 * l && a.Length == 4 * l
    requires a != r && a != x && a != y
    requires Holds(a, 3 * l, top, q)
    requires q == Pow(l) * ((Val(x[..l]) + Val(x[l..])) * (Val(y[..l]) + Val(y[l..]))) + Val(x[..l]) * Val(y[..l])
               - Pow(l) * (Val(x[..l]) * Val(y[..l])) - Pow(l) * (Val(x[l..]) * Val(y[l..]))
    requires V(r) == Val(x[l..]) * Val(y[l..])
    modifies a
    ensures V(a) == V(x) * V(y)
  {
    hide Running, Val, Pow, U32, Holds;
    HighProduct(x[..], y[..], l, q, V(r));
    assert x[..][..l] == x[..l] && x[..][l..] == x[l..] && y[..][..l] == y[..l] && y[..][l..] == y[l..];
    TopIsExact(a, 3 * l, top, q);
    ghost var was, rs := a[..], r[..];
    var c := IInc(a, 2 * l, r, 0, 2 * l);
    assert r[0..0 + 2 * l] == rs;
    assert a[..][..2 * l] == was[..2 * l] by { assert a[..][..2 * l] == a[..2 * l]; }
    assert a[..][2 * l..4 * l] == a[2 * l..2 * l + 2 * l] && was[2 * l..4 * l] == old(a[2 * l..2 * l + 2 * l]);
    NoFinalCarry(was, a[..], 2 * l, Val(rs), c);
  }

  /** An addition in the upper half whose exact result fits leaves no carry. */
  lemma NoFinalCarry(s: seq<Limb>, t: seq<Limb>, n: nat, d: int, c: int)
    requires |s| == |t| == 2 * n && s[..n] == t[..n] && 0 <= c <= 1
    requires Val(t[n..2 * n]) + (if c == 0 then 0 else Pow(n)) == Val(s[n..2 * n]) + d
    requires Val(s) + Pow(n) * d < Pow(2 * n)
    ensures Val(t) == Val(s) + Pow(n) * d
  {
    hide Val, Pow;
    SliceChange(s, t, n, n);
    PowAdd(n, n);
    ValBound(t);
    CarryIsZero(Pow(n), Val(s), Val(t), Val(s[n..2 * n]), Val(t[n..2 * n]), d, c);
  }

  lemma CarryArith(p: int, u: int, d: int)
    ensures p * (u + d - p) == p * u + p * d - p * p
  {
  }

  /** A carry out would make the sum as large as `p p`. */
  lemma CarryIsZero(p: int, s: int, t: int, u: int, v: int, d: int, c: int)
    requires t >= 0 && t - s == p * v - p * u && v + (if c == 0 then 0 else p) == u + d
    requires s + p * d < p * p
    ensures t == s + p * d
  {
    if c == 0 {
      Distribute(p, u, d);
    } else {
      CarryArith(p, u, d);
    }
  }

  /** The running number and the high product make up the product, which has `4l` limbs. */
  lemma HighProduct(x: seq<Limb>, y: seq<Limb>, l: nat, q: int, high: int)
    requires |x| == |y| == 2 * l
    requires q == Pow(l) * ((Val(x[..l]) + Val(x[l..])) * (Val(y[..l]) + Val(y[l..]))) + Val(x[..l]) * Val(y[..l])
               - Pow(l) * (Val(x[..l]) * Val(y[..l])) - Pow(l) * (Val(x[l..]) * Val(y[l..]))
    requires high == Val(x[l..]) * Val(y[l..])
    ensures 0 <= q < 3 * Pow(3 * l)
    ensures q + Pow(2 * l) * high == Val(x) * Val(y) < Pow(4 * l)
  {
    hide Val, Pow;
    var p, x0, x1, y0, y1 := Pow(l), Val(x[..l]), Val(x[l..]), Val(y[..l]), Val(y[l..]);
    ValBound(x[..l]);
    ValBound(x[l..]);
    ValBound(y[..l]);
    ValBound(y[l..]);
    CrossProducts(p, x0, x1, y0, y1);
    KaratsubaIdentity(p, x0, x1, y0, y1);
    PowAdd(l, l);
    PowAdd(2 * l, l);
    PowAdd(2 * l, 2 * l);
    assert x == x[..l] + x[l..] && y == y[..l] + y[l..];
    ValAppend(x[..l], x[l..]);
    ValAppend(y[..l], y[l..]);
    ValBound(x);
    ValBound(y);
    CrossBound(Pow(2 * l), Val(x), Val(y));
  }
}
