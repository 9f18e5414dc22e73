/** `NIST64.sq`: squaring by off-diagonal products, doubled, plus the diagonal. */
module Squaring {
  import opened Words
  import opened Limbs

  /** The off-diagonal half of a square, one limb down: the sum over i < k of
      `x[i] * Val(x[i+1..]) * 2^(64 i)`. */
  function OffDiagonal(x: seq<Limb>, k: nat): int
    requires k <= |x|
  {
    if k == 0 then 0 else OffDiagonal(x, k - 1) + Pow(2 * (k - 1)) * (x[k - 1] * Val(x[k..]))
  }

  /** The diagonal: the sum over i < k of `x[i]^2 * 2^(64 i)`. */
  function Diagonal(x: seq<Limb>, k: nat): int
    requires k <= |x|
  {
    if k == 0 then 0 else Diagonal(x, k - 1) + Pow(2 * (k - 1)) * (x[k - 1] as int * x[k - 1])
  }

  /** What is left to square after `k` limbs, together with what has been collected, is the square. */
  lemma {:induction false} SquareSplit(x: seq<Limb>, k: nat)
    requires k <= |x|
    ensures Val(x) * Val(x)
         == 0x2_0000_0000 * OffDiagonal(x, k) + Diagonal(x, k) + Pow(2 * k) * (Val(x[k..]) * Val(x[k..]))
  {
    if k == 0 {
      assert x[0..] == x;
    } else {
      SquareSplit(x, k - 1);
      var s := x[k - 1..];
      ValSplitFirst(s);
      assert s[1..] == x[k..];
      assert Pow(2 * k) == 0x1_0000_0000 * (0x1_0000_0000 * Pow(2 * (k - 1)));
      SquareArith(Pow(2 * (k - 1)), x[k - 1], Val(x[k..]), Val(s));
    }
  }

  lemma SquareArith(p: int, x: int, t: int, s: int)
    requires s == x + 0x1_0000_0000 * t
    ensures p * (s * s)
         == 0x2_0000_0000 * (p * (x * t)) + p * (x * x) + 0x1_0000_0000 * (0x1_0000_0000 * p) * (t * t)
  {
    calc {
      p * (s * s);
      p * (x * x + 0x2_0000_0000 * (x * t) + 0x1_0000_0000 * 0x1_0000_0000 * (t * t));
      p * (x * x) + p * (0x2_0000_0000 * (x * t)) + p * (0x1_0000_0000 * 0x1_0000_0000 * (t * t));
    }
  }

  lemma SquareWhole(x: seq<Limb>)
    requires x != []
    ensures Val(x) * Val(x) == 0x2_0000_0000 * OffDiagonal(x, |x| - 1) + Diagonal(x, |x|)
  {
    var n := |x|;
    SquareSplit(x, n);
    assert x[n..] == [];
    assert Pow(2 * (n - 1)) * (x[n - 1] * Val([])) == 0;
  }

  lemma OffDiagonalRow(x: seq<Limb>, i: nat, low: seq<Limb>, row: seq<Limb>, mid: seq<Limb>)
    requires i < |x| && |low| == 2 * i
    requires Val(low + row) == OffDiagonal(x, i)
    requires Val(mid) == Val(row) + x[i] * Val(x[i + 1..])
    ensures Val(low + mid) == OffDiagonal(x, i + 1)
  {
    hide Val, Pow;
    ValAppend(low, row);
    ValAppend(low, mid);
    Distribute(Pow(2 * i), Val(row), x[i] * Val(x[i + 1..]));
  }

  lemma Distribute(p: int, a: int, b: int)
    ensures p * (a + b) == p * a + p * b
  {
  }

  lemma RowAbove(was: seq<Limb>, now: seq<Limb>, i: nat, l: nat)
    requires |was| == |now| == 2 * l && 1 <= i < l
    requires was[..2 * i + 1] == now[..2 * i + 1]
    ensures was[1..i + l] == was[1..2 * i + 1] + was[2 * i + 1..i + l]
    ensures now[1..i + l + 1] == was[1..2 * i + 1] + now[2 * i + 1..i + l + 1]
  {
    assert now[1..2 * i + 1] == was[1..2 * i + 1] by {
      assert now[1..2 * i + 1] == now[..2 * i + 1][1..];
      assert was[1..2 * i + 1] == was[..2 * i + 1][1..];
    }
  }

  /** The rows below the first: `a[1 .. 2l-1)` ends as the whole off-diagonal half. */
  method SqLoop(a: array<Limb>, x: array<Limb>)
    requires x.Length >= 2 && a.Length == 2 * x.Length && a != x
    requires Val(a[1..x.Length + 1]) == OffDiagonal(x[..], 1)
    modifies a
    ensures Val(a[1..2 * x.Length - 1]) == OffDiagonal(x[..], x.Length - 1)
  {
    hide Val, Pow, OffDiagonal;
    var l := x.Length;
    var i := 1;
    while i != l - 1
      invariant 1 <= i <= l - 1
      invariant Val(a[1..i + l]) == OffDiagonal(x[..], i)
    {
      ghost var was, xs := a[..], x[..];
      ghost var low, row := was[1..2 * i + 1], was[2 * i + 1..i + l];
      assert a[2 * i + 1..2 * i + 1 + (l - i - 1)] == row;
      MulRow(false, a, i + i + 1, x[i], x, i + 1);
      ghost var mid := a[..][2 * i + 1..i + l + 1];
      assert a[2 * i + 1..2 * i + 1 + (l - i - 1) + 1] == mid;
      RowAbove(was, a[..], i, l);
      assert a[1..i + 1 + l] == a[..][1..i + l + 1];
      assert x[..][i + 1..] == x[i + 1..];
      OffDiagonalRow(x[..], i, low, row, mid);
      i := i + 1;
    }
  }

  /** `c += 2 * a[ij]`; the limb is stored and the carry returned. */
  method SqInner1(a: array<Limb>, ij: nat, c0: int) returns (c: int)
    requires ij < a.Length && 0 <= c0 <= 0x1_0000_0000
    modifies a
    ensures a[..] == old(a[..])[ij := a[ij]]
    ensures 0 <= c <= 2 && a[ij] + 0x1_0000_0000 * c == c0 + 2 * old(a[ij] as int)
  {
    c := ToLong(c0 + 2 * (a[ij] as int));
    a[ij] := Low(c);
    c := Lsr32(c);
  }

  /** `c += xi^2 + 2 * a[ij]`, the square's halves taken apart so that no `long` overflows. */
  method SqInner2(a: array<Limb>, ij: nat, xi: Limb, c0: int) returns (c: int)
    requires ij < a.Length && 0 <= c0 <= 2
    modifies a
    ensures a[..] == old(a[..])[ij := a[ij]]
    ensures 0 <= c <= 0x1_0000_0000 && a[ij] + 0x1_0000_0000 * c == c0 + xi * xi + 2 * old(a[ij] as int)
  {
    Product32(xi, xi);
    UnsignedSplit(xi as int * xi);
    var m := ToLong(xi as int * xi);
    c := ToLong(c0 + (Low(m) as int + 2 * (a[ij] as int)));
    a[ij] := Low(c);
    c := Lsr32(c) + Lsr32(m);
  }

  /** `zs` with carry `c` is `2^33 * Val(off) + diagonal`, limb 0 of `zs` being below `off`. */
  ghost predicate IsDoubled(zs: seq<Limb>, c: int, off: seq<Limb>, diagonal: int) {
    && |zs| == |off| + 1
    && Val(zs) + c * Pow(|zs|) == 0x2_0000_0000 * Val(off) + diagonal
  }

  lemma DoubledStart(z: Limb, c: int, x: Limb)
    requires z + 0x1_0000_0000 * c == x * x
    ensures IsDoubled([z], c, [], Diagonal([x], 1))
  {
    SingleLimb(z);
    assert Pow(1) == 0x1_0000_0000 && Diagonal([x], 1) == Diagonal([x], 0) + Pow(0) * (x * x);
  }

  lemma DoubledStep(zs: seq<Limb>, c: int, off: seq<Limb>, diagonal: int, z: Limb, c': int, o: Limb, m: int)
    requires IsDoubled(zs, c, off, diagonal)
    requires z + 0x1_0000_0000 * c' == c + m + 2 * o
    ensures IsDoubled(zs + [z], c', off + [o], diagonal + Pow(|zs|) * m)
  {
    var n, w: int := |zs|, m + 2 * o;
    assert (zs + [z])[..n] == zs && (off + [o])[..n - 1] == off;
    CarryStep(Val(zs), c, Pow(n), 0x2_0000_0000 * Val(off) + diagonal, z, c', w);
    DoubledArith(Pow(n - 1), m, o);
  }

  lemma DoubledArith(p: int, m: int, o: int)
    ensures (m + 2 * o) * (0x1_0000_0000 * p) == (0x1_0000_0000 * p) * m + 0x2_0000_0000 * (o * p)
  {
  }

  lemma DiagonalPrefix(x: seq<Limb>, k: nat)
    requires k < |x|
    ensures Diagonal(x, k + 1) == Diagonal(x, k) + Pow(2 * k) * (x[k] as int * x[k])
  {
  }

  /** The last carry is the top limb, since a square of `n` limbs has `2n`. */
  lemma DoubledTop(zs: seq<Limb>, c: int, off: seq<Limb>, x: seq<Limb>)
    requires x != [] && |zs| == 2 * |x| - 1 && c >= 0
    requires IsDoubled(zs, c, off, Diagonal(x, |x|))
    requires Val(off) == OffDiagonal(x, |x| - 1)
    ensures c < 0x1_0000_0000
    ensures Val(zs + [c]) == Val(x) * Val(x)
  {
    var n, p := |zs|, Pow(|zs|);
    SquareWhole(x);
    ValBound(x);
    ValBound(zs);
    PowAdd(|x|, |x|);
    SquareBound(Val(x), Pow(|x|));
    if c >= 0x1_0000_0000 {
      MulLe(0x1_0000_0000, c, p);
    }
    assert (zs + [c])[..n] == zs;
  }

  lemma SquareBound(v: int, p: int)
    requires 0 <= v < p
    ensures v * v < p * p
  {
    MulLe(v, p, v);
    assert v * p < p * p;
  }

  /** Turn `i` of the doubling loop: limbs `2i - 1` and `2i`. */
  method SqPair(a: array<Limb>, i: nat, x: array<Limb>, c0: int, ghost off: seq<Limb>) returns (c: int)
    requires a != x && 1 <= i < x.Length && a.Length == 2 * x.Length && |off| == a.Length - 2
    requires 0 <= c0 <= 0x1_0000_0000
    requires a[2 * i - 1] == off[2 * i - 2] && a[2 * i] == off[2 * i - 1]
    requires IsDoubled(a[..2 * i - 1], c0, off[..2 * i - 2], Diagonal(x[..], i))
    modifies a
    ensures forall k :: 2 * i < k < a.Length ==> a[k] == old(a[k])
    ensures 0 <= c <= 0x1_0000_0000
    ensures IsDoubled(a[..2 * i + 1], c, off[..2 * i], Diagonal(x[..], i + 1))
  {
    hide Pow, IsDoubled, Diagonal;
    ghost var ij, zs, rest := 2 * i - 1, a[..2 * i - 1], a[2 * i + 1..];
    ghost var diagonal := Diagonal(x[..], i);
    c := SqInner1(a, 2 * i - 1, c0);
    assert a[..ij] == zs && a[ij + 2..] == rest;
    DoubledStep(zs, c0, off[..ij - 1], diagonal, a[ij], c, off[ij - 1], 0);
    assert Pow(ij) * 0 == 0;
    ghost var zs1, c1 := a[..ij + 1], c;
    assert zs1 == zs + [a[ij]] && off[..ij] == off[..ij - 1] + [off[ij - 1]];
    c := SqInner2(a, 2 * i, x[i], c);
    assert a[..ij + 1] == zs1 && a[ij + 2..] == rest;
    DoubledStep(zs1, c1, off[..ij], diagonal, a[ij + 1], c, off[ij], x[i] as int * x[i]);
    DiagonalPrefix(x[..], i);
    assert a[..2 * i + 1] == zs1 + [a[ij + 1]] && off[..ij + 1] == off[..ij] + [off[ij]];
  }

  /** `a = x * x`.  The source asks for a nonempty `x`; with one limb `sq_loop` reads `x[1]`. */
  method Sq(a: array<Limb>, x: array<Limb>)
    requires x.Length >= 2 && a.Length == 2 * x.Length && a != x
    modifies a
    ensures V(a) == V(x) * V(x)
  {
    hide Val, Pow, OffDiagonal, Diagonal, IsDoubled;
    var l := x.Length;
    ghost var xs := x[..];
    MulRow(true, a, 1, x[0], x, 1);
    assert a[1..1 + (l - 1) + 1] == a[1..l + 1] && x[1..] == xs[1..];
    FirstRow(xs, a[1..l + 1]);
    SqLoop(a, x);
    ghost var off := a[1..2 * l - 1];

    SqDouble(a, x, off);
  }

  /** Second half of `sq`: double what is there and add the diagonal. */
  method SqDouble(a: array<Limb>, x: array<Limb>, ghost off: seq<Limb>)
    requires x.Length >= 2 && a.Length == 2 * x.Length && a != x
    requires off == a[1..2 * x.Length - 1] && Val(off) == OffDiagonal(x[..], x.Length - 1)
    modifies a
    ensures V(a) == V(x) * V(x)
  {
    hide Val, Pow, OffDiagonal, Diagonal, IsDoubled;
    var l := x.Length;
    ghost var xs := x[..];
    var c := SqFirst(a, x);
    assert off[..0] == [];
    var i := 1;
    while i != l
      invariant 1 <= i <= l
      invariant 0 <= c <= 0x1_0000_0000
      invariant forall k :: 2 * i - 1 <= k < 2 * l - 1 ==> a[k] == off[k - 1]
      invariant IsDoubled(a[..2 * i - 1], c, off[..2 * i - 2], Diagonal(xs, i))
    {
      c := SqPair(a, i, x, c, off);
      i := i + 1;
    }
    assert off[..2 * l - 2] == off;
    DoubledTop(a[..2 * l - 1], c, off, xs);
    a[2 * l - 1] := Low(c);
    assert a[..] == a[..2 * l - 1] + [c];
  }

  method SqFirst(a: array<Limb>, x: array<Limb>) returns (c: int)
    requires x.Length >= 2 && a.Length == 2 * x.Length && a != x
    modifies a
    ensures 0 <= c < 0x1_0000_0000
    ensures forall k :: 1 <= k < a.Length ==> a[k] == old(a[k])
    ensures IsDoubled(a[..1], c, [], Diagonal(x[..], 1))
  {
    hide IsDoubled, Diagonal;
    ghost var was := a[..];
    c := MulInner(true, a, 0, x[0], x[0], 0);
    assert a[..] == was[0 := a[0]];
    DoubledStart(a[0], c, x[0]);
    assert a[..1] == [a[0]];
    FirstDiagonal(x[..]);
  }

  lemma FirstRow(x: seq<Limb>, row: seq<Limb>)
    requires |x| >= 2 && Val(row) == x[0] * Val(x[1..])
    ensures Val(row) == OffDiagonal(x, 1)
  {
    assert OffDiagonal(x, 1) == OffDiagonal(x, 0) + Pow(0) * (x[0] * Val(x[1..]));
  }

  lemma FirstDiagonal(x: seq<Limb>)
    requires x != []
    ensures Diagonal(x, 1) == Diagonal([x[0]], 1)
  {
    assert Diagonal(x, 1) == Diagonal(x, 0) + Pow(0) * (x[0] as int * x[0]);
    assert Diagonal([x[0]], 1) == Diagonal([x[0]], 0) + Pow(0) * (x[0] as int * x[0]);
  }
}
