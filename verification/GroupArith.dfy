/** `NIST64.group_mul`: multiplication modulo the group order, one multiplier limb at a time. */
module GroupArith {
  import opened Words
  import opened Limbs
  import opened ModArith

  /** The order is so close below `2^(32 w)` that one limb of overflow is worth less than the order. */
  ghost predicate NearTop(n: int, w: nat) {
    0 < n < Pow(w) && 0x1_0000_0000 * (Pow(w) - n) <= n
  }

  /** `r[j] += b - low(c * aj)`; the borrow out takes the high half along. */
  method GroupRedAux(r: array<Limb>, aj: Limb, j: nat, c: Limb, b: int) returns (b': int)
    requires j < r.Length && -0x1_0000_0000 <= b <= 0
    modifies r
    ensures r[..] == old(r[..])[j := r[j]]
    ensures -0x1_0000_0000 <= b' <= 0
    ensures r[j] + 0x1_0000_0000 * b' == b + -(c as int) * aj + old(r[j])
  {
    Product32(c, aj);
    var product: int := c as int * aj;
    var m := ToLong(product);
    assert -(c as int) * aj == -product;
    RedAuxSum(r[j], b, product);
    var d := ToLong(b + (r[j] as int - Low(m)));
    r[j] := Low(d);
    b' := Asr32(d) - Lsr32(m);
  }

  lemma RedAuxSum(r: Limb, b: int, product: int)
    requires -0x1_0000_0000 <= b <= 0 && 0 <= product <= 0xFFFF_FFFF * 0xFFFF_FFFF
    ensures var m := ToLong(product);
      var d := ToLong(b + (r as int - Low(m)));
      && -0x1_0000_0000 <= Asr32(d) - Lsr32(m) <= 0
      && Low(d) + 0x1_0000_0000 * (Asr32(d) - Lsr32(m)) == b - product + r
  {
    UnsignedSplit(product);
  }

  /** `c` reduced into `r`: the new `r` is `r + c * 2^(32 w)` less at most `c + 1` times the order. */
  method GroupRed(r: array<Limb>, order: array<Limb>, c0: Limb)
    requires r != order && r.Length == order.Length
    requires NearTop(V(order), r.Length)
    modifies r
    ensures Cong(V(r), old(V(r)) + c0 * Pow(r.Length), V(order))
  {
    hide Val, Pow, Cong;
    ghost var v, n, p, ns := V(r), V(order), Pow(r.Length), order[..];
    ValBound(r[..]);
    var b := GroupRedRow(r, order, c0);
    var c := c0 + b;
    ghost var u := V(r);
    RowIsReduction(r[..], b, v, c0, order[..]);
    ValBound(r[..]);
    FirstPass(v, u, n, p, c0, b);
    if c != 0 {
      var d := Sub(r, r, order);
      c := c + d;
      ReducedBy(V(r), v, c0, p, c0 + 1, n);
    } else {
      ReducedBy(u, v, c0, p, c0, n);
    }
    if c != 0 {
      assert false; // the second subtraction of the source is never reached
    }
  }

  lemma RowIsReduction(rs: seq<Limb>, b: int, v: int, c: int, ns: seq<Limb>)
    requires IsRow(rs, b, v, -c, ns)
    ensures Val(rs) + (c + b) * Pow(|rs|) == v + c * (Pow(|rs|) - Val(ns))
  {
    hide Val, Pow;
    RowArith(b, c, Pow(|rs|), Val(ns));
  }

  lemma RowArith(b: int, c: int, p: int, n: int)
    ensures (c + b) * p == c * p + b * p
    ensures c * (p - n) == c * p + (-c) * n
  {
  }

  /** After the first pass the overflow is at most one, and then what is left is below the order. */
  lemma FirstPass(v: int, u: int, n: int, p: int, c: int, b: int)
    requires 0 <= v < p && 0 <= u < p && 0 <= c < 0x1_0000_0000
    requires 0 < n < p && 0x1_0000_0000 * (p - n) <= n
    requires u + (c + b) * p == v + c * (p - n)
    ensures 0 <= c + b <= 1
    ensures c + b == 0 ==> u == v + c * p - c * n
    ensures c + b == 1 ==> u < n && u + p - n == v + c * p - (c + 1) * n
  {
    MulLe(c, 0xFFFF_FFFF, p - n);
    if c + b < 0 {
      MulLe(1, -(c + b), p);
    } else if c + b > 1 {
      MulLe(2, c + b, p);
    }
  }

  lemma ReducedBy(u: int, v: int, c: int, p: int, k: int, n: int)
    requires n > 0 && u == v + c * p - k * n
    ensures Cong(u, v + c * p, n)
  {
    NegDistributes(k, n);
    CongBy(u, v + c * p, -k, n);
  }

  /** First pass of `group_red`: `r -= c * order`, returning the borrow. */
  method GroupRedRow(r: array<Limb>, order: array<Limb>, c: Limb) returns (b: int)
    requires r != order && r.Length == order.Length
    modifies r
    ensures IsRow(r[..], b, old(V(r)), -(c as int), order[..])
  {
    hide IsRow, Val, Pow;
    ghost var row, ns := r[..], order[..];
    b := 0;
    var j := 0;
    RowNone(-(c as int));
    ValNone();
    assert row[..0] == [] && ns[..0] == [] && r[..0] == [];
    while j != r.Length
      invariant 0 <= j <= r.Length
      invariant -0x1_0000_0000 <= b <= 0
      invariant forall k :: j <= k < r.Length ==> r[k] == row[k]
      invariant IsRow(r[..j], b, Val(row[..j]), -(c as int), ns[..j])
    {
      ghost var done, b0 := r[..j], b;
      b := GroupRedAux(r, order[j], j, c, b);
      RowStep(done, b0, Val(row[..j]), -(c as int), ns[..j], r[j], b, row[j], ns[j]);
      ValSnoc(row, j);
      assert r[..j + 1] == done + [r[j]] && ns[..j + 1] == ns[..j] + [ns[j]];
      j := j + 1;
    }
    assert row[..j] == row && ns[..j] == ns && r[..j] == r[..];
  }

  /** `r = r * 2^32`, returning the limb that falls out at the top. */
  method ArrayShift(r: array<Limb>) returns (c: Limb)
    requires r.Length > 0
    modifies r
    ensures V(r) + c * Pow(r.Length) == 0x1_0000_0000 * old(V(r))
  {
    hide Val, Pow;
    var l := r.Length;
    ghost var was := r[..];
    c := r[l - 1];
    MoveUp(r);
    ShiftedLimb(was[..l - 1], c);
    assert was == was[..l - 1] + [c];
  }

  method MoveUp(r: array<Limb>)
    requires r.Length > 0
    modifies r
    ensures r[..] == [0] + old(r[..r.Length - 1])
  {
    var l := r.Length;
    ghost var was := r[..];
    var j := l - 1;
    while j != 0
      invariant 0 <= j <= l - 1
      invariant forall k :: 0 <= k <= j ==> r[k] == was[k]
      invariant forall k :: j < k < l ==> r[k] == was[k - 1]
    {
      r[j] := r[j - 1];
      j := j - 1;
    }
    r[0] := 0;
  }

  lemma ShiftedLimb(low: seq<Limb>, c: Limb)
    ensures Val([0] + low) + c * Pow(|low| + 1) == 0x1_0000_0000 * Val(low + [c])
  {
    hide Val, Pow;
    ValAppend([0], low);
    ValAppend(low, [c]);
    SingleLimb(0);
    SingleLimb(c);
    PowOne();
    PowAdd(1, |low|);
    assert c * (0x1_0000_0000 * Pow(|low|)) == 0x1_0000_0000 * (Pow(|low|) * c);
  }

  /** `r[j] += xi * yj + c`. */
  method GroupMulAux(r: array<Limb>, yj: Limb, j: nat, xi: Limb, c: Limb) returns (c': Limb)
    requires j < r.Length
    modifies r
    ensures r[..] == old(r[..])[j := r[j]]
    ensures r[j] + 0x1_0000_0000 * c' == c + xi * yj + old(r[j])
  {
    Product32(xi, yj);
    UnsignedSplit(xi as int * yj);
    var m := ToLong(xi as int * yj);
    var d := ToLong(c + (r[j] as int + Low(m)));
    r[j] := Low(d);
    GroupMulCarry(c, r[j], xi, yj, old(r[j]), Lsr32(d) + Lsr32(m));
    c' := Lsr32(d) + Lsr32(m);
  }

  lemma GroupMulCarry(c: Limb, z: Limb, x: Limb, y: Limb, r: Limb, c': int)
    requires z + 0x1_0000_0000 * c' == c + x * y + r
    ensures c' < 0x1_0000_0000
  {
    Product32(x, y);
  }

  /** `r += xi * y`, returning the limb of overflow. */
  method GroupMulRow(r: array<Limb>, xi: Limb, y: array<Limb>) returns (c: Limb)
    requires r != y && r.Length == y.Length
    modifies r
    ensures V(r) + c * Pow(r.Length) == old(V(r)) + xi * V(y)
  {
    hide IsRow, Val, Pow;
    ghost var row, ys := r[..], y[..];
    c := 0;
    var j := 0;
    RowNone(xi);
    ValNone();
    assert row[..0] == [] && ys[..0] == [] && r[..0] == [];
    while j != r.Length
      invariant 0 <= j <= r.Length
      invariant forall k :: j <= k < r.Length ==> r[k] == row[k]
      invariant IsRow(r[..j], c, Val(row[..j]), xi, ys[..j])
    {
      ghost var done, c0 := r[..j], c;
      c := GroupMulAux(r, y[j], j, xi, c);
      RowStep(done, c0, Val(row[..j]), xi, ys[..j], r[j], c, row[j], ys[j]);
      ValSnoc(row, j);
      assert r[..j + 1] == done + [r[j]] && ys[..j + 1] == ys[..j] + [ys[j]];
      j := j + 1;
    }
    assert row[..j] == row && ys[..j] == ys && r[..j] == r[..];
    RowEquation(r[..], c, Val(row), xi, ys);
  }

  lemma RowEquation(zs: seq<Limb>, d: int, v: int, x: int, ys: seq<Limb>)
    requires IsRow(zs, d, v, x, ys)
    ensures Val(zs) + d * Pow(|zs|) == v + x * Val(ys)
  {
  }

  /** `r = x * y (mod order)`, fully reduced, for all `x` and `y` of the order's width. */
  method GroupMul(r: array<Limb>, x: array<Limb>, y: array<Limb>, order: array<Limb>)
    requires r.Length == x.Length == y.Length == order.Length > 0
    requires r != x && r != y && r != order
    requires NearTop(V(order), r.Length)
    modifies r
    ensures V(r) == (V(x) * V(y)) % V(order)
  {
    hide Val, Pow, Cong, NearTop;
    var l := x.Length;
    ghost var n, xs, yv := V(order), x[..], V(y);
    NearTopPositive(n, l);
    SetZero(r);
    ValNone();
    assert xs[l..] == [];
    CongRefl(0, n);
    assert 0 * yv == 0;
    var i := l - 1;
    while i != -1
      invariant -1 <= i < l
      invariant Cong(V(r), Val(xs[i + 1..]) * yv, n)
    {
      ghost var v0 := V(r);
      var c := ArrayShift(r);
      ghost var v1 := V(r);
      GroupRed(r, order, c);
      ghost var v2 := V(r);
      c := GroupMulRow(r, x[i], y);
      ghost var v3 := V(r);
      GroupRed(r, order, c);
      assert xs[i..] == [xs[i]] + xs[i + 1..];
      ValAppend([xs[i]], xs[i + 1..]);
      SingleLimb(xs[i]);
      PowOne();
      HornerStep(v0, v2, V(r), xs[i], Val(xs[i + 1..]), Val(xs[i..]), yv, n);
      i := i - 1;
    }
    assert xs[0..] == xs;
    FinalReduction(r, order, V(x) * V(y));
  }

  lemma PowOne()
    ensures Pow(1) == 0x1_0000_0000
  {
  }

  lemma NearTopPositive(n: int, w: nat)
    requires NearTop(n, w)
    ensures 0 < n < Pow(w) <= 2 * n
  {
  }

  /** Horner's rule modulo `n`. */
  lemma HornerStep(v0: int, v2: int, v4: int, x: int, t: int, s: int, y: int, n: int)
    requires n > 0 && Cong(v0, t * y, n)
    requires Cong(v2, 0x1_0000_0000 * v0, n)
    requires Cong(v4, v2 + x * y, n)
    requires s == x + 0x1_0000_0000 * t
    ensures Cong(v4, s * y, n)
  {
    hide Cong;
    CongRefl(0x1_0000_0000, n);
    CongMul(0x1_0000_0000, 0x1_0000_0000, v0, t * y, n);
    CongTrans(v2, 0x1_0000_0000 * v0, 0x1_0000_0000 * (t * y), n);
    CongRefl(x * y, n);
    CongAdd(v2, 0x1_0000_0000 * (t * y), x * y, x * y, n);
    HornerArith(x, t, y);
    CongTrans(v4, v2 + x * y, s * y, n);
  }

  lemma HornerArith(x: int, t: int, y: int)
    ensures 0x1_0000_0000 * (t * y) + x * y == (x + 0x1_0000_0000 * t) * y
  {
  }

  /** Below `2^(32 w)`, one subtraction of the order is enough. */
  method FinalReduction(r: array<Limb>, order: array<Limb>, ghost product: int)
    requires r != order && r.Length == order.Length > 0
    requires NearTop(V(order), r.Length)
    requires Cong(V(r), product, V(order))
    modifies r
    ensures V(r) == product % V(order)
  {
    hide Val, Pow, Cong, NearTop;
    ghost var v, n, w := V(r), V(order), r.Length;
    NearTopPositive(n, w);
    ValBound(r[..]);
    var above := Leq(order, r);
    if above {
      var d := Sub(r, r, order);
      CongBy(V(r), v, -1, n);
      CongTrans(V(r), v, product, n);
    }
    CongReduced(V(r), product, n);
  }
}
