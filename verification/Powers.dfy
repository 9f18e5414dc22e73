/** Powers of two, and division by them. */
module Powers {
  import opened Words
  import opened ModArith

  function Two(n: nat): (r: int)
    ensures r >= 1
  {
    if n == 0 then 1 else 2 * Two(n - 1)
  }

  lemma {:induction false} TwoAdd(m: nat, n: nat)
    ensures Two(m + n) == Two(m) * Two(n)
  {
    if n != 0 {
      TwoAdd(m, n - 1);
      calc {
        Two(m + n);
        2 * (Two(m) * Two(n - 1));
        Two(m) * (2 * Two(n - 1));
      }
    }
  }

  lemma TwoThirtyTwo()
    ensures Two(32) == 0x1_0000_0000 && Two(31) == 0x8000_0000
  {
    assert Two(8) == 0x100;
    TwoAdd(8, 8);
    TwoAdd(16, 8);
    TwoAdd(24, 7);
    assert Two(7) == 0x80;
  }

  /** Dividing twice is dividing by the product. */
  lemma DivDiv(v: int, a: int, b: int)
    requires a > 0 && b > 0
    ensures a * b > 0 && v / (a * b) == (v / a) / b
  {
    var q, r := v / a, v % a;
    var q', r' := q / b, q % b;
    MulLe(1, b, a);
    assert v == (a * b) * q' + (a * r' + r) by {
      assert v == a * q + r && q == b * q' + r';
      assert a * (b * q' + r') == (a * b) * q' + a * r';
    }
    MulLe(r', b - 1, a);
    assert (b - 1) * a == a * b - a && r' * a == a * r';
    DivModUnique(v, q', a * r' + r, a * b);
  }
}
