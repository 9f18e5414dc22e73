/** Step lemmas for calculating with residues: each modular operation of the curve code keeps a
    congruence with the polynomial it stands for.
 */
module Residues {
  import opened ModArith

  // The field operations

  function FMul(p: int, a: int, b: int): int
    requires p > 0
  {
    (a * b) % p
  }

  function FAdd(p: int, a: int, b: int): int
    requires p > 0
  {
    (a + b) % p
  }

  function FSub(p: int, a: int, b: int): int
    requires p > 0
  {
    (a - b) % p
  }

  /** `a - 2 b`, the code's `field_dbl_dec`. */
  function FSub2(p: int, a: int, b: int): int
    requires p > 0
  {
    (a - 2 * b) % p
  }

  lemma RMul(a: int, b: int, a': int, b': int, p: int)
    requires p > 0 && Cong(a, a', p) && Cong(b, b', p)
    ensures Cong((a * b) % p, a' * b', p)
  {
    hide Cong;
    CongMul(a, a', b, b', p);
    ModCong(a * b, p);
    CongTrans((a * b) % p, a * b, a' * b', p);
  }

  lemma RAdd(a: int, b: int, a': int, b': int, p: int)
    requires p > 0 && Cong(a, a', p) && Cong(b, b', p)
    ensures Cong((a + b) % p, a' + b', p)
  {
    hide Cong;
    CongAdd(a, a', b, b', p);
    ModCong(a + b, p);
    CongTrans((a + b) % p, a + b, a' + b', p);
  }

  lemma RSub(a: int, b: int, a': int, b': int, p: int)
    requires p > 0 && Cong(a, a', p) && Cong(b, b', p)
    ensures Cong((a - b) % p, a' - b', p)
  {
    hide Cong;
    CongAdd(a, a', b, b', p);
    ModCong(a - b, p);
    CongTrans((a - b) % p, a - b, a' - b', p);
  }

  lemma CongScale(k: int, a: int, b: int, p: int)
    requires p > 0 && Cong(a, b, p)
    ensures Cong(k * a, k * b, p)
  {
    hide Cong;
    CongRefl(k, p);
    CongMul(k, k, a, b, p);
  }

  lemma CongSquare(a: int, b: int, p: int)
    requires p > 0 && Cong(a, b, p)
    ensures Cong(a * a, b * b, p)
  {
    hide Cong;
    CongMul(a, b, a, b, p);
  }

  lemma CongCube(a: int, b: int, p: int)
    requires p > 0 && Cong(a, b, p)
    ensures Cong(a * a * a, b * b * b, p)
  {
    hide Cong;
    CongMul(a, b, a, b, p);
    CongMul(a * a, b * b, a, b, p);
  }

  /** Reduced residues are equal when congruent. */
  lemma CongEqual(a: int, b: int, p: int)
    requires p > 0 && Cong(a, b, p) && 0 <= a < p && 0 <= b < p
    ensures a == b
  {
    hide Cong;
    CongMod(a, b, p);
    DivModUnique(a, 0, a, p);
    DivModUnique(b, 0, b, p);
  }

  lemma CongDifference(a: int, b: int, p: int)
    requires p > 0
    ensures Cong(a - b, 0, p) <==> Cong(a, b, p)
  {
    hide Cong;
    CongRefl(b, p);
    if Cong(a - b, 0, p) {
      CongAdd(a - b, 0, b, b, p);
    }
    if Cong(a, b, p) {
      CongAdd(a, b, b, b, p);
    }
  }

  lemma NonzeroProduct(a: int, b: int, p: int)
    requires IsPrime(p) && !Cong(a, 0, p) && !Cong(b, 0, p)
    ensures !Cong(a * b, 0, p)
  {
    hide Cong, IsPrime;
    assert p > 0 by { PrimePositive(p); }
    if Cong(a * b, 0, p) {
      NoZeroDivisors(a, b, p);
    }
  }

  lemma PrimePositive(p: int)
    requires IsPrime(p)
    ensures p > 1
  {
  }

  lemma SmallNonzero(k: int, p: int)
    requires 0 < k < p
    ensures !Cong(k, 0, p)
  {
    hide Cong;
    if Cong(k, 0, p) {
      CongEqual(k, 0, p);
    }
  }

  lemma ZeroTimes(a: int, b: int, p: int)
    requires p > 0 && Cong(a, 0, p)
    ensures Cong(a * b, 0, p) && Cong(b * a, 0, p)
  {
    hide Cong;
    CongRefl(b, p);
    CongMul(a, 0, b, b, p);
    assert b * a == a * b;
  }
}
