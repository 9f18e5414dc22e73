/** Integer multiples of curve points.  Closure, commutativity, the neutral element and opposites of the
    chord and tangent law are proved in `Curves`; associativity is the one group law taken as given.
 */
module Multiples {
  import opened Curves

  ghost predicate Associative(c: Curve)
  {
    forall q: Point, r: Point, s: Point | OnCurve(c, q) && OnCurve(c, r) && OnCurve(c, s) ::
      Plus(c, Plus(c, q, r), s) == Plus(c, q, Plus(c, r, s))
  }

  ghost predicate IsGroup(c: Curve) {
    IsField(c) && Associative(c)
  }

  lemma Assoc(c: Curve, q: Point, r: Point, s: Point)
    requires IsGroup(c) && OnCurve(c, q) && OnCurve(c, r) && OnCurve(c, s)
    ensures Plus(c, Plus(c, q, r), s) == Plus(c, q, Plus(c, r, s))
    ensures OnCurve(c, Plus(c, q, r)) && OnCurve(c, Plus(c, r, s))
  {
    hide Plus, OnCurve, IsField;
    PlusClosed(c, q, r);
    PlusClosed(c, r, s);
  }

  /** `k` times `q`, for `k` of either sign. */
  ghost function Times(c: Curve, k: int, q: Point): Point
    decreases if k < 0 then -k else k
  {
    if k == 0 then Infinity
    else if k > 0 then Plus(c, Times(c, k - 1, q), q)
    else Plus(c, Times(c, k + 1, q), Neg(c, q))
  }

  lemma {:induction false} TimesClosed(c: Curve, k: int, q: Point)
    requires IsGroup(c) && OnCurve(c, q)
    ensures OnCurve(c, Times(c, k, q))
    decreases if k < 0 then -k else k
  {
    hide Plus, Neg, Associative, IsField;
    assert IsField(c);
    if k > 0 {
      TimesClosed(c, k - 1, q);
      PlusClosed(c, Times(c, k - 1, q), q);
    } else if k < 0 {
      TimesClosed(c, k + 1, q);
      NegClosed(c, q);
      PlusClosed(c, Times(c, k + 1, q), Neg(c, q));
    }
  }

  lemma TimesSucc(c: Curve, k: int, q: Point)
    requires IsGroup(c) && OnCurve(c, q)
    ensures Times(c, k + 1, q) == Plus(c, Times(c, k, q), q)
  {
    if k < 0 {
      var r := Times(c, k + 1, q);
      TimesClosed(c, k + 1, q);
      NegClosed(c, q);
      Assoc(c, r, Neg(c, q), q);
      PlusNeg(c, q);
      assert Plus(c, r, Infinity) == r;
    }
  }

  lemma TimesPred(c: Curve, k: int, q: Point)
    requires IsGroup(c) && OnCurve(c, q)
    ensures Times(c, k - 1, q) == Plus(c, Times(c, k, q), Neg(c, q))
  {
    if k > 0 {
      var r := Times(c, k - 1, q);
      TimesClosed(c, k - 1, q);
      NegClosed(c, q);
      Assoc(c, r, q, Neg(c, q));
      PlusNeg(c, q);
      assert Plus(c, r, Infinity) == r;
    }
  }

  /** Multiples add up. */
  lemma {:induction false} TimesPlus(c: Curve, j: int, k: int, q: Point)
    requires IsGroup(c) && OnCurve(c, q)
    ensures Times(c, j + k, q) == Plus(c, Times(c, j, q), Times(c, k, q))
    decreases if k < 0 then -k else k
  {
    hide Plus, OnCurve, IsGroup, Neg;
    TimesClosed(c, j, q);
    if k == 0 {
      PlusInfinity(c, Times(c, j, q));
    } else if k > 0 {
      TimesPlus(c, j, k - 1, q);
      TimesClosed(c, k - 1, q);
      Assoc(c, Times(c, j, q), Times(c, k - 1, q), q);
      TimesSucc(c, j + (k - 1), q);
    } else {
      TimesPlus(c, j, k + 1, q);
      TimesClosed(c, k + 1, q);
      NegClosedGroup(c, q);
      Assoc(c, Times(c, j, q), Times(c, k + 1, q), Neg(c, q));
      TimesPred(c, j + (k + 1), q);
    }
  }

  lemma NegClosedGroup(c: Curve, q: Point)
    requires IsGroup(c) && OnCurve(c, q)
    ensures OnCurve(c, Neg(c, q))
  {
    NegClosed(c, q);
  }

  lemma PlusInfinity(c: Curve, q: Point)
    ensures Plus(c, q, Infinity) == q && Plus(c, Infinity, q) == q
  {
  }

  lemma TimesOne(c: Curve, q: Point)
    ensures Times(c, 1, q) == q
  {
    assert Times(c, 0, q) == Infinity;
  }

  /** An opposite is unique. */
  lemma NegUnique(c: Curve, q: Point, r: Point)
    requires IsGroup(c) && OnCurve(c, q) && OnCurve(c, r) && Plus(c, q, r) == Infinity
    ensures r == Neg(c, q)
  {
    hide Plus, OnCurve, Neg;
    NegClosedGroup(c, q);
    Assoc(c, Neg(c, q), q, r);
    PlusNeg(c, q);
    PlusInfinity(c, r);
    PlusInfinity(c, Neg(c, q));
  }

  lemma TimesZero(c: Curve, q: Point)
    ensures Times(c, 0, q) == Infinity
  {
  }

  lemma TimesNeg(c: Curve, k: int, q: Point)
    requires IsGroup(c) && OnCurve(c, q)
    ensures Times(c, -k, q) == Neg(c, Times(c, k, q))
  {
    hide Plus, OnCurve, Neg, Times, IsGroup;
    TimesPlus(c, k, -k, q);
    assert k + -k == 0;
    TimesZero(c, q);
    TimesClosed(c, k, q);
    TimesClosed(c, -k, q);
    NegUnique(c, Times(c, k, q), Times(c, -k, q));
  }

  lemma TimesSub(c: Curve, j: int, k: int, q: Point)
    requires IsGroup(c) && OnCurve(c, q)
    ensures Times(c, j - k, q) == Plus(c, Times(c, j, q), Neg(c, Times(c, k, q)))
  {
    hide Plus, OnCurve, Neg, Times;
    TimesPlus(c, j, -k, q);
    TimesNeg(c, k, q);
  }

  /** Multiples of multiples. */
  lemma {:induction false} TimesTimes(c: Curve, j: int, k: int, q: Point)
    requires IsGroup(c) && OnCurve(c, q)
    ensures Times(c, j, Times(c, k, q)) == Times(c, j * k, q)
    decreases if j < 0 then -j else j
  {
    hide Plus, OnCurve, Neg, IsGroup;
    TimesClosed(c, k, q);
    if j > 0 {
      TimesTimes(c, j - 1, k, q);
      TimesPlus(c, (j - 1) * k, k, q);
      assert (j - 1) * k + k == j * k;
    } else if j < 0 {
      TimesTimes(c, j + 1, k, q);
      TimesSub(c, (j + 1) * k, k, q);
      assert (j + 1) * k - k == j * k;
    } else {
      assert 0 * k == 0;
    }
  }

  // Combinations of two points

  ghost function Combination(c: Curve, j: int, q: Point, k: int, r: Point): Point
  {
    Plus(c, Times(c, j, q), Times(c, k, r))
  }

  lemma CombinationClosed(c: Curve, j: int, q: Point, k: int, r: Point)
    requires IsGroup(c) && OnCurve(c, q) && OnCurve(c, r)
    ensures OnCurve(c, Combination(c, j, q, k, r))
  {
    hide Plus, Times;
    TimesClosed(c, j, q);
    TimesClosed(c, k, r);
    PlusClosed(c, Times(c, j, q), Times(c, k, r));
  }

  /** Four points regroup. */
  lemma Interchange(c: Curve, a: Point, b: Point, d: Point, e: Point)
    requires IsGroup(c) && OnCurve(c, a) && OnCurve(c, b) && OnCurve(c, d) && OnCurve(c, e)
    ensures Plus(c, Plus(c, a, b), Plus(c, d, e)) == Plus(c, Plus(c, a, d), Plus(c, b, e))
  {
    hide Plus, OnCurve, Associative, IsField;
    assert IsField(c);
    PlusClosed(c, d, e);
    PlusClosed(c, b, e);
    Assoc(c, a, b, Plus(c, d, e));
    Assoc(c, b, d, e);
    PlusCommutes(c, b, d);
    Assoc(c, d, b, e);
    Assoc(c, a, d, Plus(c, b, e));
  }

  lemma CombinationAdd(c: Curve, j: int, k: int, j': int, k': int, q: Point, r: Point)
    requires IsGroup(c) && OnCurve(c, q) && OnCurve(c, r)
    ensures Combination(c, j + j', q, k + k', r)
         == Plus(c, Combination(c, j, q, k, r), Combination(c, j', q, k', r))
  {
    hide Plus, Times, OnCurve, IsGroup;
    TimesClosed(c, j, q);
    TimesClosed(c, j', q);
    TimesClosed(c, k, r);
    TimesClosed(c, k', r);
    TimesPlus(c, j, j', q);
    TimesPlus(c, k, k', r);
    Interchange(c, Times(c, j, q), Times(c, k, r), Times(c, j', q), Times(c, k', r));
  }

  /** The opposite of a combination has the opposite coefficients. */
  lemma CombinationNeg(c: Curve, j: int, k: int, q: Point, r: Point)
    requires IsGroup(c) && OnCurve(c, q) && OnCurve(c, r)
    ensures Neg(c, Combination(c, j, q, k, r)) == Combination(c, -j, q, -k, r)
  {
    hide Plus, Times, OnCurve, Neg, Combination, IsGroup;
    CombinationClosed(c, j, q, k, r);
    CombinationClosed(c, -j, q, -k, r);
    CombinationAdd(c, j, k, -j, -k, q, r);
    assert j + -j == 0 && k + -k == 0;
    CombinationZero(c, q, r);
    NegUnique(c, Combination(c, j, q, k, r), Combination(c, -j, q, -k, r));
  }

  lemma CombinationZero(c: Curve, q: Point, r: Point)
    ensures Combination(c, 0, q, 0, r) == Infinity
  {
  }

  lemma CombinationSub(c: Curve, j: int, k: int, j': int, k': int, q: Point, r: Point)
    requires IsGroup(c) && OnCurve(c, q) && OnCurve(c, r)
    ensures Combination(c, j - j', q, k - k', r)
         == Plus(c, Combination(c, j, q, k, r), Neg(c, Combination(c, j', q, k', r)))
  {
    hide Plus, Times, OnCurve, IsGroup, Combination, Neg;
    CombinationAdd(c, j, k, -j', -k', q, r);
    CombinationNeg(c, j', k', q, r);
  }
}
