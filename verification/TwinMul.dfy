/** `ec_twin_mul`: d0 * s + d1 * t by simultaneous signed windows of six bits. */
module TwinMultiplication {
  import opened Words
  import opened Limbs
  import opened ModArith
  import opened Powers
  import opened Recoding

  // The recoding

  /** The low six bits of a window, read as a signed number. */
  function Window(c: Limb): int {
    if (c / 32) % 2 == 0 then c % 32 else c % 32 - 32
  }

  /** `ec_twin_mul_aux_f`. */
  function Threshold(t: int): int {
    if 18 <= t < 22 then 9
    else if 14 <= t < 18 then 10
    else if 22 <= t < 24 then 11
    else if 4 <= t < 12 then 14
    else 12
  }

  /** The window's magnitude as the code computes it: `31 - (c & 0x1F)` below zero. */
  function Magnitude(c: Limb): int {
    if (c / 32) % 2 != 0 then 31 - c % 32 else c % 32
  }

  /** `((less ? 0 : 0x20) ^ (c << 1)) | (e >>> shift) & 1`, the shift dropping what leaves the word. */
  function NextWindow(less: bool, c: Limb, bit: int): Limb
    requires 0 <= bit <= 1
  {
    var doubled := (2 * (c as int)) % 0x1_0000_0000;
    (if less then doubled else if (doubled / 32) % 2 == 0 then doubled + 32 else doubled - 32) + bit
  }

  function DigitOf(less: bool, c: Limb): int {
    if less then 0 else if (c / 32) % 2 != 0 then -1 else 1
  }

  /** What `ec_twin_mul_aux2` leaves in its result record. */
  datatype TwinStep = TwinStep(u0: int, u1: int, c0: Limb, c1: Limb, e0: Limb, e1: Limb, shift: int)

  /** `ec_twin_mul_aux2`: the two digits, the shifted windows, and where the next bits come from. */
  function Aux2(c0: Limb, c1: Limb, e0: Limb, e1: Limb, shift: nat, d0i: Limb, d1i: Limb, dv1: bool,
                dv2: bool): TwinStep
  {
    var h0, h1 := Magnitude(c0), Magnitude(c1);
    var h0Less, h1Less := h0 < Threshold(h1), h1 < Threshold(h0);
    var n0, n1 := NextWindow(h0Less, c0, Bit(e0, shift)), NextWindow(h1Less, c1, Bit(e1, shift));
    var u0, u1 := DigitOf(h0Less, c0), DigitOf(h1Less, c1);
    if dv1 then
      if dv2 then TwinStep(u0, u1, n0, n1, d0i, d1i, 31) else TwinStep(u0, u1, n0, n1, 0, 0, 31)
    else TwinStep(u0, u1, n0, n1, e0, e1, shift - 1)
  }

  /** One window: while it is above -32 the step is exact in integers, and it stays above -32.  Any
      threshold from 1 to 15 would do. */
  lemma WindowStep(c: Limb, t: int, bit: int)
    requires 0 <= bit <= 1 && 9 <= t <= 14 && Window(c) > -32
    ensures var less := Magnitude(c) < t;
      var u, w := DigitOf(less, c), Window(NextWindow(less, c, bit));
      && -1 <= u <= 1
      && w == 2 * (Window(c) - 16 * u) + bit
      && -32 < w < 32
  {
    hide Window, Magnitude, NextWindow;
    WindowIs(c);
    NextWindowIs(Magnitude(c) < t, c, bit);
  }

  /** Only the low six bits of a window matter. */
  lemma WindowIs(c: Limb)
    ensures var r := c % 64;
      && Window(c) == (if r < 32 then r else r - 64)
      && Magnitude(c) == (if r < 32 then r else 63 - r)
      && ((c / 32) % 2 == 0 <==> r < 32)
  {
    LowSix(c, c / 64, c % 64);
  }

  /** The low six bits of the next window. */
  function NextLow(less: bool, r: int, bit: int): int {
    var doubled := if r < 32 then 2 * r else 2 * r - 64;
    (if less then doubled else if doubled < 32 then doubled + 32 else doubled - 32) + bit
  }

  lemma NextWindowIs(less: bool, c: Limb, bit: int)
    requires 0 <= bit <= 1
    ensures var r := NextLow(less, c % 64, bit);
      0 <= r < 64 && Window(NextWindow(less, c, bit)) == (if r < 32 then r else r - 64)
  {
    var doubled := (2 * (c as int)) % 0x1_0000_0000;
    var low := if c % 64 < 32 then 2 * (c % 64) else 2 * (c % 64) - 64;
    DoubledLow(c);
    LowSix(doubled, doubled / 64, low);
    var n: int := NextWindow(less, c, bit);
    LowSix(n, doubled / 64, NextLow(less, c % 64, bit));
  }

  lemma DoubledLow(c: Limb)
    ensures ((2 * (c as int)) % 0x1_0000_0000) % 64 == (if c % 64 < 32 then 2 * (c % 64) else 2 * (c % 64) - 64)
  {
  }

  lemma LowSix(v: int, q: int, r: int)
    requires v == 64 * q + r && 0 <= r < 64
    ensures v % 32 == (if r < 32 then r else r - 32) && (v / 32) % 2 == (if r < 32 then 0 else 1)
  {
  }

  lemma ThresholdRange(t: int)
    ensures 9 <= Threshold(t) <= 14
  {
  }

  /** What has been shifted in before step `k`: all bits of `d` from `k + 1` up, then zeros. */
  function Consumed(d: int, k: int): int {
    if k + 1 >= 0 then d / Two(k + 1) else d * Two(-(k + 1))
  }

  lemma ConsumedStep(d: int, k: int)
    ensures Consumed(d, k - 1) == 2 * Consumed(d, k) + (if k >= 0 then Bit(d, k) else 0)
  {
    if k >= 0 {
      HalfStep(d, k);
    } else {
      assert Two(-k) == 2 * Two(-(k + 1));
      if k == -1 {
        assert Two(0) == 1;
      }
      assert d * (2 * Two(-(k + 1))) == 2 * (d * Two(-(k + 1)));
    }
  }

  /** The invariant of one scalar: the collected multiple and the window make up the bits consumed. */
  ghost predicate Windowed(d: int, k: int, c: Limb, m: int) {
    && -32 < Window(c) < 32
    && Window(c) + 32 * m == Consumed(d, k)
  }

  lemma WindowedStart(d: seq<Limb>)
    requires |d| == 12
    ensures Windowed(Val(d), 379, d[11] / 0x1000_0000, 0)
  {
    hide Val, Two, Pow;
    var low := d[..11];
    assert d == low + [d[11]];
    ValAppend(low, [d[11]]);
    SingleLimb(d[11]);
    ValBound(low);
    PowIsTwo(11);
    TwoAdd(352, 28);
    DivDiv(Val(d), Two(352), Two(28));
    DivModUnique(Val(d), d[11], Val(low), Two(352));
    TwoTwentyEight();
    assert (d[11] / 0x1000_0000) / 32 == 0;
  }

  lemma TwoTwentyEight()
    ensures Two(28) == 0x1000_0000
  {
    assert Two(7) == 0x80;
    TwoAdd(7, 7);
    TwoAdd(14, 7);
    TwoAdd(21, 7);
  }

  lemma WindowedStep(d: int, k: int, c: Limb, m: int, t: int, bit: int)
    requires Windowed(d, k, c, m) && 9 <= t <= 14
    requires 0 <= bit <= 1 && bit == if k >= 0 then Bit(d, k) else 0
    ensures var less := Magnitude(c) < t;
      && -1 <= DigitOf(less, c) <= 1
      && Windowed(d, k - 1, NextWindow(less, c, bit), 2 * m + DigitOf(less, c))
  {
    hide Window, NextWindow, DigitOf, Magnitude, Consumed;
    WindowStep(c, t, bit);
    ConsumedStep(d, k);
  }

  /** After 385 steps the window is empty and the digits sum to the scalar. */
  lemma WindowedDone(d: int, c: Limb, m: int)
    requires Windowed(d, -6, c, m)
    ensures Window(c) == 0 && m == d
  {
    assert Two(1) == 2 && Two(3) == 8;
    assert Two(5) == 32;
  }

  /** Where the next bit is read: limb `k / 32` at `k % 32`, or a zero limb below the number. */
  ghost predicate ReadsBit(d: seq<Limb>, k: int, e: Limb, shift: int) {
    && |d| == 12 && k < 384 && 0 <= shift < 32
    && shift == k % 32
    && e == if k >= 0 then d[k / 32] else 0
  }

  lemma ReadBit(d: seq<Limb>, k: int, e: Limb, shift: int)
    requires ReadsBit(d, k, e, shift)
    ensures Bit(e, shift) == if k >= 0 then Bit(Val(d), k) else 0
  {
    if k >= 0 {
      LimbBit(d, k / 32, k % 32);
    } else {
      DivModUnique(0, 0, 0, Two(shift));
    }
  }

  /** Both scalars before step `k`: windows, collected multiples, and the limbs being read. */
  ghost predicate Twin(d0: seq<Limb>, d1: seq<Limb>, k: int, c0: Limb, c1: Limb, e0: Limb, e1: Limb, shift: int,
                       m0: int, m1: int) {
    && Windowed(Val(d0), k, c0, m0) && Windowed(Val(d1), k, c1, m1)
    && ReadsBit(d0, k, e0, shift) && ReadsBit(d1, k, e1, shift)
  }

  lemma TwinStart(d0: seq<Limb>, d1: seq<Limb>)
    requires |d0| == |d1| == 12
    ensures Twin(d0, d1, 379, d0[11] / 0x1000_0000, d1[11] / 0x1000_0000, d0[11], d1[11], 27, 0, 0)
  {
    hide Windowed;
    WindowedStart(d0);
    WindowedStart(d1);
  }

  /** The limbs that `ec_twin_mul` hands to `ec_twin_mul_aux2` at step `k`. */
  function Fetch(d: seq<Limb>, k: int): Limb
    requires |d| == 12 && k < 384
  {
    if k % 32 == 0 && k / 32 - 1 >= 0 then d[k / 32 - 1] else 0
  }

  /** One step keeps the invariant and appends one digit to each multiple. */
  lemma TwinAdvances(d0: seq<Limb>, d1: seq<Limb>, k: int, c0: Limb, c1: Limb, e0: Limb, e1: Limb, shift: int,
                     m0: int, m1: int)
    requires Twin(d0, d1, k, c0, c1, e0, e1, shift, m0, m1) && k > -6
    ensures var n := Aux2(c0, c1, e0, e1, shift, Fetch(d0, k), Fetch(d1, k), k % 32 == 0, k / 32 - 1 >= 0);
      && -1 <= n.u0 <= 1 && -1 <= n.u1 <= 1 && 0 <= n.shift < 32
      && Twin(d0, d1, k - 1, n.c0, n.c1, n.e0, n.e1, n.shift, 2 * m0 + n.u0, 2 * m1 + n.u1)
  {
    hide Windowed, Val, Threshold, NextWindow, DigitOf, Magnitude, Bit;
    ReadBit(d0, k, e0, shift);
    ReadBit(d1, k, e1, shift);
    ThresholdRange(Magnitude(c0));
    ThresholdRange(Magnitude(c1));
    BitIs01(e0, shift);
    BitIs01(e1, shift);
    WindowedStep(Val(d0), k, c0, m0, Threshold(Magnitude(c1)), Bit(e0, shift));
    WindowedStep(Val(d1), k, c1, m1, Threshold(Magnitude(c0)), Bit(e1, shift));
  }

  lemma BitIs01(v: int, j: nat)
    ensures 0 <= Bit(v, j) <= 1
  {
  }

  lemma TwinDone(d0: seq<Limb>, d1: seq<Limb>, c0: Limb, c1: Limb, e0: Limb, e1: Limb, shift: int, m0: int, m1: int)
    requires Twin(d0, d1, -6, c0, c1, e0, e1, shift, m0, m1)
    ensures m0 == Val(d0) && m1 == Val(d1)
  {
    hide Windowed;
    WindowedDone(Val(d0), c0, m0);
    WindowedDone(Val(d1), c1, m1);
  }
}
