/** Whether two nonces under one key can lead zuc.c into the same state: never in the later build, its S-boxes
    being one to one, and in version 1.4 after the first round exactly for the pairs described here.
 */
module ZucNonces {
  import opened Words
  import opened ModArith
  import opened Powers
  import opened Bytes
  import opened WordBits
  import opened Zuc

  // The linear transforms lose nothing

  /** The difference of two words, bit by bit. */
  ghost function Differences(x: Limb, y: Limb): (e: seq<bool>)
    ensures |e| == 32
  {
    seq(32, i requires 0 <= i < 32 => Bit(x, i) != Bit(y, i))
  }

  /** The place of 32 that a rotation by `d` moves to place `i`. */
  function Place(i: nat, d: nat): (p: nat)
    requires i < 32 && d < 32
    ensures p < 32
  {
    if i < d then i + 32 - d else i - d
  }

  function Both(d: nat, d': nat): (t: nat)
    requires d < 32 && d' < 32
    ensures t < 32
  {
    if d + d' < 32 then d + d' else d + d' - 32
  }

  /** Bit `i` after a rotation by `d`. */
  ghost predicate Turned(e: seq<bool>, d: nat, i: nat)
    requires |e| == 32 && d < 32 && i < 32
  {
    e[Place(i, d)]
  }

  ghost predicate Sum5(a: bool, b: bool, c: bool, d: bool, e: bool) {
    (((a != b) != c) != d) != e
  }

  lemma BitOfRot(x: Limb, k: nat, i: nat)
    requires 0 < k < 32 && i < 32
    ensures Bit(Rot(x, k), i) == Bit(x, Place(i, k))
  {
    hide Two, Bit, RotL;
    TwoThirtyTwo();
    BitRotated(x, k, 32, i);
  }

  lemma BitOfXor32(a: Limb, b: Limb, i: nat)
    requires i < 32
    ensures Bit(Xor32(a, b), i) == (Bit(a, i) != Bit(b, i))
  {
    hide Two, Bit, Xor;
    BitOfXor(a, b, 32, i);
  }

  /** A word and its four rotations. */
  function Mixed(x: Limb, a: nat, b: nat, c: nat, d: nat): Limb
    requires 0 < a < 32 && 0 < b < 32 && 0 < c < 32 && 0 < d < 32
  {
    Xor32(Xor32(Xor32(Xor32(x, Rot(x, a)), Rot(x, b)), Rot(x, c)), Rot(x, d))
  }

  lemma BitOfMixed(x: Limb, a: nat, b: nat, c: nat, d: nat, i: nat)
    requires 0 < a < 32 && 0 < b < 32 && 0 < c < 32 && 0 < d < 32 && i < 32
    ensures Bit(Mixed(x, a, b, c, d), i)
         == Sum5(Bit(x, i), Bit(x, Place(i, a)), Bit(x, Place(i, b)),
                 Bit(x, Place(i, c)), Bit(x, Place(i, d)))
  {
    hide Bit, Xor32, Rot;
    BitOfRot(x, a, i);
    BitOfRot(x, b, i);
    BitOfRot(x, c, i);
    BitOfRot(x, d, i);
    BitOfXor32(x, Rot(x, a), i);
    BitOfXor32(Xor32(x, Rot(x, a)), Rot(x, b), i);
    BitOfXor32(Xor32(Xor32(x, Rot(x, a)), Rot(x, b)), Rot(x, c), i);
    BitOfXor32(Xor32(Xor32(Xor32(x, Rot(x, a)), Rot(x, b)), Rot(x, c)), Rot(x, d), i);
  }

  /** Bit `i` of the transforms: the sum of the bits that the rotations by 0, 2, 10, 18 and 24 to the left,
      and by 0, 8, 14, 22 and 30, bring there. */
  lemma TransformBits(x: Limb, i: nat)
    requires i < 32
    ensures Bit(L1(x), i)
         == Sum5(Bit(x, i), Bit(x, Place(i, 2)), Bit(x, Place(i, 10)), Bit(x, Place(i, 18)), Bit(x, Place(i, 24)))
    ensures Bit(L2(x), i)
         == Sum5(Bit(x, i), Bit(x, Place(i, 8)), Bit(x, Place(i, 14)), Bit(x, Place(i, 22)), Bit(x, Place(i, 30)))
  {
    hide Bit, Sum5, Xor32, Rot;
    BitOfMixed(x, 2, 10, 18, 24, i);
    BitOfMixed(x, 8, 14, 22, 30, i);
  }

  /** Equal results: in every place an even number of the five differences is set. */
  lemma MixedEven(x: Limb, y: Limb, a: nat, b: nat, c: nat, d: nat, i: nat)
    requires 0 < a < 32 && 0 < b < 32 && 0 < c < 32 && 0 < d < 32 && i < 32
    requires Mixed(x, a, b, c, d) == Mixed(y, a, b, c, d)
    ensures var e := Differences(x, y);
      !Sum5(e[i], Turned(e, a, i), Turned(e, b, i), Turned(e, c, i), Turned(e, d, i))
  {
    hide Bit, Mixed;
    BitOfMixed(x, a, b, c, d, i);
    BitOfMixed(y, a, b, c, d, i);
  }

  lemma TurnedTwice(e: seq<bool>, d: nat, i: nat, d': nat)
    requires |e| == 32 && d < 32 && d' < 32 && i < 32
    ensures Turned(e, d', Place(i, d)) == Turned(e, Both(d, d'), i)
    ensures e[Place(i, d)] == Turned(e, d, i) && e[i] == Turned(e, 0, i)
  {
  }

  /** `L1` squared is the word, turned by 16, and turned by 20. */
  lemma SquaredL1(e: seq<bool>, i: nat)
    requires |e| == 32 && i < 32
    requires forall j: nat :: j < 32 ==>
      !Sum5(e[j], Turned(e, 2, j), Turned(e, 10, j), Turned(e, 18, j), Turned(e, 24, j))
    ensures (e[i] != Turned(e, 16, i)) == Turned(e, 20, i)
  {
    hide Turned;
    SumTurned(e, i, 0, 2, 10, 18, 24);
    SumTurned(e, i, 2, 2, 10, 18, 24);
    SumTurned(e, i, 10, 2, 10, 18, 24);
    SumTurned(e, i, 18, 2, 10, 18, 24);
    SumTurned(e, i, 24, 2, 10, 18, 24);
  }

  lemma SumTurned(e: seq<bool>, i: nat, t: nat, a: nat, b: nat, c: nat, d: nat)
    requires |e| == 32 && i < 32 && t < 32 && a < 32 && b < 32 && c < 32 && d < 32
    requires forall j: nat :: j < 32 ==> !Sum5(e[j], Turned(e, a, j), Turned(e, b, j), Turned(e, c, j), Turned(e, d, j))
    ensures !Sum5(Turned(e, t, i), Turned(e, Both(t, a), i), Turned(e, Both(t, b), i),
                  Turned(e, Both(t, c), i), Turned(e, Both(t, d), i))
    ensures e[i] == Turned(e, 0, i)
  {
    hide Turned;
    var j := Place(i, t);
    TurnedTwice(e, t, i, a);
    TurnedTwice(e, t, i, b);
    TurnedTwice(e, t, i, c);
    TurnedTwice(e, t, i, d);
    assert !Sum5(e[j], Turned(e, a, j), Turned(e, b, j), Turned(e, c, j), Turned(e, d, j));
  }

  /** `L2` squared is the word, turned by 16, and turned by 12. */
  lemma SquaredL2(e: seq<bool>, i: nat)
    requires |e| == 32 && i < 32
    requires forall j: nat :: j < 32 ==>
      !Sum5(e[j], Turned(e, 8, j), Turned(e, 14, j), Turned(e, 22, j), Turned(e, 30, j))
    ensures (e[i] != Turned(e, 16, i)) == Turned(e, 12, i)
  {
    hide Turned;
    SumTurned(e, i, 0, 8, 14, 22, 30);
    SumTurned(e, i, 8, 8, 14, 22, 30);
    SumTurned(e, i, 14, 8, 14, 22, 30);
    SumTurned(e, i, 22, 8, 14, 22, 30);
    SumTurned(e, i, 30, 8, 14, 22, 30);
  }

  /** Squared once more, only a rotation is left, so that no difference is. */
  lemma NoneLeft(e: seq<bool>, q: nat, i: nat)
    requires |e| == 32 && q < 32 && i < 32
    requires forall j: nat :: j < 32 ==> (e[j] != Turned(e, 16, j)) == Turned(e, q, j)
    ensures !e[i]
  {
    hide Turned;
    var h := Both(i, Both(q, q));
    TurnedTwice(e, 16, h, 16);
    TurnedTwice(e, 16, h, q);
    TurnedTwice(e, q, h, 16);
    TurnedTwice(e, q, h, q);
    TurnedBack(e, q, i);
  }

  lemma TurnedBack(e: seq<bool>, q: nat, i: nat)
    requires |e| == 32 && q < 32 && i < 32
    ensures Turned(e, Both(q, q), Both(i, Both(q, q))) == e[i]
  {
  }

  /** Four times `L1` is a rotation by 8. */
  lemma L1Injective(x: Limb, y: Limb)
    requires L1(x) == L1(y)
    ensures x == y
  {
    hide Bit, Sum5, Xor32, Rot, Two, Turned;
    var e := Differences(x, y);
    assert L1(x) == Mixed(x, 2, 10, 18, 24) && L1(y) == Mixed(y, 2, 10, 18, 24);
    forall j: nat | j < 32
      ensures !Sum5(e[j], Turned(e, 2, j), Turned(e, 10, j), Turned(e, 18, j), Turned(e, 24, j))
    {
      MixedEven(x, y, 2, 10, 18, 24, j);
    }
    forall j: nat | j < 32 ensures (e[j] != Turned(e, 16, j)) == Turned(e, 20, j) {
      SquaredL1(e, j);
    }
    NoDifference(x, y, 20);
  }

  /** Four times `L2` is a rotation by 24. */
  lemma L2Injective(x: Limb, y: Limb)
    requires L2(x) == L2(y)
    ensures x == y
  {
    hide Bit, Sum5, Xor32, Rot, Two, Turned;
    var e := Differences(x, y);
    assert L2(x) == Mixed(x, 8, 14, 22, 30) && L2(y) == Mixed(y, 8, 14, 22, 30);
    forall j: nat | j < 32
      ensures !Sum5(e[j], Turned(e, 8, j), Turned(e, 14, j), Turned(e, 22, j), Turned(e, 30, j))
    {
      MixedEven(x, y, 8, 14, 22, 30, j);
    }
    forall j: nat | j < 32 ensures (e[j] != Turned(e, 16, j)) == Turned(e, 12, j) {
      SquaredL2(e, j);
    }
    NoDifference(x, y, 12);
  }

  lemma NoDifference(x: Limb, y: Limb, q: nat)
    requires q < 32
    requires var e := Differences(x, y);
      forall j: nat :: j < 32 ==> (e[j] != Turned(e, 16, j)) == Turned(e, q, j)
    ensures x == y
  {
    hide Bit, Two, Turned;
    TwoThirtyTwo();
    var e := Differences(x, y);
    forall i | 0 <= i < 32 ensures Bit(x, i) == Bit(y, i) {
      NoneLeft(e, q, i);
    }
    SameBits(x, y, 32);
  }

  // The S-boxes and the registers

  /** Both boxes give different bytes for different bytes. */
  ghost predicate OneToOne(b: Boxes)
    requires Full(b)
  {
    && (forall i, j :: 0 <= i < 256 && 0 <= j < 256 && b.s0[i] == b.s0[j] ==> i == j)
    && (forall i, j :: 0 <= i < 256 && 0 <= j < 256 && b.s1[i] == b.s1[j] ==> i == j)
  }

  lemma SubstitutedInjective(b: Boxes, u: Limb, v: Limb)
    requires Full(b) && OneToOne(b) && Substituted(b, u) == Substituted(b, v)
    ensures u == v
  {
    SameBytes(b.s0[u / 0x100_0000], b.s1[u / 0x1_0000 % 256], b.s0[u / 0x100 % 256], b.s1[u % 256],
              b.s0[v / 0x100_0000], b.s1[v / 0x1_0000 % 256], b.s0[v / 0x100 % 256], b.s1[v % 256]);
    SplitBytes(u);
    SplitBytes(v);
  }

  lemma SameBytes(a: Byte, b: Byte, c: Byte, d: Byte, a': Byte, b': Byte, c': Byte, d': Byte)
    requires a as int * 0x100_0000 + b as int * 0x1_0000 + c as int * 0x100 + d
          == a' as int * 0x100_0000 + b' as int * 0x1_0000 + c' as int * 0x100 + d'
    ensures a == a' && b == b' && c == c' && d == d'
  {
  }

  lemma SplitBytes(u: Limb)
    ensures u == u / 0x100_0000 * 0x100_0000 + u / 0x1_0000 % 256 * 0x1_0000 + u / 0x100 % 256 * 0x100 + u % 256
  {
    DivDiv(u, 0x100, 0x100);
    DivDiv(u, 0x1_0000, 0x100);
  }

  lemma HalvesInjective(w1: Limb, w2: Limb, v1: Limb, v2: Limb)
    requires Halves(w1, w2 / 0x1_0000) == Halves(v1, v2 / 0x1_0000)
    requires Halves(w2, w1 / 0x1_0000) == Halves(v2, v1 / 0x1_0000)
    ensures w1 == v1 && w2 == v2
  {
    SplitHalves(w1, w2);
    SplitHalves(v1, v2);
    SplitHalves(w2, w1);
    SplitHalves(v2, v1);
  }

  /** The halves of a word made of halves. */
  lemma SplitHalves(a: Limb, b: Limb)
    ensures var h := Halves(a, b / 0x1_0000);
      h / 0x1_0000 == a % 0x1_0000 && h % 0x1_0000 == b / 0x1_0000 && b == b / 0x1_0000 * 0x1_0000 + b % 0x1_0000
  {
    var q: int := b / 0x1_0000;
    DivModUnique(b, q, b % 0x1_0000, 0x1_0000);
    DivModUnique(q, 0, q, 0x1_0000);
    DivModUnique(Halves(a, q), a % 0x1_0000, q, 0x1_0000);
  }

  /** With the same reorganized words, F never brings two pairs of registers together. */
  lemma RegistersInjective(b: Boxes, m: Machine, m': Machine)
    requires Full(b) && OneToOne(b) && Registers(b, m) == Registers(b, m')
    requires Reorganized(m.cells).x1 == Reorganized(m'.cells).x1 && Reorganized(m.cells).x2 == Reorganized(m'.cells).x2
    ensures m.r1 == m'.r1 && m.r2 == m'.r2
  {
    hide Reorganized, L1, L2, Substituted, OneToOne, Halves, Xor, Two;
    var x1, x2 := Reorganized(m.cells).x1, Reorganized(m.cells).x2;
    var w1, w2 := Plus32(m.r1, x1), Xor32(m.r2, x2);
    var v1, v2 := Plus32(m'.r1, x1), Xor32(m'.r2, x2);
    SubstitutedInjective(b, L1(Halves(w1, w2 / 0x1_0000)), L1(Halves(v1, v2 / 0x1_0000)));
    SubstitutedInjective(b, L2(Halves(w2, w1 / 0x1_0000)), L2(Halves(v2, v1 / 0x1_0000)));
    L1Injective(Halves(w1, w2 / 0x1_0000), Halves(v1, v2 / 0x1_0000));
    L2Injective(Halves(w2, w1 / 0x1_0000), Halves(v2, v1 / 0x1_0000));
    HalvesInjective(w1, w2, v1, v2);
    TwoThirtyTwo();
    XorTwice(m.r2, x2, 32);
    XorTwice(m'.r2, x2, 32);
  }

  // The register

  /** All reorganized words but the last are without the first cell's low bits. */
  lemma SameReorganized(c: Cells, d: Cells)
    requires c[1..] == d[1..]
    ensures Reorganized(c).x0 == Reorganized(d).x0 && Reorganized(c).x1 == Reorganized(d).x1
    ensures Reorganized(c).x2 == Reorganized(d).x2
    ensures c[0] / 0x8000 == d[0] / 0x8000 ==> Reorganized(c) == Reorganized(d)
  {
    SameTail(c, d);
  }

  lemma SameTail(c: Cells, d: Cells)
    requires c[1..] == d[1..]
    ensures forall i :: 1 <= i < 16 ==> c[i] == d[i]
  {
    forall i | 1 <= i < 16 ensures c[i] == d[i] {
      assert c[i] == c[1..][i - 1] && d[i] == d[1..][i - 1];
    }
  }

  /** Cells that differ in the first alone have different sums. */
  lemma FeedbackInjective(c: Cells, d: Cells)
    requires AreCells(c) && AreCells(d) && c[1..] == d[1..] && Cong(Feedback(c), Feedback(d), M)
    ensures c == d
  {
    hide Cong, Feedback;
    FeedbackCorrect(c);
    FeedbackCorrect(d);
    CellsCongruent(Feedback(c), Feedback(d));
    assert WorkStep(c) == WorkStep(d);
    WorkStepInjective(c, d);
  }

  /** The later build's step with one and the same word is injective. */
  lemma InitStepInjective(c: Cells, d: Cells, u: Limb)
    requires AreCells(c) && AreCells(d) && u <= M && InitStep(false, c, u) == InitStep(false, d, u)
    ensures c == d
  {
    hide Cong, Feedback, AddM, Two, Xor;
    TwoThirtyTwo();
    assert InitStep(false, c, u)[..15] == c[1..] && InitStep(false, d, u)[..15] == d[1..];
    assert InitStep(false, c, u)[15] == InitStep(false, d, u)[15];
    FeedbackCorrect(c);
    FeedbackCorrect(d);
    var f, g := Feedback(c), Feedback(d);
    AddMCorrect(f, u);
    AddMCorrect(g, u);
    CongSym(AddM(f, u), f as int + u, M);
    CongTrans(f as int + u, AddM(f, u), g as int + u, M);
    CongRefl(-(u as int), M);
    CongAdd(f as int + u, g as int + u, -(u as int), -(u as int), M);
    FeedbackInjective(c, d);
  }

  /** One round of the later build loses nothing. */
  lemma InitializingInjective(b: Boxes, m: Machine, m': Machine)
    requires Full(b) && AreCells(m.cells) && AreCells(m'.cells)
    requires OneToOne(b) || (m.r1, m.r2) == (m'.r1, m'.r2)
    requires Initializing(false, b, m) == Initializing(false, b, m')
    ensures m == m'
  {
    hide Xor32, Plus32, Registers, InitStep, Reorganized, OneToOne, AreCells;
    var c, d := m.cells, m'.cells;
    SameShift(false, c, d, Output(m) / 2, Output(m') / 2);
    SameReorganized(c, d);
    if OneToOne(b) {
      RegistersInjective(b, m, m');
    }
    InitStepInjective(c, d, Output(m) / 2);
  }

  lemma SameShift(version14: bool, c: Cells, d: Cells, u: Limb, v: Limb)
    requires InitStep(version14, c, u) == InitStep(version14, d, v)
    ensures c[1..] == d[1..]
  {
    hide Injected;
    assert InitStep(version14, c, u)[..15] == c[1..] && InitStep(version14, d, v)[..15] == d[1..];
  }

  /** Nor do any number of rounds. */
  lemma {:induction false} InitializedInjective(b: Boxes, m: Machine, m': Machine, n: nat)
    requires Full(b) && OneToOne(b) && AreCells(m.cells) && AreCells(m'.cells)
    requires Initialized(false, b, m, n) == Initialized(false, b, m', n)
    ensures m == m'
  {
    hide OneToOne, AreCells, Initializing;
    if n > 0 {
      InitializedCells(false, b, m, n - 1);
      InitializedCells(false, b, m', n - 1);
      InitializingInjective(b, Initialized(false, b, m, n - 1), Initialized(false, b, m', n - 1));
      InitializedInjective(b, m, m', n - 1);
    }
  }

  lemma {:induction false} InitializedCells(version14: bool, b: Boxes, m: Machine, n: nat)
    requires Full(b) && AreCells(m.cells)
    ensures AreCells(Initialized(version14, b, m, n).cells)
  {
    hide AreCells, Initializing;
    if n > 0 {
      InitializedCells(version14, b, m, n - 1);
      InitializingKeeps(version14, b, Initialized(version14, b, m, n - 1));
    }
  }

  // Keys and nonces

  /** The machine before the initialization mode starts. */
  function Loaded(k: seq<Byte>, iv: seq<Byte>): Machine
    requires |k| == 16 && |iv| == 16
  {
    Machine(KeyCells(k, iv), 0, 0)
  }

  /** Key and nonce can be read off the loaded cells. */
  lemma LoadedInjective(k: seq<Byte>, iv: seq<Byte>, k': seq<Byte>, iv': seq<Byte>)
    requires |k| == |iv| == |k'| == |iv'| == 16 && KeyCells(k, iv) == KeyCells(k', iv')
    ensures k == k' && iv == iv'
  {
    hide MakeU31;
    forall i | 0 <= i < 16 ensures k[i] == k'[i] && iv[i] == iv'[i] {
      assert KeyCells(k, iv)[i] == KeyCells(k', iv')[i];
      MakeU31Injective(k[i], EK_D[i], iv[i], k'[i], iv'[i]);
    }
  }

  lemma MakeU31Injective(a: Byte, b: int, c: Byte, a': Byte, c': Byte)
    requires 0 < b < 0x8000 && MakeU31(a, b, c) == MakeU31(a', b, c')
    ensures a == a' && c == c'
  {
  }

  lemma LoadedCells(k: seq<Byte>, iv: seq<Byte>)
    requires |k| == 16 && |iv| == 16
    ensures AreCells(KeyCells(k, iv))
  {
    hide MakeU31;
  }

  /** Later build: after the first round two keys or nonces stay apart, whatever the S-boxes. */
  lemma FirstRoundApart(b: Boxes, k: seq<Byte>, iv: seq<Byte>, k': seq<Byte>, iv': seq<Byte>)
    requires Full(b) && |k| == |iv| == |k'| == |iv'| == 16 && (k, iv) != (k', iv')
    ensures Initialized(false, b, Loaded(k, iv), 1) != Initialized(false, b, Loaded(k', iv'), 1)
  {
    hide Initializing, AreCells, KeyCells;
    LoadedCells(k, iv);
    LoadedCells(k', iv');
    var m, m' := Loaded(k, iv), Loaded(k', iv');
    assert Initialized(false, b, m, 1) == Initializing(false, b, m);
    assert Initialized(false, b, m', 1) == Initializing(false, b, m');
    if Initializing(false, b, m) == Initializing(false, b, m') {
      InitializingInjective(b, m, m');
      LoadedInjective(k, iv, k', iv');
    }
  }

  /** Later build: with S-boxes that are one to one they stay apart through all rounds. */
  lemma RoundsApart(b: Boxes, k: seq<Byte>, iv: seq<Byte>, k': seq<Byte>, iv': seq<Byte>, n: nat)
    requires Full(b) && OneToOne(b) && |k| == |iv| == |k'| == |iv'| == 16 && (k, iv) != (k', iv')
    ensures Initialized(false, b, Loaded(k, iv), n) != Initialized(false, b, Loaded(k', iv'), n)
  {
    hide Initialized, AreCells, KeyCells, OneToOne;
    LoadedCells(k, iv);
    LoadedCells(k', iv');
    if Initialized(false, b, Loaded(k, iv), n) == Initialized(false, b, Loaded(k', iv'), n) {
      InitializedInjective(b, Loaded(k, iv), Loaded(k', iv'), n);
      LoadedInjective(k, iv, k', iv');
    }
  }

  // Version 1.4

  /** What version 1.4 combines the sum with in the first round. */
  function FirstWord(c: Cells): (u: Limb)
    ensures u <= M
  {
    Xor32(Reorganized(c).x0, Reorganized(c).x3) / 2
  }

  /** What a caller can check: the nonces differ in their first byte alone, and the sums of both, combined
      with the same word, are 0 and 2^31 - 1. */
  predicate Collide(k: seq<Byte>, iv: seq<Byte>, iv': seq<Byte>)
    requires |k| == |iv| == |iv'| == 16
  {
    TwoThirtyTwo();
    var u := FirstWord(KeyCells(k, iv));
    && iv[1..] == iv'[1..]
    && {Xor(Feedback(KeyCells(k, iv)), u, 32), Xor(Feedback(KeyCells(k, iv')), u, 32)} == {0, M as int}
  }

  lemma FirstRound(b: Boxes, c: Cells)
    requires Full(b)
    ensures Initializing(true, b, Machine(c, 0, 0)).cells == InitStep(true, c, FirstWord(c))
  {
    hide InitStep, Registers, Reorganized, Two, Xor;
    TwoThirtyTwo();
    var x := Reorganized(c).x0;
    XorZero(x, 32);
    assert Output(Machine(c, 0, 0)) == x;
  }

  /** The registers after a round do not depend on the low bits of the first cell. */
  lemma SameRegisters(b: Boxes, c: Cells, d: Cells)
    requires Full(b) && c[1..] == d[1..]
    ensures Registers(b, Machine(c, 0, 0)) == Registers(b, Machine(d, 0, 0))
  {
    hide Reorganized, L1, L2, Substituted, Xor32, Plus32, Halves;
    SameReorganized(c, d);
  }

  /** Nonces that agree but for the first byte give cells that do, and the same first word. */
  lemma SameKeyCells(k: seq<Byte>, iv: seq<Byte>, iv': seq<Byte>)
    requires |k| == |iv| == |iv'| == 16
    ensures iv[1..] == iv'[1..] <==> KeyCells(k, iv)[1..] == KeyCells(k, iv')[1..]
    ensures iv[1..] == iv'[1..] ==> FirstWord(KeyCells(k, iv)) == FirstWord(KeyCells(k, iv'))
  {
    hide MakeU31, Reorganized, Xor32;
    var c, d := KeyCells(k, iv), KeyCells(k, iv');
    HighBits(k[0], EK_D[0], iv[0], iv'[0]);
    if iv[1..] == iv'[1..] {
      forall i | 0 <= i < 15 ensures c[1..][i] == d[1..][i] {
        assert iv[i + 1] == iv[1..][i] && iv'[i + 1] == iv'[1..][i];
      }
      SameReorganized(c, d);
    }
    if c[1..] == d[1..] {
      forall i | 0 <= i < 15 ensures iv[1..][i] == iv'[1..][i] {
        assert c[i + 1] == c[1..][i] && d[i + 1] == d[1..][i];
        MakeU31Injective(k[i + 1], EK_D[i + 1], iv[i + 1], k[i + 1], iv'[i + 1]);
      }
    }
  }

  lemma HighBits(a: Byte, b: int, c: Byte, c': Byte)
    requires 0 < b < 0x8000
    ensures MakeU31(a, b, c) / 0x8000 == MakeU31(a, b, c') / 0x8000
  {
  }

  /** Exactly these pairs of nonces meet in the first round, whatever the S-boxes. */
  lemma CollisionsOf14(b: Boxes, k: seq<Byte>, iv: seq<Byte>, iv': seq<Byte>)
    requires Full(b) && |k| == |iv| == |iv'| == 16 && iv != iv'
    ensures Initialized(true, b, Loaded(k, iv), 1) == Initialized(true, b, Loaded(k, iv'), 1) <==> Collide(k, iv, iv')
  {
    hide Initializing, Registers, InitStep, KeyCells, FirstWord;
    var c, d := KeyCells(k, iv), KeyCells(k, iv');
    InitializedOnce(true, b, Loaded(k, iv));
    InitializedOnce(true, b, Loaded(k, iv'));
    FirstRound(b, c);
    FirstRound(b, d);
    SameKeyCells(k, iv, iv');
    RegistersAfter(true, b, Loaded(k, iv));
    RegistersAfter(true, b, Loaded(k, iv'));
    if iv[1..] == iv'[1..] {
      SameRegisters(b, c, d);
      MeetInLastCell(k, iv, iv');
    } else if InitStep(true, c, FirstWord(c)) == InitStep(true, d, FirstWord(d)) {
      SameShift(true, c, d, FirstWord(c), FirstWord(d));
    }
  }

  lemma InitializedOnce(version14: bool, b: Boxes, m: Machine)
    requires Full(b)
    ensures Initialized(version14, b, m, 1) == Initializing(version14, b, m)
  {
    hide Initializing;
    assert Initialized(version14, b, m, 0) == m;
  }

  lemma RegistersAfter(version14: bool, b: Boxes, m: Machine)
    requires Full(b)
    ensures var r := Initializing(version14, b, m); (r.r1, r.r2) == Registers(b, m)
  {
    hide Registers, InitStep, Output, Reorganized, Xor32;
  }

  lemma MeetInLastCell(k: seq<Byte>, iv: seq<Byte>, iv': seq<Byte>)
    requires |k| == |iv| == |iv'| == 16 && iv != iv' && iv[1..] == iv'[1..]
    ensures var c, d := KeyCells(k, iv), KeyCells(k, iv');
      InitStep(true, c, FirstWord(c)) == InitStep(true, d, FirstWord(d)) <==> Collide(k, iv, iv')
  {
    hide KeyCells, Feedback, FirstWord, Two, Xor, Cong;
    TwoThirtyTwo();
    var c, d := KeyCells(k, iv), KeyCells(k, iv');
    SameKeyCells(k, iv, iv');
    LoadedCells(k, iv);
    LoadedCells(k, iv');
    FeedbackCorrect(c);
    FeedbackCorrect(d);
    var u, f, g := FirstWord(c), Feedback(c), Feedback(d);
    XorNarrow(f, u, 32, 31);
    XorNarrow(g, u, 32, 31);
    XorTwice(f, u, 31);
    XorTwice(g, u, 31);
    if f == g {
      CongRefl(f, M);
      FeedbackInjective(c, d);
      LoadedInjective(k, iv, k, iv');
    }
    assert InitStep(true, c, u)[15] == Injected(true, f, u) && InitStep(true, d, u)[15] == Injected(true, g, u);
  }

  /** Machines that met stay together: the same state and the same key stream from then on. */
  lemma {:induction false} MetForGood(version14: bool, b: Boxes, m: Machine, m': Machine, n: nat)
    requires Full(b) && n > 0 && Initialized(version14, b, m, 1) == Initialized(version14, b, m', 1)
    ensures Initialized(version14, b, m, n) == Initialized(version14, b, m', n)
  {
    hide Initializing;
    if n > 1 {
      MetForGood(version14, b, m, m', n - 1);
    }
  }

  // The published pair of nonces

  const ExampleKey: seq<Byte> :=
    [0x1a, 0, 0, 0, 0x01, 0xec, 0, 0, 0, 0x95, 0xd9, 0, 0, 0x29, 0, 0x6b]

  function ExampleNonce(first: Byte): (iv: seq<Byte>)
    ensures |iv| == 16
  {
    [first, 0, 0x8f, 0, 0xf3, 0, 0, 0, 0, 0, 0xf0, 0x08, 0, 0x4c, 0x08, 0]
  }

  lemma ExampleSum(first: Byte)
    requires first == 0x8a || first == 0x0a
    ensures Feedback(KeyCells(ExampleKey, ExampleNonce(first))) == if first == 0x8a then 0x4040 else 0x7fff_bfbf
  {
    hide Feedback, Cong;
    var c := KeyCells(ExampleKey, ExampleNonce(first));
    LoadedCells(ExampleKey, ExampleNonce(first));
    FeedbackCorrect(c);
    assert c[0] as int == 0x0d44_d700 + first as int;
    assert c[4] == 0x00d7_89f3 && c[10] == 0x6ceb_c4f0 && c[13] == 0x14bc_4d4c && c[15] == 0x35c7_ac00;
    var f := if first == 0x8a then 0x4040 else 0x7fff_bfbf;
    CongBy(Combined(c), f, (Combined(c) - f) / M, M);
    CongTrans(Feedback(c), Combined(c), f, M);
    CellsCongruent(Feedback(c), f);
  }

  lemma ExampleWord()
    ensures FirstWord(KeyCells(ExampleKey, ExampleNonce(0x8a))) == 0x4040
  {
    hide Xor, Two;
    var c := KeyCells(ExampleKey, ExampleNonce(0x8a));
    assert c[0] == 0x0d44_d78a && c[2] == 0x0062_6b8f && c[14] == 0x0078_9a08 && c[15] == 0x35c7_ac00;
    assert Reorganized(c).x0 == 0x6b8f_9a08 && Reorganized(c).x3 == 0x6b8f_1a89;
    XorOfWords();
  }

  lemma XorOfWords()
    ensures Xor(0x6b8f_9a08, 0x6b8f_1a89, 32) == 0x8081
    ensures Xor(0x4040, 0x4040, 32) == 0 && Xor(0x7fff_bfbf, 0x4040, 32) == M
  {
    hide Xor;
    XorOfBytes(0x6b, 0x8f, 0x9a, 0x08, 0x6b, 0x8f, 0x1a, 0x89);
    XorOfBytes(0, 0, 0x40, 0x40, 0, 0, 0x40, 0x40);
    XorOfBytes(0x7f, 0xff, 0xbf, 0xbf, 0, 0, 0x40, 0x40);
  }

  /** Version 1.4: two nonces, one machine from the first round on, whatever the S-boxes. */
  lemma ExampleCollision(b: Boxes, n: nat)
    requires Full(b) && n > 0
    ensures var iv, iv' := ExampleNonce(0x8a), ExampleNonce(0x0a);
      && iv != iv' && Collide(ExampleKey, iv, iv')
      && Initialized(true, b, Loaded(ExampleKey, iv), n) == Initialized(true, b, Loaded(ExampleKey, iv'), n)
  {
    hide Feedback, KeyCells, FirstWord, Xor, Two, Initialized;
    var iv, iv' := ExampleNonce(0x8a), ExampleNonce(0x0a);
    ExampleSum(0x8a);
    ExampleSum(0x0a);
    ExampleWord();
    XorOfWords();
    assert iv[0] != iv'[0] && iv[1..] == iv'[1..];
    CollisionsOf14(b, ExampleKey, iv, iv');
    MetForGood(true, b, Loaded(ExampleKey, iv), Loaded(ExampleKey, iv'), n);
  }
}
