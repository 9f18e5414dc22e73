/** zuc.c: the LFSR modulo 2^31 - 1, bit reorganization, the function F and the key stream, in both builds
    of the initialization mode.  The S-boxes are parameters.
 */
module Zuc {
  import opened Words
  import opened ModArith
  import opened Powers
  import opened Bytes
  import opened WordBits

  const M := 0x7fff_ffff
  const TWO32 := 0x1_0000_0000

  /** What an LFSR cell may hold: zero is written as 2^31 - 1. */
  predicate IsCell(x: int) {
    1 <= x <= M
  }

  /** The same, or zero. */
  predicate IsShort(x: int) {
    0 <= x <= M
  }

  // Arithmetic modulo 2^31 - 1

  /** `c = a + b` in 32 bits; a set top bit is worth one. */
  function AddM(a: Limb, b: Limb): Limb {
    var c := (a as int + b) % TWO32;
    if c >= 0x8000_0000 then c % 0x8000_0000 + 1 else c
  }

  lemma AddMCorrect(a: int, b: int)
    requires IsCell(a) && IsShort(b)
    ensures IsCell(AddM(a, b)) && Cong(AddM(a, b), a + b, M)
  {
    CongBy(AddM(a, b), a + b, if a + b >= 0x8000_0000 then -1 else 0, M);
  }

  /** `((x << k) | (x >> (31 - k))) & 0x7FFFFFFF`. */
  function MulByPow2(x: Limb, k: nat): Limb
    requires k <= 31
  {
    TwoThirtyTwo();
    WideRotL(x, k, 31, 32) % Two(31)
  }

  /** Rotation of 31 bits is multiplication by a power of two. */
  lemma MulByPow2Correct(x: int, k: nat)
    requires IsCell(x) && 0 < k < 31
    ensures IsCell(MulByPow2(x, k)) && Cong(MulByPow2(x, k), Two(k) * x, M)
  {
    hide Two, Cong, WideRotL, RotL;
    TwoThirtyTwo();
    WideRotations(x, k, 31, 32);
    RotROfRotL(x, k, 31);
    CongMod(WideRotL(x, k, 31, 32), RotL(x, k, 31), Two(31));
    DivModUnique(RotL(x, k, 31), 0, RotL(x, k, 31), Two(31));
    RotationMultiplies(x, k, 31);
    ZeroRotates(x, k);
  }

  lemma ZeroRotates(x: int, k: nat)
    requires 0 < x < Two(31) && 0 < k < 31
    ensures 0 < RotL(x, k, 31) < Two(31)
  {
    hide Two, RotL, RotR;
    RotROfRotL(x, k, 31);
    if RotL(x, k, 31) == 0 {
      RotRZero(k, 31);
    }
  }

  lemma RotRZero(d: nat, w: nat)
    requires d <= w
    ensures RotR(0, d, w) == 0
  {
    DivModUnique(0, 0, 0, Two(d));
  }

  // The feedback

  type Cells = c: seq<Limb> | |c| == 16 witness seq(16, _ => 1)

  predicate AreCells(c: Cells) {
    forall i :: 0 <= i < 16 ==> IsCell(c[i])
  }

  /** The sum both modes start with. */
  function Feedback(c: Cells): Limb {
    AddM(AddM(AddM(AddM(AddM(c[0], MulByPow2(c[0], 8)), MulByPow2(c[4], 20)), MulByPow2(c[10], 21)),
         MulByPow2(c[13], 17)), MulByPow2(c[15], 15))
  }

  /** Section 3.2 of the ZUC specification. */
  function Combined(c: Cells): int {
    257 * c[0] as int + 0x10_0000 * c[4] as int + 0x20_0000 * c[10] as int + 0x2_0000 * c[13] as int
      + 0x8000 * c[15] as int
  }

  lemma PowersOfFeedback()
    ensures Two(8) == 256 && Two(15) == 0x8000 && Two(17) == 0x2_0000 && Two(20) == 0x10_0000 && Two(21) == 0x20_0000
  {
    TwoEight(0);
    assert Two(5) == 32;
    assert Two(7) == 128;
    TwoAdd(8, 7);
    TwoAdd(15, 2);
    assert Two(2) == 4;
    TwoAdd(15, 5);
    TwoAdd(20, 1);
    assert Two(1) == 2;
  }

  /** One more term of the sum. */
  lemma TermAdded(f: int, v: int, x: int, k: nat)
    requires IsCell(f) && Cong(f, v, M) && IsCell(x) && 0 < k < 31
    ensures var g := AddM(f, MulByPow2(x, k)); IsCell(g) && Cong(g, v + Two(k) * x, M)
  {
    hide Two, Cong, AddM, MulByPow2;
    MulByPow2Correct(x, k);
    AddMCorrect(f, MulByPow2(x, k));
    CongAdd(f, v, MulByPow2(x, k), Two(k) * x, M);
    CongTrans(AddM(f, MulByPow2(x, k)), f + MulByPow2(x, k), v + Two(k) * x, M);
  }

  /** The feedback is the linear combination modulo 2^31 - 1, and a cell again. */
  lemma FeedbackCorrect(c: Cells)
    requires AreCells(c)
    ensures IsCell(Feedback(c)) && Cong(Feedback(c), Combined(c), M)
  {
    hide Two, Cong, AddM, MulByPow2, IsCell;
    PowersOfFeedback();
    CongRefl(c[0], M);
    TermAdded(c[0], c[0], c[0], 8);
    var f1 := AddM(c[0], MulByPow2(c[0], 8));
    TermAdded(f1, c[0] as int + 256 * c[0] as int, c[4], 20);
    var f2 := AddM(f1, MulByPow2(c[4], 20));
    var v2 := c[0] as int + 256 * c[0] as int + 0x10_0000 * c[4] as int;
    TermAdded(f2, v2, c[10], 21);
    var f3 := AddM(f2, MulByPow2(c[10], 21));
    TermAdded(f3, v2 + 0x20_0000 * c[10] as int, c[13], 17);
    var f4 := AddM(f3, MulByPow2(c[13], 17));
    TermAdded(f4, v2 + 0x20_0000 * c[10] as int + 0x2_0000 * c[13] as int, c[15], 15);
  }

  // The two modes

  function WorkStep(c: Cells): Cells {
    c[1..] + [Feedback(c)]
  }

  /** The last cell of the initialization mode: exclusive or in version 1.4, a sum later. */
  function Injected(version14: bool, f: Limb, u: Limb): Limb {
    TwoThirtyTwo();
    var s := if version14 then Xor(f, u, 32) else AddM(f, u);
    if s == 0 then M else s
  }

  function InitStep(version14: bool, c: Cells, u: Limb): Cells {
    c[1..] + [Injected(version14, Feedback(c), u)]
  }

  lemma WorkStepKeeps(c: Cells)
    requires AreCells(c)
    ensures AreCells(WorkStep(c))
  {
    hide Feedback, Cong;
    FeedbackCorrect(c);
  }

  lemma InitStepKeeps(version14: bool, c: Cells, u: Limb)
    requires AreCells(c) && u <= M
    ensures AreCells(InitStep(version14, c, u))
  {
    hide Feedback, Cong, Two, Xor;
    FeedbackCorrect(c);
    TwoThirtyTwo();
    if version14 {
      XorNarrow(Feedback(c), u, 32, 31);
    } else {
      AddMCorrect(Feedback(c), u);
    }
  }

  /** Cells that are congruent are equal. */
  lemma CellsCongruent(a: int, b: int)
    requires IsCell(a) && IsCell(b) && Cong(a, b, M)
    ensures a == b
  {
    hide Cong;
    var k := CongWitness(a, b, M);
  }

  /** 257 can be cancelled. */
  lemma Cancel257(a: int, b: int)
    requires Cong(257 * a, 257 * b, M)
    ensures Cong(a, b, M)
  {
    hide Cong;
    var k := CongWitness(257 * a, 257 * b, M);
    // 257 * 16711935 = 1 + 2 M
    CongBy(a, b, 16711935 * k - 2 * (a - b), M);
  }

  /** The work step loses nothing: two states of cells with the same successor are the same. */
  lemma WorkStepInjective(c: Cells, d: Cells)
    requires AreCells(c) && AreCells(d) && WorkStep(c) == WorkStep(d)
    ensures c == d
  {
    hide Cong, Feedback;
    FeedbackCorrect(c);
    FeedbackCorrect(d);
    assert c[1..] == WorkStep(c)[..15] && d[1..] == WorkStep(d)[..15];
    assert Feedback(c) == WorkStep(c)[15] && Feedback(d) == WorkStep(d)[15];
    CongSym(Feedback(c), Combined(c), M);
    CongTrans(Combined(c), Feedback(c), Combined(d), M);
    assert c[4] == c[1..][3] && c[10] == c[1..][9] && c[13] == c[1..][12] && c[15] == c[1..][14];
    assert d[4] == d[1..][3] && d[10] == d[1..][9] && d[13] == d[1..][12] && d[15] == d[1..][14];
    var rest := Combined(c) - 257 * c[0] as int;
    CongRefl(rest, M);
    CongAdd(Combined(c), Combined(d), rest, rest, M);
    Cancel257(c[0], d[0]);
    CellsCongruent(c[0], d[0]);
    assert c == [c[0]] + c[1..] && d == [d[0]] + d[1..];
  }

  // The function F

  /** `a || b`, the low halves of both. */
  function Halves(a: int, b: int): Limb {
    a % 0x1_0000 * 0x1_0000 + b % 0x1_0000
  }

  datatype Brc = Brc(x0: Limb, x1: Limb, x2: Limb, x3: Limb)

  function Reorganized(c: Cells): Brc {
    Brc(Halves(c[15] / 0x8000, c[14]), Halves(c[11], c[9] / 0x8000),
        Halves(c[7], c[5] / 0x8000), Halves(c[2], c[0] / 0x8000))
  }

  function Xor32(a: Limb, b: Limb): Limb {
    TwoThirtyTwo();
    Xor(a, b, 32)
  }

  function Plus32(a: Limb, b: Limb): Limb {
    (a as int + b) % TWO32
  }

  function Rot(a: Limb, k: nat): Limb
    requires 0 < k < 32
  {
    TwoThirtyTwo();
    RotROfRotL(a, k, 32);
    RotL(a, k, 32)
  }

  function L1(x: Limb): Limb {
    Xor32(Xor32(Xor32(Xor32(x, Rot(x, 2)), Rot(x, 10)), Rot(x, 18)), Rot(x, 24))
  }

  function L2(x: Limb): Limb {
    Xor32(Xor32(Xor32(Xor32(x, Rot(x, 8)), Rot(x, 14)), Rot(x, 22)), Rot(x, 30))
  }

  /** A pair of S-boxes. */
  datatype Boxes = Boxes(s0: seq<Byte>, s1: seq<Byte>)

  predicate Full(b: Boxes) {
    |b.s0| == 256 && |b.s1| == 256
  }

  function Substituted(b: Boxes, u: Limb): Limb
    requires Full(b)
  {
    b.s0[u / 0x100_0000] as int * 0x100_0000 + b.s1[u / 0x1_0000 % 256] as int * 0x1_0000
    + b.s0[u / 0x100 % 256] as int * 0x100 + b.s1[u % 256]
  }

  // The machine

  datatype Machine = Machine(cells: Cells, r1: Limb, r2: Limb)

  /** The output of F. */
  function Output(m: Machine): Limb {
    Plus32(Xor32(Reorganized(m.cells).x0, m.r1), m.r2)
  }

  /** The registers after F. */
  function Registers(b: Boxes, m: Machine): (r: (Limb, Limb))
    requires Full(b)
  {
    var w1 := Plus32(m.r1, Reorganized(m.cells).x1);
    var w2 := Xor32(m.r2, Reorganized(m.cells).x2);
    (Substituted(b, L1(Halves(w1, w2 / 0x1_0000))), Substituted(b, L2(Halves(w2, w1 / 0x1_0000))))
  }

  function Working(b: Boxes, m: Machine): Machine
    requires Full(b)
  {
    Machine(WorkStep(m.cells), Registers(b, m).0, Registers(b, m).1)
  }

  function Initializing(version14: bool, b: Boxes, m: Machine): Machine
    requires Full(b)
  {
    var w := if version14 then Xor32(Output(m), Reorganized(m.cells).x3) else Output(m);
    Machine(InitStep(version14, m.cells, w / 2), Registers(b, m).0, Registers(b, m).1)
  }

  /** The machine after `n` working steps. */
  function Worked(b: Boxes, m: Machine, n: nat): Machine
    requires Full(b)
  {
    if n == 0 then m else Working(b, Worked(b, m, n - 1))
  }

  function Initialized(version14: bool, b: Boxes, m: Machine, n: nat): Machine
    requires Full(b)
  {
    if n == 0 then m else Initializing(version14, b, Initialized(version14, b, m, n - 1))
  }

  const EK_D: seq<int> := [
    0x44D7, 0x26BC, 0x626B, 0x135E, 0x5789, 0x35E2, 0x7135, 0x09AF,
    0x4D78, 0x2F13, 0x6BC4, 0x1AF1, 0x5E26, 0x3C4D, 0x789A, 0x47AC]

  function MakeU31(a: Byte, b: int, c: Byte): Limb
    requires 0 < b < 0x8000
    ensures IsCell(MakeU31(a, b, c))
  {
    a as int * 0x80_0000 + b * 0x100 + c
  }

  function KeyCells(k: seq<Byte>, iv: seq<Byte>): Cells
    requires |k| == 16 && |iv| == 16
  {
    seq(16, i requires 0 <= i < 16 => MakeU31(k[i], EK_D[i], iv[i]))
  }

  /** Word `i` of the key stream: the first output after the initialization is dropped. */
  function StreamWord(b: Boxes, m: Machine, i: nat): Limb
    requires Full(b)
  {
    var s := Worked(b, m, i + 1);
    Xor32(Output(s), Reorganized(s.cells).x3)
  }

  /** The registers of the LFSR, of F and of the bit reorganization. */
  class ZucState {
    const version14: bool
    const boxes: Boxes
    const LFSR_S: array<Limb>
    var F_R1: Limb
    var F_R2: Limb
    var brc: Brc

    constructor (version14: bool, boxes: Boxes)
      requires Full(boxes)
      ensures this.version14 == version14 && this.boxes == boxes && Sized() && fresh(LFSR_S)
    {
      this.version14, this.boxes := version14, boxes;
      LFSR_S := new Limb[16](_ => 0);
      F_R1, F_R2, brc := 0, 0, Brc(0, 0, 0, 0);
    }

    ghost predicate Sized() {
      LFSR_S.Length == 16 && Full(boxes)
    }

    ghost function Lfsr(): Cells
      requires Sized()
      reads LFSR_S
    {
      LFSR_S[..]
    }

    ghost function State(): Machine
      requires Sized()
      reads this, LFSR_S
    {
      Machine(Lfsr(), F_R1, F_R2)
    }

    /** Each cell takes the value of the next; the last keeps its own until it is set. */
    method Shift()
      requires Sized()
      modifies LFSR_S
      ensures Lfsr()[..15] == old(Lfsr())[1..] && Lfsr()[15] == old(Lfsr())[15]
    {
      forall i | 0 <= i < 15 {
        LFSR_S[i] := LFSR_S[i + 1];
      }
    }

    method LFSRWithInitialisationMode(u: Limb)
      requires Sized()
      modifies LFSR_S
      ensures Lfsr() == InitStep(version14, old(Lfsr()), u)
    {
      hide AddM, MulByPow2, Xor;
      TwoThirtyTwo();
      var f := LFSR_S[0];
      var v := MulByPow2(LFSR_S[0], 8);
      f := AddM(f, v);
      v := MulByPow2(LFSR_S[4], 20);
      f := AddM(f, v);
      v := MulByPow2(LFSR_S[10], 21);
      f := AddM(f, v);
      v := MulByPow2(LFSR_S[13], 17);
      f := AddM(f, v);
      v := MulByPow2(LFSR_S[15], 15);
      f := AddM(f, v);
      Shift();
      if version14 {
        LFSR_S[15] := Xor(f, u, 32);
      } else {
        LFSR_S[15] := AddM(f, u);
      }
      if LFSR_S[15] == 0 {
        LFSR_S[15] := M;
      }
    }

    method LFSRWithWorkMode()
      requires Sized()
      modifies LFSR_S
      ensures Lfsr() == WorkStep(old(Lfsr()))
    {
      hide AddM, MulByPow2;
      var f := LFSR_S[0];
      var v := MulByPow2(LFSR_S[0], 8);
      f := AddM(f, v);
      v := MulByPow2(LFSR_S[4], 20);
      f := AddM(f, v);
      v := MulByPow2(LFSR_S[10], 21);
      f := AddM(f, v);
      v := MulByPow2(LFSR_S[13], 17);
      f := AddM(f, v);
      v := MulByPow2(LFSR_S[15], 15);
      f := AddM(f, v);
      Shift();
      LFSR_S[15] := f;
    }

    method BitReorganization()
      requires Sized()
      modifies this`brc
      ensures brc == Reorganized(Lfsr())
    {
      brc := Brc(Halves(LFSR_S[15] / 0x8000, LFSR_S[14]), Halves(LFSR_S[11], LFSR_S[9] / 0x8000),
                 Halves(LFSR_S[7], LFSR_S[5] / 0x8000), Halves(LFSR_S[2], LFSR_S[0] / 0x8000));
    }

    method F() returns (w: Limb)
      requires Sized() && brc == Reorganized(Lfsr())
      modifies this`F_R1, this`F_R2
      ensures w == Output(old(State())) && (F_R1, F_R2) == Registers(boxes, old(State()))
    {
      hide Xor32, Plus32, L1, L2, Substituted, Halves;
      w := Plus32(Xor32(brc.x0, F_R1), F_R2);
      var w1 := Plus32(F_R1, brc.x1);
      var w2 := Xor32(F_R2, brc.x2);
      var u := L1(Halves(w1, w2 / 0x1_0000));
      var v := L2(Halves(w2, w1 / 0x1_0000));
      F_R1 := Substituted(boxes, u);
      F_R2 := Substituted(boxes, v);
    }

    /** Key and nonce expanded, and 32 steps of the initialization mode. */
    method Initialization(k: seq<Byte>, iv: seq<Byte>)
      requires Sized() && |k| == 16 && |iv| == 16
      modifies this, LFSR_S
      ensures State() == Initialized(version14, boxes, Machine(KeyCells(k, iv), 0, 0), 32)
      ensures AreCells(Lfsr())
    {
      hide Initializing, Output, Registers, InitStep, IsCell;
      LoadKey(k, iv);
      F_R1, F_R2 := 0, 0;
      ghost var start := State();
      var nCount := 32;
      while nCount > 0
        invariant 0 <= nCount <= 32 && State() == Initialized(version14, boxes, start, 32 - nCount)
        invariant AreCells(Lfsr())
      {
        InitOnce();
        nCount := nCount - 1;
      }
    }

    method LoadKey(k: seq<Byte>, iv: seq<Byte>)
      requires Sized() && |k| == 16 && |iv| == 16
      modifies LFSR_S
      ensures Lfsr() == KeyCells(k, iv) && AreCells(Lfsr())
    {
      hide MakeU31;
      forall i | 0 <= i < 16 {
        LFSR_S[i] := MakeU31(k[i], EK_D[i], iv[i]);
      }
      assert LFSR_S[..] == KeyCells(k, iv);
    }

    /** One round of the initialization. */
    method InitOnce()
      requires Sized() && AreCells(Lfsr())
      modifies this, LFSR_S
      ensures State() == Initializing(version14, boxes, old(State())) && AreCells(Lfsr())
    {
      hide Xor32, Registers, InitStep, Output, IsCell, Reorganized;
      BitReorganization();
      var w := F();
      if version14 {
        w := Xor32(w, brc.x3);
      }
      InitStepKeeps(version14, Lfsr(), w / 2);
      LFSRWithInitialisationMode(w / 2);
    }

    /** `len` words of key stream; a negative length gives none. */
    method GenerateKeystream(pKeystream: array<Limb>, len: int)
      requires Sized() && AreCells(Lfsr()) && len <= pKeystream.Length && pKeystream != LFSR_S
      modifies this, LFSR_S, pKeystream
      ensures var n := if len < 0 then 0 else len;
        && State() == Worked(boxes, old(State()), n + 1)
        && (forall i :: 0 <= i < n ==> pKeystream[i] == StreamWord(boxes, old(State()), i))
        && pKeystream[n..] == old(pKeystream[n..])
      ensures AreCells(Lfsr())
    {
      hide Xor32, Working, Registers, WorkStep, Output, IsCell, Reorganized;
      ghost var start := State();
      var w := WorkOnce();
      WorkedOnce(boxes, start, 0);
      var i := 0;
      while i < len
        invariant 0 <= i && (i <= len || i == 0)
        invariant State() == Worked(boxes, start, i + 1) && AreCells(Lfsr())
        invariant forall j :: 0 <= j < i ==> pKeystream[j] == StreamWord(boxes, start, j)
        invariant pKeystream[i..] == old(pKeystream[i..])
      {
        w := WorkOnce();
        pKeystream[i] := Xor32(w, brc.x3);
        WorkedOnce(boxes, start, i + 1);
        i := i + 1;
      }
    }

    /** Bit reorganization, F and one working step. */
    method WorkOnce() returns (w: Limb)
      requires Sized() && AreCells(Lfsr())
      modifies this, LFSR_S
      ensures State() == Working(boxes, old(State())) && AreCells(Lfsr())
      ensures w == Output(old(State())) && brc == Reorganized(old(Lfsr()))
    {
      hide Registers, WorkStep, Output, IsCell, Reorganized;
      BitReorganization();
      w := F();
      WorkStepKeeps(Lfsr());
      LFSRWithWorkMode();
    }
  }

  lemma WorkedOnce(b: Boxes, m: Machine, n: nat)
    requires Full(b)
    ensures Worked(b, m, 0) == m && Worked(b, m, n + 1) == Working(b, Worked(b, m, n))
  {
  }

  // What the pieces of F and of the loading mean

  /** The output is `(x0 ^ r1) + r2`: taking `r2` off and `x0` out leaves `r1`. */
  lemma OutputMeans(m: Machine)
    ensures Xor32((Output(m) - m.r2) % TWO32, Reorganized(m.cells).x0) == m.r1
    ensures Xor32(Reorganized(m.cells).x0, m.r1) == (Output(m) - m.r2) % TWO32
  {
    hide Two, Xor, Reorganized;
    TwoThirtyTwo();
    var x0, r1 := Reorganized(m.cells).x0, m.r1;
    var s := Xor32(x0, r1);
    DivModUnique(s + m.r2 - (s + m.r2) % TWO32, (s + m.r2) / TWO32, 0, TWO32);
    DivModUnique(Output(m) - m.r2, -((s + m.r2) / TWO32), s, TWO32);
    XorComm(x0, r1, 32);
    XorTwice(r1, x0, 32);
  }

  /** The middle of the 64 bits `w1 || w2`. */
  function Middle(w1: Limb, w2: Limb): Limb {
    (w1 * TWO32 + w2) / 0x1_0000 % TWO32
  }

  /** What goes into the transforms is the middle of `w1 || w2`, and of `w2 || w1`. */
  lemma HalvesAreMiddle(w1: Limb, w2: Limb)
    ensures Halves(w1, w2 / 0x1_0000) == Middle(w1, w2)
  {
    var q, r := w1 / 0x1_0000, w1 % 0x1_0000;
    var h: int := w2 / 0x1_0000;
    DivModUnique(h, 0, h, 0x1_0000);
    DivModUnique(w1 * TWO32 + w2, w1 * 0x1_0000 + h, w2 % 0x1_0000, 0x1_0000);
    DivModUnique(w1 * 0x1_0000 + h, q, r * 0x1_0000 + h, TWO32);
  }

  /** The bytes go through the boxes in turn, and none changes its place. */
  lemma SubstitutedBytes(b: Boxes, u: Limb)
    requires Full(b)
    ensures var v := Substituted(b, u);
      && v / 0x100_0000 == b.s0[u / 0x100_0000] && v / 0x1_0000 % 256 == b.s1[u / 0x1_0000 % 256]
      && v / 0x100 % 256 == b.s0[u / 0x100 % 256] && v % 256 == b.s1[u % 256]
  {
    FourBytes(b.s0[u / 0x100_0000], b.s1[u / 0x1_0000 % 256], b.s0[u / 0x100 % 256], b.s1[u % 256]);
  }

  lemma FourBytes(a: Byte, b: Byte, c: Byte, d: Byte)
    ensures var v := a as int * 0x100_0000 + b as int * 0x1_0000 + c as int * 0x100 + d;
      v / 0x100_0000 == a && v / 0x1_0000 % 256 == b && v / 0x100 % 256 == c && v % 256 == d
  {
    var v := a as int * 0x100_0000 + b as int * 0x1_0000 + c as int * 0x100 + d;
    DivModUnique(v, a, b as int * 0x1_0000 + c as int * 0x100 + d, 0x100_0000);
    DivModUnique(v, a as int * 256 + b, c as int * 0x100 + d, 0x1_0000);
    DivModUnique(a as int * 256 + b, a, b, 256);
    DivModUnique(v, a as int * 0x1_0000 + b as int * 0x100 + c, d, 0x100);
    DivModUnique(a as int * 0x1_0000 + b as int * 0x100 + c, a as int * 0x100 + b, c, 256);
  }

  lemma RegistersMean(b: Boxes, m: Machine)
    requires Full(b)
    ensures var w1, w2 := Plus32(m.r1, Reorganized(m.cells).x1), Xor32(m.r2, Reorganized(m.cells).x2);
      Registers(b, m) == (Substituted(b, L1(Middle(w1, w2))), Substituted(b, L2(Middle(w2, w1))))
  {
    hide Halves, L1, L2, Substituted, Xor32, Reorganized;
    var w1, w2 := Plus32(m.r1, Reorganized(m.cells).x1), Xor32(m.r2, Reorganized(m.cells).x2);
    HalvesAreMiddle(w1, w2);
    HalvesAreMiddle(w2, w1);
  }

  /** Of cells of 31 bits the reorganization takes what the masks and shifts of the code take. */
  lemma ReorganizedMeans(c: Cells)
    requires AreCells(c)
    ensures var r := Reorganized(c);
      && r.x0 == (c[15] as int - c[15] % 0x8000) * 2 + c[14] % 0x1_0000
      && r.x1 == c[11] * 0x1_0000 % TWO32 + c[9] / 0x8000
      && r.x2 == c[7] * 0x1_0000 % TWO32 + c[5] / 0x8000
      && r.x3 == c[2] * 0x1_0000 % TWO32 + c[0] / 0x8000
  {
    HighHalf(c[15]);
    LowHalf(c[11]);
    HighHalf(c[9]);
    LowHalf(c[7]);
    HighHalf(c[5]);
    LowHalf(c[2]);
    HighHalf(c[0]);
  }

  lemma HighHalf(x: int)
    requires IsCell(x)
    ensures x / 0x8000 % 0x1_0000 == x / 0x8000 && (x - x % 0x8000) * 2 == x / 0x8000 * 0x1_0000
  {
    DivModUnique(x / 0x8000, 0, x / 0x8000, 0x1_0000);
  }

  lemma LowHalf(x: int)
    ensures x % 0x1_0000 * 0x1_0000 == x * 0x1_0000 % TWO32
  {
    DivModUnique(x * 0x1_0000, x / 0x1_0000, x % 0x1_0000 * 0x1_0000, TWO32);
  }

  /** Two of the published states right after loading: for zeros, and for the third test key and nonce. */
  lemma LoadVectors()
    ensures KeyCells(seq(16, _ => 0), seq(16, _ => 0)) == [
      0x0044_d700, 0x0026_bc00, 0x0062_6b00, 0x0013_5e00, 0x0057_8900, 0x0035_e200, 0x0071_3500, 0x0009_af00,
      0x004d_7800, 0x002f_1300, 0x006b_c400, 0x001a_f100, 0x005e_2600, 0x003c_4d00, 0x0078_9a00, 0x0047_ac00]
    ensures KeyCells(
        [0x3d, 0x4c, 0x4b, 0xe9, 0x6a, 0x82, 0xfd, 0xae, 0xb5, 0x8f, 0x64, 0x1d, 0xb1, 0x7b, 0x45, 0x5b],
        [0x84, 0x31, 0x9a, 0xa8, 0xde, 0x69, 0x15, 0xca, 0x1f, 0x6b, 0xda, 0x6b, 0xfb, 0xd8, 0xc7, 0x66]) == [
      0x1ec4_d784, 0x2626_bc31, 0x25e2_6b9a, 0x7493_5ea8, 0x3557_89de, 0x4135_e269, 0x7ef1_3515, 0x5709_afca,
      0x5acd_781f, 0x47af_136b, 0x326b_c4da, 0x0e9a_f16b, 0x58de_26fb, 0x3dbc_4dd8, 0x22f8_9ac7, 0x2dc7_ac66]
  {
  }

  // All states that are reached

  lemma InitializingKeeps(version14: bool, b: Boxes, m: Machine)
    requires Full(b) && AreCells(m.cells)
    ensures AreCells(Initializing(version14, b, m).cells)
  {
    hide IsCell, Registers, InitStep, Output, Reorganized, Xor32;
    var w := if version14 then Xor32(Output(m), Reorganized(m.cells).x3) else Output(m);
    InitStepKeeps(version14, m.cells, w / 2);
  }

  /** Whatever key, nonce and length of stream, in both builds: every cell lies in [1, 2^31 - 1]. */
  lemma {:induction false} ReachedCells(version14: bool, b: Boxes, k: seq<Byte>, iv: seq<Byte>, i: nat, n: nat)
    requires Full(b) && |k| == 16 && |iv| == 16
    ensures AreCells(Worked(b, Initialized(version14, b, Machine(KeyCells(k, iv), 0, 0), i), n).cells)
    decreases i + n
  {
    hide IsCell, Registers, WorkStep, Initializing, MakeU31;
    var start := Machine(KeyCells(k, iv), 0, 0);
    if n > 0 {
      ReachedCells(version14, b, k, iv, i, n - 1);
      WorkStepKeeps(Worked(b, Initialized(version14, b, start, i), n - 1).cells);
    } else if i > 0 {
      ReachedCells(version14, b, k, iv, i - 1, 0);
      InitializingKeeps(version14, b, Initialized(version14, b, start, i - 1));
    }
  }
}
