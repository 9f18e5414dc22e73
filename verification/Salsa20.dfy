/** salsa20.c: the hash on 64 bytes in place, the 256-bit key expansion, and the seekable cipher that walks
    the buffer byte by byte.
 */
module Salsa20 {
  import opened Words
  import opened ModArith
  import opened Powers
  import opened Bytes
  import opened WordBits

  // The core, on words of 32 bits

  function Plus(a: Limb, b: Limb): Limb {
    (a + b) % 0x1_0000_0000
  }

  /** `b ^ rotl(a + c, n)`. */
  function Mixed(b: Limb, a: Limb, c: Limb, n: nat): Limb
    requires 0 < n < 32
  {
    TwoThirtyTwo();
    Xor(b, RotL(Plus(a, c), n, 32), 32)
  }

  /** The rotation is to the left: bit by bit, and as a multiplication modulo `2^32 - 1`. */
  lemma MixedMeans(b: Limb, a: Limb, c: Limb, n: nat)
    requires 0 < n < 32
    ensures forall i: nat :: i < 32 ==>
      (Bit(Mixed(b, a, c, n), i) == (Bit(b, i) != Bit(Plus(a, c), if i < n then i + 32 - n else i - n)))
    ensures Cong(Xor(Mixed(b, a, c, n), b, 32), Two(n) * Plus(a, c), 0xffff_ffff)
  {
    hide Two, Xor, RotL, Bit, Cong, Plus;
    TwoThirtyTwo();
    var s: int := Plus(a, c);
    forall i: nat | i < 32
      ensures Bit(Mixed(b, a, c, n), i) == (Bit(b, i) != Bit(s, if i < n then i + 32 - n else i - n))
    {
      BitOfXor(b, RotL(s, n, 32), 32, i);
      BitRotated(s, n, 32, i);
    }
    RotROfRotL(s, n, 32);
    XorComm(b, RotL(s, n, 32), 32);
    XorTwice(RotL(s, n, 32), b, 32);
    RotationMultiplies(s, n, 32);
  }

  type State = s: seq<Limb> | |s| == 16 witness seq(16, _ => 0)

  /** A quarter round on four of the words. */
  function Quarter(y: State, a: nat, b: nat, c: nat, d: nat): State
    requires a < 16 && b < 16 && c < 16 && d < 16
  {
    Mix(Mix(Mix(Mix(y, b, a, d, 7), c, b, a, 9), d, c, b, 13), a, d, c, 18)
  }

  /** `y[i] ^= rotl(y[j] + y[k], n)`. */
  function Mix(y: State, i: nat, j: nat, k: nat, n: nat): State
    requires i < 16 && j < 16 && k < 16 && 0 < n < 32
  {
    y[i := Mixed(y[i], y[j], y[k], n)]
  }

  function ColumnRound(x: State): State {
    Quarter(Quarter(Quarter(Quarter(x, 0, 4, 8, 12), 5, 9, 13, 1), 10, 14, 2, 6), 15, 3, 7, 11)
  }

  function RowRound(y: State): State {
    Quarter(Quarter(Quarter(Quarter(y, 0, 1, 2, 3), 5, 6, 7, 4), 10, 11, 8, 9), 15, 12, 13, 14)
  }

  function DoubleRounds(x: State, n: nat): State {
    if n == 0 then x else RowRound(ColumnRound(DoubleRounds(x, n - 1)))
  }

  function Added(z: State, x: State): State {
    seq(16, i requires 0 <= i < 16 => Plus(z[i], x[i]))
  }

  /** Ten double rounds. */
  function Core(x: State): State {
    Added(DoubleRounds(x, 10), x)
  }

  // Examples of the Salsa20 specification

  /** `Mixed` with the sum as `q 2^(32-n) + l`. */
  lemma MixedIs(b: Limb, a: Limb, c: Limb, n: nat, q: int, l: int)
    requires n in {7, 9, 13, 18} && 0 <= q < Power(n) && 0 <= l < Power(32 - n)
    requires a + c in {q * Power(32 - n) + l, q * Power(32 - n) + l + 0x1_0000_0000}
    ensures 0 <= l * Power(n) + q < 0x1_0000_0000
    ensures Mixed(b, a, c, n) == Xor(b, l * Power(n) + q, 32)
    ensures b == 0 ==> Mixed(b, a, c, n) == l * Power(n) + q
  {
    hide Two, Xor, RotL;
    TwoThirtyTwo();
    SalsaPowers();
    RotLParts(l, q, n, 32);
    var s := q * Power(32 - n) + l;
    DivModUnique(a + c, if a + c == s then 0 else 1, s, 0x1_0000_0000);
    XorZero(l * Power(n) + q, 32);
    XorComm(b, l * Power(n) + q, 32);
  }

  function Power(n: nat): int {
    match n
    case 7 => 0x80
    case 9 => 0x200
    case 13 => 0x2000
    case 14 => 0x4000
    case 18 => 0x4_0000
    case 19 => 0x8_0000
    case 23 => 0x80_0000
    case _ => 0x200_0000
  }

  lemma SalsaPowers()
    ensures Two(7) == 0x80 && Two(9) == 0x200 && Two(13) == 0x2000 && Two(18) == 0x4_0000
    ensures Two(25) == 0x200_0000 && Two(23) == 0x80_0000 && Two(19) == 0x8_0000 && Two(14) == 0x4000
  {
    TwoAdd(7, 2);
    TwoAdd(7, 6);
    TwoAdd(9, 9);
    TwoAdd(18, 7);
    TwoAdd(14, 9);
    TwoAdd(13, 6);
    TwoAdd(7, 7);
  }

  /** The quarter round of the words `w` gives the words `z`. */
  predicate QuarterIs(w: seq<Limb>, z: seq<Limb>) {
    && |w| == |z| == 4
    && z[1] == Mixed(w[1], w[0], w[3], 7) && z[2] == Mixed(w[2], z[1], w[0], 9)
    && z[3] == Mixed(w[3], z[2], z[1], 13) && z[0] == Mixed(w[0], z[3], z[2], 18)
  }

  lemma QuarterInState(x: State, a: nat, b: nat, c: nat, d: nat, w: seq<Limb>, z: seq<Limb>)
    requires a < 16 && b < 16 && c < 16 && d < 16 && a != b && a != c && a != d && b != c && b != d && c != d
    requires QuarterIs(w, z) && x[a] == w[0] && x[b] == w[1] && x[c] == w[2] && x[d] == w[3]
    ensures Quarter(x, a, b, c, d) == x[a := z[0]][b := z[1]][c := z[2]][d := z[3]]
  {
    hide Mixed;
  }

  lemma QuarterOne()
    ensures QuarterIs([1, 0, 0, 0], [0x8008145, 0x80, 0x10200, 0x20500000])
  {
    hide Mixed, Xor;
    MixedIs(0, 1, 0, 7, 0, 1);
    MixedIs(0, 0x80, 1, 9, 0, 0x81);
    MixedIs(0, 0x10200, 0x80, 13, 0, 0x10280);
    MixedIs(1, 0x20500000, 0x10200, 18, 0x8144, 0x200);
    XorOfBytes(0, 0, 0, 1, 8, 0, 0x81, 0x44);
  }

  lemma QuarterFirst()
    ensures QuarterIs([0x8008145, 0, 0, 0], [0x8186a22d, 0x40a284, 0x82479210, 0x6929051])
  {
    hide Mixed, Xor;
    MixedIs(0, 0x8008145, 0, 7, 4, 0x8145);
    MixedIs(0, 0x40a284, 0x8008145, 9, 0x10, 0x4123c9);
    MixedIs(0, 0x82479210, 0x40a284, 13, 0x1051, 0x3494);
    MixedIs(0x8008145, 0x6929051, 0x82479210, 18, 0x22368, 0x2261);
    XorOfBytes(8, 0, 0x81, 0x45, 0x89, 0x86, 0x23, 0x68);
  }

  lemma QuarterLast()
    ensures QuarterIs([0, 0, 0, 0x80], [0x2402200, 0x4000, 0x800000, 0x8000090])
  {
    hide Mixed, Xor;
    MixedIs(0, 0, 0x80, 7, 0, 0x80);
    MixedIs(0, 0x4000, 0, 9, 0, 0x4000);
    MixedIs(0x80, 0x800000, 0x4000, 13, 0x10, 0x4000);
    XorOfBytes(0, 0, 0, 0x80, 8, 0, 0, 0x10);
    MixedIs(0, 0x8000090, 0x800000, 18, 0x2200, 0x90);
  }

  lemma QuarterThird()
    ensures QuarterIs([0, 0, 0x10200, 0], [0x8008104, 0, 0x10200, 0x20400000])
  {
    hide Mixed, Xor;
    MixedIs(0, 0, 0, 7, 0, 0);
    MixedIs(0x10200, 0, 0, 9, 0, 0);
    XorOfBytes(0, 1, 2, 0, 0, 0, 0, 0);
    MixedIs(0, 0x10200, 0, 13, 0, 0x10200);
    MixedIs(0, 0x20400000, 0x10200, 18, 0x8104, 0x200);
  }

  lemma QuarterSecond()
    ensures QuarterIs([0, 0x20500000, 0, 0], [0x612a8020, 0x20500000, 0xa0000040, 0x8180a])
  {
    hide Mixed, Xor;
    MixedIs(0x20500000, 0, 0, 7, 0, 0);
    XorOfBytes(0x20, 0x50, 0, 0, 0, 0, 0, 0);
    MixedIs(0, 0x20500000, 0, 9, 0x40, 0x500000);
    MixedIs(0, 0xa0000040, 0x20500000, 13, 0x180a, 0x40);
    MixedIs(0, 0x8180a, 0xa0000040, 18, 0x28020, 0x184a);
  }

  lemma QuarterNone()
    ensures QuarterIs([0, 0, 0, 0], [0, 0, 0, 0])
  {
    hide Mixed, Xor;
    MixedIs(0, 0, 0, 7, 0, 0);
    MixedIs(0, 0, 0, 9, 0, 0);
    MixedIs(0, 0, 0, 13, 0, 0);
    MixedIs(0, 0, 0, 18, 0, 0);
  }

  /** The single word 1 through one column round, and through one double round. */
  lemma DoubleRoundExample(x: State)
    requires x[0] == 1 && forall i :: 0 < i < 16 ==> x[i] == 0
    ensures ColumnRound(x) == [
      0x08008145, 0x00000000, 0x00000000, 0x00000000,
      0x00000080, 0x00000000, 0x00000000, 0x00000000,
      0x00010200, 0x00000000, 0x00000000, 0x00000000,
      0x20500000, 0x00000000, 0x00000000, 0x00000000]
    ensures DoubleRounds(x, 1) == [
      0x8186a22d, 0x0040a284, 0x82479210, 0x06929051,
      0x08000090, 0x02402200, 0x00004000, 0x00800000,
      0x00010200, 0x20400000, 0x08008104, 0x00000000,
      0x20500000, 0xa0000040, 0x0008180a, 0x612a8020]
  {
    hide Mixed, Quarter, QuarterIs, RowRound, ColumnRound;
    var y := FirstColumns(x);
    NoDoubleRounds(x);
    OneDoubleRound(x, 0);
    RowsOfFirst(y);
  }

  lemma FirstColumns(x: State) returns (y: State)
    requires x[0] == 1 && forall i :: 0 < i < 16 ==> x[i] == 0
    ensures y == ColumnRound(x) && y == [
      0x08008145, 0x00000000, 0x00000000, 0x00000000,
      0x00000080, 0x00000000, 0x00000000, 0x00000000,
      0x00010200, 0x00000000, 0x00000000, 0x00000000,
      0x20500000, 0x00000000, 0x00000000, 0x00000000]
  {
    hide Quarter, QuarterIs;
    QuarterOne();
    QuarterNone();
    var none: seq<Limb> := [0, 0, 0, 0];
    QuarterInState(x, 0, 4, 8, 12, [1, 0, 0, 0], [0x8008145, 0x80, 0x10200, 0x20500000]);
    y := Quarter(x, 0, 4, 8, 12);
    QuarterInState(y, 5, 9, 13, 1, none, none);
    y := Quarter(y, 5, 9, 13, 1);
    QuarterInState(y, 10, 14, 2, 6, none, none);
    y := Quarter(y, 10, 14, 2, 6);
    QuarterInState(y, 15, 3, 7, 11, none, none);
    y := Quarter(y, 15, 3, 7, 11);
  }

  lemma RowsOfFirst(x: State)
    requires x == [
      0x08008145, 0x00000000, 0x00000000, 0x00000000,
      0x00000080, 0x00000000, 0x00000000, 0x00000000,
      0x00010200, 0x00000000, 0x00000000, 0x00000000,
      0x20500000, 0x00000000, 0x00000000, 0x00000000]
    ensures RowRound(x) == [
      0x8186a22d, 0x0040a284, 0x82479210, 0x06929051,
      0x08000090, 0x02402200, 0x00004000, 0x00800000,
      0x00010200, 0x20400000, 0x08008104, 0x00000000,
      0x20500000, 0xa0000040, 0x0008180a, 0x612a8020]
  {
    hide Quarter, QuarterIs;
    QuarterFirst();
    QuarterLast();
    QuarterThird();
    QuarterSecond();
    QuarterInState(x, 0, 1, 2, 3, [0x8008145, 0, 0, 0], [0x8186a22d, 0x40a284, 0x82479210, 0x6929051]);
    var y0 := Quarter(x, 0, 1, 2, 3);
    QuarterInState(y0, 5, 6, 7, 4, [0, 0, 0, 0x80], [0x2402200, 0x4000, 0x800000, 0x8000090]);
    var y1 := Quarter(y0, 5, 6, 7, 4);
    QuarterInState(y1, 10, 11, 8, 9, [0, 0, 0x10200, 0], [0x8008104, 0, 0x10200, 0x20400000]);
    var y2 := Quarter(y1, 10, 11, 8, 9);
    QuarterInState(y2, 15, 12, 13, 14, [0, 0x20500000, 0, 0], [0x612a8020, 0x20500000, 0xa0000040, 0x8180a]);
  }

  // Little-endian words

  function FromLittle(b: seq<Byte>): Limb
    requires |b| == 4
  {
    ValueBound([b[3], b[2], b[1], b[0]]);
    TwoThirtyTwo();
    Value([b[3], b[2], b[1], b[0]])
  }

  function ToLittle(w: Limb): (b: seq<Byte>)
    ensures |b| == 4
  {
    var b := BytesOf(w, 4);
    [b[3], b[2], b[1], b[0]]
  }

  function WordsOf(b: seq<Byte>): State
    requires |b| == 64
  {
    seq(16, i requires 0 <= i < 16 => FromLittle(b[4 * i..4 * i + 4]))
  }

  function BytesFrom(x: State): (b: seq<Byte>)
    ensures |b| == 64
  {
    seq(64, i requires 0 <= i < 64 => ToLittle(x[i / 4])[i % 4])
  }

  lemma FromToLittle(w: Limb, b: seq<Byte>)
    requires |b| == 4
    ensures FromLittle(ToLittle(w)) == w && ToLittle(FromLittle(b)) == b
  {
    hide Value, BytesOf, Two;
    TwoThirtyTwo();
    ValueOfBytes(w, 4);
    var v := BytesOf(w, 4);
    assert [v[0], v[1], v[2], v[3]] == v;
    BytesOfValue([b[3], b[2], b[1], b[0]]);
  }

  /** Byte `j` of a word holds its bits from `8 j` on. */
  lemma LittleBytes(w: Limb, j: nat)
    requires j < 4
    ensures ToLittle(w)[j] == w / Two(8 * j) % 256
  {
    hide Two;
    ByteAt(w, 4, j);
  }

  /** The 64-byte hash function. */
  function Hashed(b: seq<Byte>): (h: seq<Byte>)
    requires |b| == 64
    ensures |h| == 64
  {
    BytesFrom(Core(WordsOf(b)))
  }

  // The code's rounds

  method QuarterRound(y: array<Limb>, a: nat, b: nat, c: nat, d: nat)
    requires y.Length == 16 && a < 16 && b < 16 && c < 16 && d < 16
    modifies y
    ensures y[..] == Quarter(old(y[..]), a, b, c, d)
  {
    hide Mixed;
    MixStep(y, b, a, d, 7);
    MixStep(y, c, b, a, 9);
    MixStep(y, d, c, b, 13);
    MixStep(y, a, d, c, 18);
  }

  /** One line of a quarter round. */
  method MixStep(y: array<Limb>, i: nat, j: nat, k: nat, n: nat)
    requires y.Length == 16 && i < 16 && j < 16 && k < 16 && 0 < n < 32
    modifies y
    ensures y[..] == Mix(old(y[..]), i, j, k, n)
  {
    hide Mixed;
    y[i] := Mixed(y[i], y[j], y[k], n);
  }

  method RowRoundInPlace(y: array<Limb>)
    requires y.Length == 16
    modifies y
    ensures y[..] == RowRound(old(y[..]))
  {
    hide Quarter;
    QuarterRound(y, 0, 1, 2, 3);
    QuarterRound(y, 5, 6, 7, 4);
    QuarterRound(y, 10, 11, 8, 9);
    QuarterRound(y, 15, 12, 13, 14);
  }

  method ColumnRoundInPlace(x: array<Limb>)
    requires x.Length == 16
    modifies x
    ensures x[..] == ColumnRound(old(x[..]))
  {
    hide Quarter;
    QuarterRound(x, 0, 4, 8, 12);
    QuarterRound(x, 5, 9, 13, 1);
    QuarterRound(x, 10, 14, 2, 6);
    QuarterRound(x, 15, 3, 7, 11);
  }

  method LoadLittle(b: array<Byte>, at: nat) returns (w: Limb)
    requires at + 4 <= b.Length
    ensures w == FromLittle(b[at..at + 4])
  {
    w := FromLittle(b[at..at + 4]);
  }

  method StoreLittle(b: array<Byte>, at: nat, w: Limb)
    requires at + 4 <= b.Length
    modifies b
    ensures forall i :: 0 <= i < b.Length ==> b[i] == if at <= i < at + 4 then ToLittle(w)[i - at] else old(b[i])
  {
    hide ToLittle;
    var v := ToLittle(w);
    b[at], b[at + 1], b[at + 2], b[at + 3] := v[0], v[1], v[2], v[3];
  }

  /** `s20_hash`, in place. */
  method Hash(bytes: array<Byte>)
    requires bytes.Length == 64
    modifies bytes
    ensures bytes[..] == Hashed(old(bytes[..]))
  {
    hide FromLittle, ToLittle, Plus, RowRound, ColumnRound, DoubleRounds;
    ghost var start := WordsOf(bytes[..]);
    var x, z := new Limb[16](_ => 0), new Limb[16](_ => 0);
    var i := 0;
    while i < 16
      invariant 0 <= i <= 16 && bytes[..] == old(bytes[..])
      invariant x[..i] == start[..i] && z[..i] == start[..i]
    {
      z[i] := LoadLittle(bytes, 4 * i);
      x[i] := z[i];
      i := i + 1;
    }
    assert x[..] == start && z[..] == start;
    TenDoubleRounds(z);
    AddAndStore(bytes, x, z);
  }

  method TenDoubleRounds(z: array<Limb>)
    requires z.Length == 16
    modifies z
    ensures z[..] == DoubleRounds(old(z[..]), 10)
  {
    hide RowRound, ColumnRound;
    ghost var start := z[..];
    var i := 0;
    NoDoubleRounds(start);
    while i < 10
      invariant 0 <= i <= 10 && z[..] == DoubleRounds(start, i)
    {
      ColumnRoundInPlace(z);
      RowRoundInPlace(z);
      OneDoubleRound(start, i);
      i := i + 1;
    }
  }

  lemma NoDoubleRounds(x: State)
    ensures DoubleRounds(x, 0) == x
  {
  }

  lemma OneDoubleRound(x: State, n: nat)
    ensures DoubleRounds(x, n + 1) == RowRound(ColumnRound(DoubleRounds(x, n)))
  {
    hide RowRound, ColumnRound;
  }

  /** `z += x`, stored word by word. */
  method AddAndStore(bytes: array<Byte>, x: array<Limb>, z: array<Limb>)
    requires bytes.Length == 64 && x.Length == z.Length == 16 && x != z
    modifies bytes, z
    ensures bytes[..] == BytesFrom(Added(old(z[..]), x[..])) && x[..] == old(x[..])
  {
    hide ToLittle, Plus;
    ghost var sum := Added(z[..], x[..]);
    var i := 0;
    while i < 16
      invariant 0 <= i <= 16 && x[..] == old(x[..])
      invariant forall k :: i <= k < 16 ==> z[k] == old(z[k])
      invariant forall k :: 0 <= k < 4 * i ==> bytes[k] == BytesFrom(sum)[k]
    {
      z[i] := Plus(z[i], x[i]);
      StoreLittle(bytes, 4 * i, z[i]);
      WordBytes(sum, i);
      i := i + 1;
    }
  }

  lemma WordBytes(x: State, i: nat)
    requires i < 16
    ensures forall k :: 4 * i <= k < 4 * i + 4 ==> BytesFrom(x)[k] == ToLittle(x[i])[k - 4 * i]
  {
    hide ToLittle;
  }

  // Key expansion

  /** "expand 32-byte k". */
  const SIGMA: seq<Byte> := [101, 120, 112, 97, 110, 100, 32, 51, 50, 45, 98, 121, 116, 101, 32, 107]

  lemma SigmaIsText()
    ensures |SIGMA| == 16 && forall i :: 0 <= i < 16 ==> SIGMA[i] == "expand 32-byte k"[i] as int
  {
  }

  /** The constants on the diagonal, the key halves and the nonce with its counter between them. */
  function Layout(k: seq<Byte>, n: seq<Byte>): (b: seq<Byte>)
    requires |k| == 32 && |n| == 16
    ensures |b| == 64
  {
    SIGMA[..4] + k[..16] + SIGMA[4..8] + n + SIGMA[8..12] + k[16..] + SIGMA[12..]
  }

  method Expand32(k: array<Byte>, n: array<Byte>, keystream: array<Byte>)
    requires k.Length >= 32 && n.Length == 16 && keystream.Length == 64 && keystream != k && keystream != n
    modifies keystream
    ensures keystream[..] == Hashed(Layout(k[..32], n[..]))
  {
    hide Hashed;
    var i := 0;
    while i < 64
      invariant i in {0, 20, 40, 60, 80}
      invariant i > 0 ==> keystream[..4] == SIGMA[..4]
      invariant i > 20 ==> keystream[20..24] == SIGMA[4..8]
      invariant i > 40 ==> keystream[40..44] == SIGMA[8..12]
      invariant i > 60 ==> keystream[60..] == SIGMA[12..]
      decreases 80 - i
    {
      var j := 0;
      ghost var before := keystream[..];
      while j < 4
        invariant 0 <= j <= 4
        invariant forall t :: 0 <= t < 64 ==>
          keystream[t] == if i <= t < i + j then SIGMA[4 * (i / 20) + (t - i)] else before[t]
      {
        keystream[i + j] := SIGMA[4 * (i / 20) + j];
        j := j + 1;
      }
      RowDone(before, keystream[..], i);
      i := i + 20;
    }
    i := 0;
    while i < 16
      invariant 0 <= i <= 16
      invariant keystream[..4] == SIGMA[..4] && keystream[20..24] == SIGMA[4..8]
      invariant keystream[40..44] == SIGMA[8..12] && keystream[60..] == SIGMA[12..]
      invariant keystream[4..4 + i] == k[..i] && keystream[44..44 + i] == k[16..16 + i] &&
        keystream[24..24 + i] == n[..i]
    {
      keystream[4 + i] := k[i];
      keystream[44 + i] := k[i + 16];
      keystream[24 + i] := n[i];
      i := i + 1;
    }
    LaidOut(keystream[..], k[..32], n[..]);
    Hash(keystream);
  }

  /** One row of constants is in place, and the others stay. */
  lemma RowDone(before: seq<Byte>, b: seq<Byte>, i: nat)
    requires |before| == |b| == 64 && i in {0, 20, 40, 60}
    requires forall t :: 0 <= t < 64 ==> b[t] == if i <= t < i + 4 then SIGMA[4 * (i / 20) + (t - i)] else before[t]
    ensures b[..4] == if i == 0 then SIGMA[..4] else before[..4]
    ensures b[20..24] == if i == 20 then SIGMA[4..8] else before[20..24]
    ensures b[40..44] == if i == 40 then SIGMA[8..12] else before[40..44]
    ensures b[60..] == if i == 60 then SIGMA[12..] else before[60..]
  {
  }

  lemma LaidOut(b: seq<Byte>, k: seq<Byte>, n: seq<Byte>)
    requires |b| == 64 && |k| == 32 && |n| == 16
    requires b[..4] == SIGMA[..4] && b[20..24] == SIGMA[4..8] && b[40..44] == SIGMA[8..12] && b[60..] == SIGMA[12..]
    requires b[4..20] == k[..16] && b[24..40] == n && b[44..60] == k[16..]
    ensures b == Layout(k, n)
  {
    assert b == b[..4] + b[4..20] + b[20..24] + b[24..40] + b[40..44] + b[44..60] + b[60..];
  }

  // The stream

  /** Block `blk` of the keystream; the high half of the counter stays zero. */
  function Block(key: seq<Byte>, nonce: seq<Byte>, blk: Limb): (b: seq<Byte>)
    requires |key| == 32 && |nonce| == 8
    ensures |b| == 64
  {
    Hashed(Layout(key, nonce + ToLittle(blk) + [0, 0, 0, 0]))
  }

  /** Byte `p` of the keystream. */
  function StreamByte(key: seq<Byte>, nonce: seq<Byte>, p: Limb): Byte
    requires |key| == 32 && |nonce| == 8
  {
    Block(key, nonce, p / 64)[p % 64]
  }

  /** The stream index `si + i`, in 32 bits. */
  function Index(si: Limb, i: nat): Limb {
    (si as int + i) % 0x1_0000_0000
  }

  function XorByte(a: Byte, b: Byte): Byte {
    assert Two(3) == 8;
    TwoAdd(3, 3);
    TwoAdd(6, 2);
    Xor(a, b, 8)
  }

  /** `b` encrypted at stream index `si`. */
  function Crypted(key: seq<Byte>, nonce: seq<Byte>, si: Limb, b: seq<Byte>): (r: seq<Byte>)
    requires |key| == 32 && |nonce| == 8
    ensures |r| == |b|
  {
    seq(|b|, i requires 0 <= i < |b| => XorByte(b[i], StreamByte(key, nonce, Index(si, i))))
  }

  datatype Status = Success | Failure

  method Crypt32(key: array?<Byte>, nonce: array?<Byte>, si: Limb, buf: array?<Byte>, buflen: Limb)
    returns (status: Status)
    requires key != null ==> key.Length >= 32 && key != buf
    requires nonce != null ==> nonce.Length >= 8
    requires buf != null ==> buf.Length >= buflen
    modifies buf
    ensures status == if key == null || nonce == null || buf == null then Failure else Success
    ensures status == Success ==>
      buf[..] == old(Crypted(key[..32], nonce[..8], si, buf[..buflen]) + buf[buflen..])
    ensures status == Failure && buf != null ==> buf[..] == old(buf[..])
  {
    if key == null || nonce == null || buf == null {
      return Failure;
    }
    CryptAll(key, nonce, si, buf, buflen);
    status := Success;
  }

  /** The nonce in the low 8 bytes, zeros above. */
  method StartNonce(nonce: array<Byte>) returns (n: array<Byte>)
    requires nonce.Length >= 8
    ensures fresh(n) && n.Length == 16 && n[..8] == nonce[..8] && n[12..] == [0, 0, 0, 0]
  {
    n := new Byte[16](_ => 0);
    var i := 0;
    while i < 8
      invariant 0 <= i <= 8 && n[..i] == nonce[..i] && n[8..] == [0, 0, 0, 0, 0, 0, 0, 0]
    {
      n[i] := nonce[i];
      i := i + 1;
    }
  }

  method CryptAll(key: array<Byte>, nonce: array<Byte>, si: Limb, buf: array<Byte>, buflen: Limb)
    requires key.Length >= 32 && nonce.Length >= 8 && buf.Length >= buflen && key != buf
    modifies buf
    ensures buf[..] == old(Crypted(key[..32], nonce[..8], si, buf[..buflen]) + buf[buflen..])
  {
    hide Hashed, Layout, ToLittle, XorByte, Block, StreamByte, Index;
    ghost var k, v, b0 := key[..32], nonce[..8], buf[..];
    var keystream := new Byte[64](_ => 0);
    var n := StartNonce(nonce);
    FirstIndex(si);
    if si % 64 != 0 {
      MakeBlock(key, n, keystream, si / 64, v);
    }
    var i := 0;
    while i < buflen
      invariant 0 <= i <= buflen && n[..8] == v && n[12..] == [0, 0, 0, 0] && key[..32] == k
      invariant i < buflen && Index(si, i) % 64 != 0 ==> keystream[..] == Block(k, v, Index(si, i) / 64)
      invariant forall t :: 0 <= t < i ==> buf[t] == XorByte(b0[t], StreamByte(k, v, Index(si, t)))
      invariant forall t :: i <= t < buf.Length ==> buf[t] == b0[t]
    {
      if Index(si, i) % 64 == 0 {
        MakeBlock(key, n, keystream, Index(si, i) / 64, v);
      }
      StreamIs(k, v, Index(si, i));
      buf[i] := XorByte(buf[i], keystream[Index(si, i) % 64]);
      NextIndex(si, i);
      i := i + 1;
    }
    assert buf[..buflen] == Crypted(k, v, si, b0[..buflen]);
    assert buf[buflen..] == b0[buflen..];
    assert buf[..] == buf[..buflen] + buf[buflen..];
  }

  /** The counter into bytes 8 to 11 of `n`, and the block. */
  method MakeBlock(key: array<Byte>, n: array<Byte>, keystream: array<Byte>, blk: Limb, ghost nonce: seq<Byte>)
    requires key.Length >= 32 && n.Length == 16 && keystream.Length == 64
    requires keystream != key && keystream != n && n != key
    requires |nonce| == 8 && n[..8] == nonce && n[12..] == [0, 0, 0, 0]
    modifies n, keystream
    ensures keystream[..] == Block(key[..32], nonce, blk)
    ensures n[..8] == nonce && n[12..] == [0, 0, 0, 0]
  {
    hide Hashed, Layout, ToLittle;
    StoreLittle(n, 8, blk);
    assert n[..8] == nonce && n[12..] == [0, 0, 0, 0];
    assert n[8..12] == ToLittle(blk);
    assert n[..] == n[..8] + n[8..12] + n[12..];
    Expand32(key, n, keystream);
  }

  lemma FirstIndex(si: Limb)
    ensures Index(si, 0) == si
  {
  }

  lemma StreamIs(key: seq<Byte>, nonce: seq<Byte>, p: Limb)
    requires |key| == 32 && |nonce| == 8
    ensures StreamByte(key, nonce, p) == Block(key, nonce, p / 64)[p % 64]
  {
  }

  /** The index moves on within its block, or to the start of one: 2^32 is a multiple of 64. */
  lemma NextIndex(si: Limb, i: nat)
    ensures Index(si, i + 1) % 64 != 0 ==> Index(si, i + 1) / 64 == Index(si, i) / 64
  {
    var p: int := Index(si, i);
    var q := (si as int + i) / 0x1_0000_0000;
    assert si as int + i == q * 0x1_0000_0000 + p;
    if p + 1 < 0x1_0000_0000 {
      DivModUnique(si as int + i + 1, q, p + 1, 0x1_0000_0000);
    } else {
      DivModUnique(si as int + i + 1, q + 1, 0, 0x1_0000_0000);
    }
  }

  // Laws of the cipher

  /** Encrypting twice gives the plaintext back. */
  lemma CryptTwice(key: seq<Byte>, nonce: seq<Byte>, si: Limb, b: seq<Byte>)
    requires |key| == 32 && |nonce| == 8
    ensures Crypted(key, nonce, si, Crypted(key, nonce, si, b)) == b
  {
    hide StreamByte, Xor;
    forall i | 0 <= i < |b| ensures Crypted(key, nonce, si, Crypted(key, nonce, si, b))[i] == b[i] {
      TwoEight(0);
      XorTwice(b[i], StreamByte(key, nonce, Index(si, i)), 8);
    }
  }

  /** A buffer may be encrypted in two parts, the index moved on by the length of the first. */
  lemma CryptSplit(key: seq<Byte>, nonce: seq<Byte>, si: Limb, a: seq<Byte>, b: seq<Byte>)
    requires |key| == 32 && |nonce| == 8
    ensures Crypted(key, nonce, si, a + b) == Crypted(key, nonce, si, a) + Crypted(key, nonce, Index(si, |a|), b)
  {
    hide StreamByte, XorByte;
    forall i | 0 <= i < |b| ensures Index(Index(si, |a|), i) == Index(si, |a| + i) {
      ModPlus(si as int + |a|, i, 0x1_0000_0000);
    }
  }
}
