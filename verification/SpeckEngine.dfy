/** SpeckEngine.java: word sizes from 16 to 64 bits in Java integers of 32 or 64 bits, masked to the word,
    with the key schedule in a circular buffer of m words.
 */
module SpeckEngine {
  import opened Bytes
  import opened ModArith
  import opened Powers
  import opened WordBits
  import opened Speck

  /** What tells the members of the family apart: sizes in bytes, and the Java type's width in bits. */
  datatype Variant = Variant(wordSize: nat, baseRounds: nat, alpha: nat, beta: nat, keySizes: set<nat>, wide: nat)

  datatype Option<T> = None | Some(value: T)

  /** The cipher for a block size; other block sizes are refused. */
  function VariantFor(blockSizeBits: int): (v: Option<Variant>)
    ensures v.Some? ==> Known(v.value)
  {
    match blockSizeBits
    case 32 => Some(Variant(2, 20, 7, 2, {8}, 32))
    case 48 => Some(Variant(3, 21, 8, 3, {9, 12}, 32))
    case 64 => Some(Variant(4, 25, 8, 3, {12, 16}, 32))
    case 96 => Some(Variant(6, 28, 8, 3, {12, 18}, 64))
    case 128 => Some(Variant(8, 32, 8, 3, {16, 24, 32}, 64))
    case _ => None
  }

  predicate Known(v: Variant) {
    || v == Variant(2, 20, 7, 2, {8}, 32)
    || v == Variant(3, 21, 8, 3, {9, 12}, 32)
    || v == Variant(4, 25, 8, 3, {12, 16}, 32)
    || v == Variant(6, 28, 8, 3, {12, 18}, 64)
    || v == Variant(8, 32, 8, 3, {16, 24, 32}, 64)
  }

  function ShapeOf(v: Variant): Shape {
    Shape(8 * v.wordSize, v.alpha, v.beta)
  }

  lemma KnownIsSound(v: Variant)
    requires Known(v)
    ensures Sound(ShapeOf(v)) && ShapeOf(v).w <= v.wide
    ensures forall n :: n in v.keySizes ==> n % v.wordSize == 0 && 2 <= n / v.wordSize <= 4
    ensures 2 <= v.baseRounds <= 32
  {
  }

  /** Word `j` of a key of bytes: the last word of the bytes comes first. */
  function KeyWord(v: Variant, bytes: seq<Byte>, j: nat): int
    requires v.wordSize > 0 && (j + 1) * v.wordSize <= |bytes|
  {
    Value(bytes[|bytes| - (j + 1) * v.wordSize..|bytes| - j * v.wordSize])
  }

  function KeyWords(v: Variant, bytes: seq<Byte>, m: nat): (key: seq<int>)
    requires v.wordSize > 0 && m * v.wordSize == |bytes|
    ensures |key| == m
  {
    seq(m, j requires 0 <= j < m => (Reaches(j, m, v.wordSize); KeyWord(v, bytes, j)))
  }

  lemma Reaches(j: nat, m: nat, n: nat)
    requires j < m
    ensures (j + 1) * n <= m * n
  {
    MulLeft(j + 1, m, n);
  }

  /** The key schedule of a key of bytes. */
  function Expanded(v: Variant, bytes: seq<Byte>): (k: seq<int>)
    requires Known(v) && |bytes| in v.keySizes
  {
    KnownIsSound(v);
    var m := |bytes| / v.wordSize;
    RoundKeys(ShapeOf(v), KeyWords(v, bytes, m), v.baseRounds + (m - 2))
  }

  /** The parameters of the published family: rotations, and rounds by key length. */
  lemma FamilyParameters(blockSizeBits: int, bytes: seq<Byte>)
    requires VariantFor(blockSizeBits).Some? && |bytes| in VariantFor(blockSizeBits).value.keySizes
    ensures var v := VariantFor(blockSizeBits).value;
      && (v.alpha, v.beta) == (if blockSizeBits == 32 then (7, 2) else (8, 3)) && 16 * v.wordSize == blockSizeBits
      && (blockSizeBits, 8 * |bytes|, |Expanded(v, bytes)|) in {
        (32, 64, 22), (48, 72, 22), (48, 96, 23), (64, 96, 26), (64, 128, 27),
        (96, 96, 28), (96, 144, 29), (128, 128, 32), (128, 192, 33), (128, 256, 34)}
  {
    hide RoundKeys, KeyWords;
  }

  // Java's integer operations

  /** `mask`: the bits of the word. */
  function Mask(v: Variant, x: int): int {
    x % Two(8 * v.wordSize)
  }

  /** `mask((rotr(x, alpha) + y) ^ k)`, computed in the wider type. */
  function MaskedSum(v: Variant, x: int, y: int, k: int): int
    requires Known(v)
  {
    KnownIsSound(v);
    Mask(v, Xor((WideRotR(x, v.alpha, 8 * v.wordSize, v.wide) + y) % Two(v.wide), k, v.wide))
  }

  /** `mask(rotl(y, beta) ^ x)`. */
  function MaskedMix(v: Variant, y: int, x: int): int
    requires Known(v)
  {
    KnownIsSound(v);
    Mask(v, Xor(WideRotL(y, v.beta, 8 * v.wordSize, v.wide), x, v.wide))
  }

  /** `mask(rotr(x ^ y, beta))`. */
  function MaskedUnmix(v: Variant, x: int, y: int): int
    requires Known(v)
  {
    KnownIsSound(v);
    Mask(v, WideRotR(Xor(x, y, v.wide), v.beta, 8 * v.wordSize, v.wide))
  }

  /** `mask(rotl(mask((x ^ k) - y), alpha))`. */
  function MaskedDifference(v: Variant, x: int, y: int, k: int): int
    requires Known(v)
  {
    KnownIsSound(v);
    Mask(v, WideRotL(Mask(v, (Xor(x, k, v.wide) - y) % Two(v.wide)), v.alpha, 8 * v.wordSize, v.wide))
  }

  /** Masking in the end is computing modulo the word size all along. */
  lemma MaskedRound(v: Variant, x: int, y: int, k: int)
    requires Known(v) && AreWords(ShapeOf(v), Pair(x, y)) && IsWord(ShapeOf(v), k)
    ensures var x' := MaskedSum(v, x, y, k); Round(ShapeOf(v), Pair(x, y), k) == Pair(x', MaskedMix(v, y, x'))
  {
    hide Two, Xor, RotL, RotR, WideRotL, WideRotR, Cong, Known;
    KnownIsSound(v);
    var w, n, s := 8 * v.wordSize, v.wide, ShapeOf(v);
    var t := WideRotR(x, v.alpha, w, n) + y;
    WideRotations(x, v.alpha, w, n);
    CongRefl(y, Two(w));
    CongAdd(WideRotR(x, v.alpha, w, n), RotR(x, v.alpha, w), y, y, Two(w));
    MaskMask(t, w, n);
    CongTrans(t % Two(n), t, RotR(x, v.alpha, w) + y, Two(w));
    CongMod(t % Two(n), RotR(x, v.alpha, w) + y, Two(w));
    XorMasked(t % Two(n), k, n, w);
    DivModUnique(k, 0, k, Two(w));
    var x' := MaskedSum(v, x, y, k);
    MaskedLeft(v, y, x');
  }

  lemma MaskedLeft(v: Variant, y: int, x: int)
    requires Known(v) && AreWords(ShapeOf(v), Pair(x, y))
    ensures MaskedMix(v, y, x) == Xor(RotL(y, v.beta, 8 * v.wordSize), x, 8 * v.wordSize)
  {
    hide Two, Xor, RotL, RotR, WideRotL, WideRotR, Cong, Known;
    KnownIsSound(v);
    var w, n := 8 * v.wordSize, v.wide;
    WideRotations(y, v.beta, w, n);
    CongMod(WideRotL(y, v.beta, w, n), RotL(y, v.beta, w), Two(w));
    RotROfRotL(y, v.beta, w);
    DivModUnique(RotL(y, v.beta, w), 0, RotL(y, v.beta, w), Two(w));
    DivModUnique(x, 0, x, Two(w));
    XorMasked(WideRotL(y, v.beta, w, n), x, n, w);
  }

  lemma MaskedUnround(v: Variant, x: int, y: int, k: int)
    requires Known(v) && AreWords(ShapeOf(v), Pair(x, y)) && IsWord(ShapeOf(v), k)
    ensures var y' := MaskedUnmix(v, x, y);
      Unround(ShapeOf(v), Pair(x, y), k) == Pair(MaskedDifference(v, x, y', k), y')
  {
    hide Two, Xor, RotL, RotR, WideRotL, WideRotR, Cong, Known;
    KnownIsSound(v);
    var w, n := 8 * v.wordSize, v.wide;
    XorNarrow(x, y, n, w);
    var z := Xor(x, y, w);
    WideRotations(z, v.beta, w, n);
    RotLOfRotR(z, v.beta, w);
    CongReducedTo(WideRotR(z, v.beta, w, n), RotR(z, v.beta, w), Two(w));
    var y' := RotR(z, v.beta, w);
    XorNarrow(x, k, n, w);
    var u := Xor(x, k, w) - y';
    MaskMask(u, w, n);
    CongMod(u % Two(n), u, Two(w));
    var d := u % Two(w);
    WideRotations(d, v.alpha, w, n);
    RotROfRotL(d, v.alpha, w);
    CongReducedTo(WideRotL(d, v.alpha, w, n), RotL(d, v.alpha, w), Two(w));
  }

  lemma CongReducedTo(a: int, b: int, m: int)
    requires m > 0 && Cong(a, b, m) && 0 <= b < m
    ensures a % m == b
  {
    hide Cong;
    CongMod(a, b, m);
    DivModUnique(b, 0, b, m);
  }

  ghost predicate AllWords(s: Shape, k: seq<int>) {
    forall i :: 0 <= i < |k| ==> IsWord(s, k[i])
  }

  /** Expanded keys are words. */
  lemma ExpandedWords(s: Shape, key: seq<int>, k: seq<int>)
    requires Sound(s) && |key| >= 2 && AllWords(s, key)
    requires forall j :: 0 <= j < |k| ==> k[j] == KWord(s, key, j)
    ensures k == RoundKeys(s, key, |k|) && AllWords(s, k)
  {
    hide LWord, KWord;
    forall j | 0 <= j < |k| ensures IsWord(s, k[j]) {
      KeysAreWords(s, key, j);
    }
  }

  lemma KeyIsWords(v: Variant, bytes: seq<Byte>, m: nat)
    requires v.wordSize > 0 && m * v.wordSize == |bytes|
    ensures AllWords(ShapeOf(v), KeyWords(v, bytes, m))
  {
    forall j | 0 <= j < m ensures IsWord(ShapeOf(v), KeyWords(v, bytes, m)[j]) {
      Reaches(j, m, v.wordSize);
      ValueBound(bytes[|bytes| - (j + 1) * v.wordSize..|bytes| - j * v.wordSize]);
    }
  }

  /** Word `j` of the key lies where `setKey` looks for it. */
  lemma WordPlace(v: Variant, bytes: seq<Byte>, j: nat, m: nat)
    requires v.wordSize > 0 && m * v.wordSize == |bytes| && j < m
    ensures var n := v.wordSize;
      && 0 <= (m - 1 - j) * n && (m - 1 - j) * n + n <= |bytes|
      && KeyWords(v, bytes, m)[j] == Value(bytes[(m - 1 - j) * n..(m - 1 - j) * n + n])
  {
    hide Value;
    Reaches(j, m, v.wordSize);
    PlaceOf(j, m, v.wordSize);
  }

  lemma PlaceOf(j: nat, m: nat, n: nat)
    requires j < m
    ensures (m - 1 - j) * n == m * n - (j + 1) * n && (m - 1 - j) * n + n == m * n - j * n && (m - 1 - j) * n >= 0
  {
  }

  /** Round numbers fit in a word. */
  lemma StepIsWord(v: Variant, i: nat)
    requires Known(v) && i < 100
    ensures IsWord(ShapeOf(v), i)
  {
    assert Two(7) == 128;
    TwoAdd(7, 8 * v.wordSize - 7);
  }

  lemma KeysAreWordsOf(s: Shape, key: seq<int>, i: nat)
    requires Sound(s) && |key| >= 2 && AllWords(s, key)
    ensures IsWord(s, LWord(s, key, i)) && IsWord(s, KWord(s, key, i))
  {
    KeysAreWords(s, key, i);
  }

  // Words in bytes

  lemma ValueSnoc(bytes: seq<Byte>, off: nat, n: nat)
    requires off + n < |bytes|
    ensures Value(bytes[off..off + n + 1]) == Value(bytes[off..off + n]) * 256 + bytes[off + n]
    ensures Value(bytes[off..off]) == 0
  {
    assert bytes[off..off + n + 1][..n] == bytes[off..off + n];
  }

  method BytesToWord(v: Variant, bytes: seq<Byte>, off: nat) returns (word: int)
    requires Known(v) && off + v.wordSize <= |bytes|
    ensures word == Value(bytes[off..off + v.wordSize])
  {
    hide Value;
    if v.wide == 32 {
      word := BytesToInt(v.wordSize, bytes, off);
    } else {
      word := BytesToLong(v.wordSize, bytes, off);
    }
  }

  /** Of the 32-bit variants: two to four bytes. */
  method BytesToInt(wordSize: nat, bytes: seq<Byte>, off: nat) returns (word: int)
    requires 2 <= wordSize <= 4 && off + wordSize <= |bytes|
    ensures word == Value(bytes[off..off + wordSize])
  {
    hide Value;
    word := bytes[off];
    ValueSnoc(bytes, off, 0);
    ValueSnoc(bytes, off, 1);
    word := word * 256 + bytes[off + 1];
    if wordSize > 2 {
      ValueSnoc(bytes, off, 2);
      word := word * 256 + bytes[off + 2];
      if wordSize > 3 {
        ValueSnoc(bytes, off, 3);
        word := word * 256 + bytes[off + 3];
      }
    }
  }

  /** Of the 64-bit variants: six or eight bytes. */
  method BytesToLong(wordSize: nat, bytes: seq<Byte>, off: nat) returns (word: int)
    requires (wordSize == 6 || wordSize == 8) && off + wordSize <= |bytes|
    ensures word == Value(bytes[off..off + wordSize])
  {
    hide Value;
    word := bytes[off];
    ValueSnoc(bytes, off, 0);
    ValueSnoc(bytes, off, 1);
    word := word * 256 + bytes[off + 1];
    ValueSnoc(bytes, off, 2);
    word := word * 256 + bytes[off + 2];
    ValueSnoc(bytes, off, 3);
    word := word * 256 + bytes[off + 3];
    ValueSnoc(bytes, off, 4);
    word := word * 256 + bytes[off + 4];
    ValueSnoc(bytes, off, 5);
    word := word * 256 + bytes[off + 5];
    if wordSize == 8 {
      ValueSnoc(bytes, off, 6);
      word := word * 256 + bytes[off + 6];
      ValueSnoc(bytes, off, 7);
      word := word * 256 + bytes[off + 7];
    }
  }

  /** `word >> 8 j` as a byte. */
  function Part(word: int, j: nat): Byte {
    word / Two(8 * j) % 256
  }

  /** The bytes written from the last one to the first make up the word. */
  lemma PartsMakeWord(word: int, n: nat, b: seq<Byte>)
    requires |b| == n && forall j :: 0 <= j < n ==> b[n - 1 - j] == Part(word, j)
    ensures b == BytesOf(word, n)
  {
    forall i | 0 <= i < n ensures b[i] == BytesOf(word, n)[i] {
      ByteAt(word, n, n - 1 - i);
      assert b[n - 1 - (n - 1 - i)] == Part(word, n - 1 - i);
    }
  }

  /** The same, part by part, for two to four bytes and for six or eight. */
  lemma FewParts(word: int, n: nat, b: seq<Byte>)
    requires 2 <= n <= 4 && |b| == n && b[n - 1] == Part(word, 0) && b[n - 2] == Part(word, 1)
    requires (n > 2 ==> b[n - 3] == Part(word, 2)) && (n > 3 ==> b[n - 4] == Part(word, 3))
    ensures b == BytesOf(word, n)
  {
    hide BytesOf, Part;
    PartsMakeWord(word, n, b);
  }

  lemma ManyParts(word: int, n: nat, b: seq<Byte>)
    requires (n == 6 || n == 8) && |b| == n
    requires b[n - 1] == Part(word, 0) && b[n - 2] == Part(word, 1) && b[n - 3] == Part(word, 2)
    requires b[n - 4] == Part(word, 3) && b[n - 5] == Part(word, 4) && b[n - 6] == Part(word, 5)
    requires n == 8 ==> b[1] == Part(word, 6) && b[0] == Part(word, 7)
    ensures b == BytesOf(word, n)
  {
    hide BytesOf, Part;
    PartsMakeWord(word, n, b);
  }

  method WordToBytes(v: Variant, word: int, bytes: array<Byte>, off: nat)
    requires Known(v) && off + v.wordSize <= bytes.Length
    modifies bytes
    ensures bytes[..] == old(bytes[..off]) + BytesOf(word, v.wordSize) + old(bytes[off + v.wordSize..])
  {
    hide BytesOf;
    if v.wide == 32 {
      IntToBytes(v.wordSize, word, bytes, off);
    } else {
      LongToBytes(v.wordSize, word, bytes, off);
    }
    assert bytes[..] == bytes[..off] + bytes[off..off + v.wordSize] + bytes[off + v.wordSize..];
  }

  method IntToBytes(wordSize: nat, word: int, bytes: array<Byte>, off: nat)
    requires 2 <= wordSize <= 4 && off + wordSize <= bytes.Length
    modifies bytes
    ensures bytes[..off] == old(bytes[..off]) && bytes[off + wordSize..] == old(bytes[off + wordSize..])
    ensures bytes[off..off + wordSize] == BytesOf(word, wordSize)
  {
    hide BytesOf, Part;
    var index := off + wordSize - 1;
    bytes[index] := Part(word, 0);
    bytes[index - 1] := Part(word, 1);
    if wordSize > 2 {
      bytes[index - 2] := Part(word, 2);
      if wordSize > 3 {
        bytes[index - 3] := Part(word, 3);
      }
    }
    FewParts(word, wordSize, bytes[off..off + wordSize]);
  }

  method LongToBytes(wordSize: nat, word: int, bytes: array<Byte>, off: nat)
    requires (wordSize == 6 || wordSize == 8) && off + wordSize <= bytes.Length
    modifies bytes
    ensures bytes[..off] == old(bytes[..off]) && bytes[off + wordSize..] == old(bytes[off + wordSize..])
    ensures bytes[off..off + wordSize] == BytesOf(word, wordSize)
  {
    hide BytesOf, Part;
    var index := off + wordSize - 1;
    bytes[index] := Part(word, 0);
    bytes[index - 1] := Part(word, 1);
    bytes[index - 2] := Part(word, 2);
    bytes[index - 3] := Part(word, 3);
    bytes[index - 4] := Part(word, 4);
    bytes[index - 5] := Part(word, 5);
    if wordSize == 8 {
      bytes[index - 6] := Part(word, 6);
      bytes[index - 7] := Part(word, 7);
    }
    ManyParts(word, wordSize, bytes[off..off + wordSize]);
  }

  // Blocks of bytes

  function BlockPair(v: Variant, b: seq<Byte>): Pair
    requires |b| == 2 * v.wordSize
  {
    Pair(Value(b[..v.wordSize]), Value(b[v.wordSize..]))
  }

  function PairBytes(v: Variant, p: Pair): (b: seq<Byte>)
    ensures |b| == 2 * v.wordSize
  {
    BytesOf(p.x, v.wordSize) + BytesOf(p.y, v.wordSize)
  }

  /** What `processBlock` makes of a block. */
  function Transformed(v: Variant, encryption: bool, keys: seq<int>, b: seq<Byte>): (r: seq<Byte>)
    requires Known(v) && |b| == 2 * v.wordSize
    ensures |r| == |b|
  {
    KnownIsSound(v);
    var p := BlockPair(v, b);
    PairBytes(v, if encryption then Encrypt(ShapeOf(v), keys, p, |keys|) else Decrypt(ShapeOf(v), keys, p, |keys|))
  }

  lemma BlockIsWords(v: Variant, b: seq<Byte>)
    requires |b| == 2 * v.wordSize
    ensures AreWords(ShapeOf(v), BlockPair(v, b))
  {
    ValueBound(b[..v.wordSize]);
    ValueBound(b[v.wordSize..]);
  }

  lemma PairOfBlock(v: Variant, b: seq<Byte>)
    requires |b| == 2 * v.wordSize
    ensures PairBytes(v, BlockPair(v, b)) == b
  {
    BytesOfValue(b[..v.wordSize]);
    BytesOfValue(b[v.wordSize..]);
  }

  lemma BlockOfPair(v: Variant, p: Pair)
    requires AreWords(ShapeOf(v), p)
    ensures BlockPair(v, PairBytes(v, p)) == p
  {
    hide Two;
    var n := v.wordSize;
    ValueOfBytes(p.x, n);
    ValueOfBytes(p.y, n);
    assert PairBytes(v, p)[..n] == BytesOf(p.x, n) && PairBytes(v, p)[n..] == BytesOf(p.y, n);
  }

  // The cipher

  datatype Status = Done | NotInitialised | InputTooShort | OutputTooShort

  class SpeckCipher {
    const variant: Variant
    var rounds: nat
    var initialised: bool
    var forEncryption: bool
    var k: array<int>
    var x: int
    var y: int

    constructor (v: Variant)
      requires Known(v)
      ensures variant == v && Valid() && !initialised
    {
      variant, rounds, initialised, forEncryption := v, v.baseRounds, false, false;
      k, x, y := new int[0], 0, 0;
    }

    ghost predicate Valid()
      reads this, k
    {
      Known(variant) && (initialised ==> k.Length == rounds && AllWords(ShapeOf(variant), k[..]))
    }

    /** Sets the direction, then checks and expands the key; a key of a wrong size is refused. */
    method Init(encryption: bool, keyBytes: seq<Byte>) returns (ok: bool)
      requires Valid()
      modifies this
      ensures Valid() && forEncryption == encryption
      ensures ok <==> |keyBytes| in variant.keySizes
      ensures ok ==> initialised && k[..] == Expanded(variant, keyBytes)
      ensures !ok ==> initialised == old(initialised) && k == old(k) && rounds == old(rounds)
    {
      hide Expanded, AllWords, Known;
      forEncryption := encryption;
      if |keyBytes| !in variant.keySizes {
        return false;
      }
      SetKey(keyBytes);
      initialised := true;
      ok := true;
    }

    /** Slot `j mod m` of the buffer holds l_j for the `m - 1` steps from `i` on. */
    ghost predicate Rolling(l: array<int>, key: seq<int>, i: nat)
      requires Known(variant) && Sound(ShapeOf(variant)) && |key| >= 2
      reads l
    {
      l.Length == |key| && forall j: nat :: i <= j < i + |key| - 1 ==> l[j % |key|] == LWord(ShapeOf(variant), key, j)
    }

    method SetKey(keyBytes: seq<Byte>)
      requires Known(variant) && |keyBytes| in variant.keySizes
      modifies this`rounds, this`k
      ensures fresh(k) && k.Length == rounds
      ensures k[..] == Expanded(variant, keyBytes) && AllWords(ShapeOf(variant), k[..])
    {
      hide Known, AllWords, KeyWord, LWord, KWord, Two;
      KnownIsSound(variant);
      ghost var s := ShapeOf(variant);
      var keyWords := |keyBytes| / variant.wordSize;
      rounds := variant.baseRounds + (keyWords - 2);
      k := new int[rounds](_ => 0);
      ghost var key := KeyWords(variant, keyBytes, keyWords);
      var l := LoadKey(keyBytes, keyWords);
      FirstKeyWords(s, key);
      KeyIsWords(variant, keyBytes, keyWords);
      var i := 0;
      while i < rounds - 1
        invariant 0 <= i <= rounds - 1 && fresh(k) && fresh(l) && l != k
        invariant k.Length == rounds == variant.baseRounds + (keyWords - 2)
        invariant Rolling(l, key, i)
        invariant forall j :: 0 <= j <= i ==> k[j] == KWord(s, key, j)
      {
        ExpandStep(l, i, key);
        i := i + 1;
      }
      ExpandedWords(s, key, k[..]);
    }

    /** One step of the expansion: the new l goes to the free slot. */
    method ExpandStep(l: array<int>, i: nat, ghost key: seq<int>)
      requires Known(variant) && Sound(ShapeOf(variant)) && 2 <= |key| && AllWords(ShapeOf(variant), key)
      requires i + 1 < k.Length && l != k && i < 100
      requires Rolling(l, key, i) && k[i] == KWord(ShapeOf(variant), key, i)
      modifies l, k
      ensures Rolling(l, key, i + 1) && k[i + 1] == KWord(ShapeOf(variant), key, i + 1)
      ensures forall j :: 0 <= j < k.Length && j != i + 1 ==> k[j] == old(k[j])
    {
      hide Known, AllWords, LWord, KWord, Two, IsWord, MaskedSum, MaskedMix, Round;
      ghost var s := ShapeOf(variant);
      var m := l.Length;
      StepIsWord(variant, i);
      KeysAreWordsOf(s, key, i);
      ScheduleIsRound(s, key, i);
      assert l[i % m] == LWord(s, key, i);
      MaskedRound(variant, l[i % m], k[i], i);
      var lw := (i + m - 1) % m;
      ghost var before := l[..];
      l[lw] := MaskedSum(variant, l[i % m], k[i], i);
      k[i + 1] := MaskedMix(variant, k[i], l[lw]);
      forall j: nat | i + 1 <= j < i + m ensures l[j % m] == LWord(s, key, j) {
        if j < i + m - 1 {
          SlotReuse(j, i + m - 1, m);
          assert before[j % m] == LWord(s, key, j);
        }
      }
    }

    /** `k[0]`, and the buffer with l_0, ..., l_{m-2}; its last slot is left free. */
    method LoadKey(keyBytes: seq<Byte>, m: nat) returns (l: array<int>)
      requires Known(variant) && Sound(ShapeOf(variant)) && |keyBytes| == m * variant.wordSize && 2 <= m && k.Length > 0
      modifies k
      ensures fresh(l)
      ensures var key := KeyWords(variant, keyBytes, m); k[0] == key[0] && Rolling(l, key, 0)
    {
      hide Known, LWord, KWord, KeyWords, Value;
      ghost var key := KeyWords(variant, keyBytes, m);
      WordPlace(variant, keyBytes, 0, m);
      k[0] := BytesToWord(variant, keyBytes, (m - 1) * variant.wordSize);
      l := new int[m](_ => 0);
      FirstKeyWords(ShapeOf(variant), key);
      var i := 0;
      while i < m - 1
        invariant 0 <= i <= m - 1 && k[0] == key[0]
        invariant forall j :: 0 <= j < i ==> l[j] == key[j + 1]
      {
        WordPlace(variant, keyBytes, i + 1, m);
        l[i] := BytesToWord(variant, keyBytes, (m - i - 2) * variant.wordSize);
        i := i + 1;
      }
      forall j: nat | j < m - 1 ensures l[j % m] == LWord(ShapeOf(variant), key, j) {
        DivModUnique(j, 0, j, m);
      }
    }

    method EncryptBlock()
      requires Valid() && initialised && AreWords(ShapeOf(variant), Pair(x, y))
      modifies this`x, this`y
      ensures Sound(ShapeOf(variant)) && Pair(x, y) == Encrypt(ShapeOf(variant), k[..], old(Pair(x, y)), rounds)
    {
      hide Known, IsWord, MaskedSum, MaskedMix, Round;
      KnownIsSound(variant);
      ghost var s, keys := ShapeOf(variant), k[..];
      var x', y' := this.x, this.y;
      var r := 0;
      while r < rounds
        invariant 0 <= r <= rounds
        invariant Pair(x', y') == Encrypt(s, keys, old(Pair(x, y)), r)
      {
        EncryptIsWords(s, keys, old(Pair(x, y)), r);
        MaskedRound(variant, x', y', k[r]);
        x' := MaskedSum(variant, x', y', k[r]);
        y' := MaskedMix(variant, y', x');
        r := r + 1;
      }
      this.x, this.y := x', y';
    }

    method DecryptBlock()
      requires Valid() && initialised && AreWords(ShapeOf(variant), Pair(x, y))
      modifies this`x, this`y
      ensures Sound(ShapeOf(variant)) && Pair(x, y) == Decrypt(ShapeOf(variant), k[..], old(Pair(x, y)), rounds)
    {
      hide Known, IsWord, MaskedUnmix, MaskedDifference, Unround;
      KnownIsSound(variant);
      ghost var s, keys := ShapeOf(variant), k[..];
      var x', y' := this.x, this.y;
      var r := rounds - 1;
      while r >= 0
        invariant -1 <= r < rounds
        invariant AreWords(s, Pair(x', y'))
        invariant Decrypt(s, keys, Pair(x', y'), r + 1) == Decrypt(s, keys, old(Pair(x, y)), rounds)
      {
        MaskedUnround(variant, x', y', k[r]);
        UnroundIsWords(s, Pair(x', y'), k[r]);
        y' := MaskedUnmix(variant, x', y');
        x' := MaskedDifference(variant, x', y', k[r]);
        r := r - 1;
      }
      this.x, this.y := x', y';
    }

    /** The bytes of the block, through the rounds in the direction set; input and output may be the same
        array, and nothing but the block is written. */
    method ProcessBlock(input: array<Byte>, inOff: nat, out: array<Byte>, outOff: nat) returns (status: Status)
      requires Valid()
      modifies this`x, this`y, out
      ensures status == if !initialised then NotInitialised
        else if inOff + 2 * variant.wordSize > input.Length then InputTooShort
        else if outOff + 2 * variant.wordSize > out.Length then OutputTooShort
        else Done
      ensures status != Done ==> out[..] == old(out[..])
      ensures status == Done ==>
        (out[..] == old(out[..outOff])
          + Transformed(variant, forEncryption, k[..], old(input[inOff..inOff + 2 * variant.wordSize]))
          + old(out[outOff + 2 * variant.wordSize..]))
      ensures k[..] == old(k[..])
    {
      hide Known, IsWord, Encrypt, Decrypt;
      KnownIsSound(variant);
      var n := variant.wordSize;
      if !initialised {
        return NotInitialised;
      }
      if inOff + 2 * n > input.Length {
        return InputTooShort;
      }
      if outOff + 2 * n > out.Length {
        return OutputTooShort;
      }
      ghost var block := input[inOff..inOff + 2 * n];
      UnpackBlock(input[..], inOff);
      BlockIsWords(variant, block);
      if forEncryption {
        EncryptBlock();
      } else {
        DecryptBlock();
      }
      PackBlock(out, outOff);
      status := Done;
    }

    method UnpackBlock(input: seq<Byte>, inOff: nat)
      requires Known(variant) && inOff + 2 * variant.wordSize <= |input|
      modifies this`x, this`y
      ensures Pair(x, y) == BlockPair(variant, input[inOff..inOff + 2 * variant.wordSize])
    {
      hide Known;
      var n := variant.wordSize;
      ghost var block := input[inOff..inOff + 2 * n];
      assert block[..n] == input[inOff..inOff + n] && block[n..] == input[inOff + n..inOff + 2 * n];
      y := BytesToWord(variant, input, inOff + n);
      x := BytesToWord(variant, input, inOff);
    }

    method PackBlock(out: array<Byte>, outOff: nat)
      requires Known(variant) && outOff + 2 * variant.wordSize <= out.Length
      modifies out
      ensures out[..] == old(out[..outOff]) + PairBytes(variant, Pair(x, y)) + old(out[outOff + 2 * variant.wordSize..])
    {
      hide Known, BytesOf;
      var n := variant.wordSize;
      WordToBytes(variant, y, out, outOff + n);
      WordToBytes(variant, x, out, outOff);
    }
  }

  /** The engine's constructor: a cipher of the block size asked for, and none for other block sizes. */
  method NewEngine(blockSizeBits: int) returns (cipher: Option<SpeckCipher>)
    ensures cipher.Some? <==> blockSizeBits in {32, 48, 64, 96, 128}
    ensures cipher.Some? ==> fresh(cipher.value) && cipher.value.Valid() && !cipher.value.initialised
    ensures cipher.Some? ==> 16 * cipher.value.variant.wordSize == blockSizeBits
    ensures cipher.Some? ==> VariantFor(blockSizeBits) == Some(cipher.value.variant)
  {
    match VariantFor(blockSizeBits)
    case None =>
      return None;
    case Some(v) =>
      var c := new SpeckCipher(v);
      return Some(c);
  }

  // Round trips

  /** Decryption with the round keys undoes encryption, block by block, for every word size; and the other
      way round. */
  lemma RoundTrip(v: Variant, keys: seq<int>, b: seq<Byte>)
    requires Known(v) && |b| == 2 * v.wordSize
    ensures Transformed(v, false, keys, Transformed(v, true, keys, b)) == b
    ensures Transformed(v, true, keys, Transformed(v, false, keys, b)) == b
  {
    hide Known, Encrypt, Decrypt, IsWord, Value, BytesOf;
    KnownIsSound(v);
    var s, p, n := ShapeOf(v), BlockPair(v, b), |keys|;
    BlockIsWords(v, b);
    PairOfBlock(v, b);
    EncryptIsWords(s, keys, p, n);
    BlockOfPair(v, Encrypt(s, keys, p, n));
    DecryptEncrypt(s, keys, p, n);
    EncryptDecrypt(s, keys, p, n);
    BlockOfPair(v, Decrypt(s, keys, p, n));
  }
}
