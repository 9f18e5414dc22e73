/** speck.c: the key is expanded in place, through a circular buffer of m - 1 words. */
module SpeckC {
  import opened ModArith
  import opened Powers
  import opened WordBits
  import opened Speck
  import Engine = SpeckEngine
  import opened Bytes

  /** `LCS` and `RCS` in a type of exactly `w` bits. */
  function Lcs(x: int, n: nat, w: nat): int
    requires n <= w
  {
    WideRotL(x, n, w, w)
  }

  function Rcs(x: int, n: nat, w: nat): int
    requires n <= w
  {
    WideRotR(x, n, w, w)
  }

  lemma CRotations(x: int, n: nat, w: nat)
    requires 0 < n < w && 0 <= x < Two(w)
    ensures Lcs(x, n, w) == RotL(x, n, w) && Rcs(x, n, w) == RotR(x, n, w)
  {
    hide Two, Or;
    WideIsSum(x, n, w, w);
    RotRParts(x, n, w);
    TwoAdd(n, w - n);
    LowPartExact(x, n, w);
  }

  /** The macro `ROUND`, assigning its first two arguments. */
  method RoundMacro(s: Shape, x: int, y: int, k: int) returns (x': int, y': int)
    requires Sound(s) && IsWord(s, x) && IsWord(s, y)
    ensures Pair(x', y') == Round(s, Pair(x, y), k)
  {
    hide Two, Xor, RotL, RotR, Lcs, Rcs;
    CRotations(x, s.alpha, s.w);
    CRotations(y, s.beta, s.w);
    x' := Rcs(x, s.alpha, s.w);
    x' := (x' + y) % Two(s.w);
    x' := Xor(x', k, s.w);
    y' := Lcs(y, s.beta, s.w);
    y' := Xor(y', x', s.w);
  }

  /** The macro `INV_ROUND`. */
  method InvRoundMacro(s: Shape, x: int, y: int, k: int) returns (x': int, y': int)
    requires Sound(s) && IsWord(s, x) && IsWord(s, y)
    ensures Pair(x', y') == Unround(s, Pair(x, y), k)
  {
    hide Two, Xor, RotL, RotR, Lcs, Rcs;
    XorComm(y, x, s.w);
    y' := Xor(y, x, s.w);
    CRotations(y', s.beta, s.w);
    y' := Rcs(y', s.beta, s.w);
    x' := Xor(x, k, s.w);
    x' := (x' - y') % Two(s.w);
    CRotations(x', s.alpha, s.w);
    x' := Lcs(x', s.alpha, s.w);
  }

  /** Slot `1 + j mod (m-1)` of the buffer holds l_j for the `m - 1` steps from `i` on; slot 0 holds k_i. */
  ghost predicate Buffered(s: Shape, tmp: array<int>, key: seq<int>, i: nat)
    requires Sound(s) && |key| >= 2
    reads tmp
  {
    && tmp.Length == |key| && tmp[0] == KWord(s, key, i)
    && forall j: nat :: i <= j < i + |key| - 1 ==> tmp[1 + j % (|key| - 1)] == LWord(s, key, j)
  }

  /** `memcpy` of the key to the buffer. */
  method CopyKey(ks: array<int>, m: nat) returns (tmp: array<int>)
    requires m <= ks.Length
    ensures fresh(tmp) && tmp[..] == ks[..m]
  {
    tmp := new int[m](_ => 0);
    forall j | 0 <= j < m {
      tmp[j] := ks[j];
    }
  }

  /** The first `m` words of `ks` are the key; they become the round keys, in place. */
  method KeyExpand(s: Shape, ks: array<int>, m: nat)
    requires Sound(s) && 2 <= m <= ks.Length && forall j :: 0 <= j < m ==> IsWord(s, ks[j])
    modifies ks
    ensures ks[..] == RoundKeys(s, old(ks[..m]), ks.Length)
  {
    hide Round, LWord, KWord, IsWord;
    ghost var key := ks[..m];
    var tmp := CopyKey(ks, m);
    StartBuffered(s, tmp, key);
    var i := 0;
    while i < ks.Length - 1
      invariant 0 <= i <= ks.Length - 1 && Buffered(s, tmp, key, i)
      invariant forall k :: 0 <= k <= i ==> ks[k] == KWord(s, key, k)
    {
      var p := 1 + i % (m - 1);
      KeysAreWords(s, key, i);
      ScheduleIsRound(s, key, i);
      var x, y := RoundMacro(s, tmp[p], tmp[0], i);
      ghost var before := tmp[..];
      tmp[p], tmp[0] := x, y;
      StillBuffered(s, tmp, before, key, i);
      i := i + 1;
      ks[i] := tmp[0];
    }
  }

  lemma StartBuffered(s: Shape, tmp: array<int>, key: seq<int>)
    requires Sound(s) && |key| >= 2 && tmp[..] == key
    ensures Buffered(s, tmp, key, 0) && KWord(s, key, 0) == tmp[0]
  {
    hide LWord, KWord;
    FirstKeyWords(s, key);
    var n := |key| - 1;
    forall j: nat | j < n ensures tmp[1 + j % n] == LWord(s, key, j) {
      DivModUnique(j, 0, j, n);
    }
  }

  lemma StillBuffered(s: Shape, tmp: array<int>, before: seq<int>, key: seq<int>, i: nat)
    requires Sound(s) && |key| >= 2 && tmp.Length == |key| == |before|
    requires forall j: nat :: i <= j < i + |key| - 1 ==> before[1 + j % (|key| - 1)] == LWord(s, key, j)
    requires tmp[..] == before[1 + i % (|key| - 1) := LWord(s, key, i + |key| - 1)][0 := KWord(s, key, i + 1)]
    ensures Buffered(s, tmp, key, i + 1)
  {
    hide LWord, KWord;
    var n := |key| - 1;
    forall j: nat | i + 1 <= j < i + 1 + n ensures tmp[1 + j % n] == LWord(s, key, j) {
      SlotReuse(i, j, n);
    }
  }

  /** Both words of the block through all rounds; the key is expanded first. */
  method SpeckEncrypt(s: Shape, io: array<int>, xk: array<int>, m: nat)
    requires Sound(s) && 2 <= m <= xk.Length && forall j :: 0 <= j < m ==> IsWord(s, xk[j])
    requires io.Length == 2 && io != xk && IsWord(s, io[0]) && IsWord(s, io[1])
    modifies io, xk
    ensures var keys := RoundKeys(s, old(xk[..m]), xk.Length);
      xk[..] == keys && Pair(io[1], io[0]) == Encrypt(s, keys, old(Pair(io[1], io[0])), |keys|)
  {
    hide Round, RoundKeys, IsWord;
    ghost var p := Pair(io[1], io[0]);
    KeyExpand(s, xk, m);
    ghost var keys := xk[..];
    var i := 0;
    while i < xk.Length
      invariant 0 <= i <= xk.Length && xk[..] == keys
      invariant Pair(io[1], io[0]) == Encrypt(s, keys, p, i)
    {
      EncryptIsWords(s, keys, p, i);
      var x, y := RoundMacro(s, io[1], io[0], xk[i]);
      io[1], io[0] := x, y;
      i := i + 1;
    }
  }

  method SpeckDecrypt(s: Shape, io: array<int>, xk: array<int>, m: nat)
    requires Sound(s) && 2 <= m <= xk.Length && forall j :: 0 <= j < m ==> IsWord(s, xk[j])
    requires io.Length == 2 && io != xk && IsWord(s, io[0]) && IsWord(s, io[1])
    modifies io, xk
    ensures var keys := RoundKeys(s, old(xk[..m]), xk.Length);
      xk[..] == keys && Pair(io[1], io[0]) == Decrypt(s, keys, old(Pair(io[1], io[0])), |keys|)
  {
    hide Unround, RoundKeys, IsWord;
    ghost var p := Pair(io[1], io[0]);
    KeyExpand(s, xk, m);
    ghost var keys := xk[..];
    var i := xk.Length;
    while i > 0
      invariant 0 <= i <= xk.Length && xk[..] == keys
      invariant AreWords(s, Pair(io[1], io[0]))
      invariant Decrypt(s, keys, Pair(io[1], io[0]), i) == Decrypt(s, keys, p, |keys|)
    {
      i := i - 1;
      UnroundIsWords(s, Pair(io[1], io[0]), keys[i]);
      var x, y := InvRoundMacro(s, io[1], io[0], xk[i]);
      io[1], io[0] := x, y;
    }
  }

  // The Java engine and the C code

  /** The number of rounds `R` for words of `n` bits and keys of `m` words. */
  function RoundCount(n: nat, m: nat): nat {
    if n == 32 then 23 + m else 30 + m
  }

  /** For the word sizes both have, the C code expands a key to the round keys of the Java engine. */
  method SchedulesAgree(cipher: Engine.SpeckCipher, keyBytes: seq<Byte>) returns (ks: array<int>)
    requires cipher.Valid() && 8 * cipher.variant.wordSize in {32, 64} && |keyBytes| in cipher.variant.keySizes
    modifies cipher
    ensures cipher.initialised && ks[..] == cipher.k[..]
  {
    hide Engine.KeyWords, RoundKeys, IsWord;
    var v := cipher.variant;
    Engine.KnownIsSound(v);
    var m := |keyBytes| / v.wordSize;
    var key := Engine.KeyWords(v, keyBytes, m);
    Engine.KeyIsWords(v, keyBytes, m);
    var ok := cipher.Init(true, keyBytes);
    ks := new int[RoundCount(8 * v.wordSize, m)](_ => 0);
    forall j | 0 <= j < m {
      ks[j] := key[j];
    }
    assert ks[..m] == key;
    KeyExpand(Shape(8 * v.wordSize, 8, 3), ks, m);
  }
}
