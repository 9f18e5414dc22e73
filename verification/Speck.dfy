/** The Speck cipher on words: rounds, their inverses and the key recurrence, without any buffer. */
module Speck {
  import opened ModArith
  import opened Powers
  import opened WordBits

  /** Word size in bits and rotation constants. */
  datatype Shape = Shape(w: nat, alpha: nat, beta: nat)

  predicate Sound(s: Shape) {
    0 < s.alpha < s.w && 0 < s.beta < s.w
  }

  predicate IsWord(s: Shape, v: int) {
    0 <= v < Two(s.w)
  }

  datatype Pair = Pair(x: int, y: int)

  predicate AreWords(s: Shape, p: Pair) {
    IsWord(s, p.x) && IsWord(s, p.y)
  }

  function Plus(a: int, b: int, w: nat): int {
    (a + b) % Two(w)
  }

  function Minus(a: int, b: int, w: nat): int {
    (a - b) % Two(w)
  }

  function Round(s: Shape, p: Pair, k: int): (r: Pair)
    requires Sound(s)
    ensures AreWords(s, r)
  {
    var x := Xor(Plus(RotR(p.x, s.alpha, s.w), p.y, s.w), k, s.w);
    Pair(x, Xor(RotL(p.y, s.beta, s.w), x, s.w))
  }

  function Unround(s: Shape, p: Pair, k: int): Pair
    requires Sound(s)
  {
    var y := RotR(Xor(p.x, p.y, s.w), s.beta, s.w);
    Pair(RotL(Minus(Xor(p.x, k, s.w), y, s.w), s.alpha, s.w), y)
  }

  lemma UnroundIsWords(s: Shape, p: Pair, k: int)
    requires Sound(s)
    ensures AreWords(s, Unround(s, p, k))
  {
    hide Two, RotL, RotR, Xor, Minus, Plus;
    RotLOfRotR(Xor(p.x, p.y, s.w), s.beta, s.w);
    var y := RotR(Xor(p.x, p.y, s.w), s.beta, s.w);
    SumsCancel(Xor(p.x, k, s.w), y, s.w);
    RotROfRotL(Minus(Xor(p.x, k, s.w), y, s.w), s.alpha, s.w);
  }

  lemma SumsCancel(a: int, b: int, w: nat)
    requires 0 <= a < Two(w)
    ensures Minus(Plus(a, b, w), b, w) == a && Plus(Minus(a, b, w), b, w) == a
    ensures 0 <= Minus(a, b, w) < Two(w) && 0 <= Plus(a, b, w) < Two(w)
  {
    hide Two, Cong;
    var m := Two(w);
    ModCong(a + b, m);
    CongRefl(b, m);
    CongAdd((a + b) % m, a + b, b, b, m);
    CongMod((a + b) % m - b, a, m);
    ModCong(a - b, m);
    CongAdd((a - b) % m, a - b, b, b, m);
    CongMod((a - b) % m + b, a, m);
    DivModUnique(a, 0, a, m);
  }

  lemma UnroundRound(s: Shape, p: Pair, k: int)
    requires Sound(s) && AreWords(s, p)
    ensures Unround(s, Round(s, p, k), k) == p
  {
    hide Two, RotL, RotR, Xor, Plus, Minus;
    var r, w := Round(s, p, k), s.w;
    RotROfRotL(p.y, s.beta, w);
    XorTwice(RotL(p.y, s.beta, w), r.x, w);
    XorComm(r.x, r.y, w);
    RotLOfRotR(p.x, s.alpha, w);
    SumsCancel(RotR(p.x, s.alpha, w), p.y, w);
    XorTwice(Plus(RotR(p.x, s.alpha, w), p.y, w), k, w);
  }

  lemma RoundUnround(s: Shape, p: Pair, k: int)
    requires Sound(s) && AreWords(s, p)
    ensures Round(s, Unround(s, p, k), k) == p
  {
    hide Two, RotL, RotR, Xor, Plus, Minus;
    var u, w := Unround(s, p, k), s.w;
    SumsCancel(Xor(p.x, k, w), u.y, w);
    RotROfRotL(Minus(Xor(p.x, k, w), u.y, w), s.alpha, w);
    XorTwice(p.x, k, w);
    RotLOfRotR(Xor(p.x, p.y, w), s.beta, w);
    XorTwice(p.y, p.x, w);
    XorComm(p.x, p.y, w);
  }

  // Blocks

  /** The first `n` rounds. */
  function Encrypt(s: Shape, keys: seq<int>, p: Pair, n: nat): Pair
    requires Sound(s) && n <= |keys|
  {
    if n == 0 then p else Round(s, Encrypt(s, keys, p, n - 1), keys[n - 1])
  }

  /** The same rounds undone, from the last. */
  function Decrypt(s: Shape, keys: seq<int>, p: Pair, n: nat): Pair
    requires Sound(s) && n <= |keys|
    decreases n
  {
    if n == 0 then p else Decrypt(s, keys, Unround(s, p, keys[n - 1]), n - 1)
  }

  lemma {:induction false} EncryptIsWords(s: Shape, keys: seq<int>, p: Pair, n: nat)
    requires Sound(s) && n <= |keys| && AreWords(s, p)
    ensures AreWords(s, Encrypt(s, keys, p, n))
  {
  }

  lemma {:induction false} DecryptEncrypt(s: Shape, keys: seq<int>, p: Pair, n: nat)
    requires Sound(s) && n <= |keys| && AreWords(s, p)
    ensures Decrypt(s, keys, Encrypt(s, keys, p, n), n) == p
  {
    hide Round, Unround;
    if n > 0 {
      EncryptIsWords(s, keys, p, n - 1);
      UnroundRound(s, Encrypt(s, keys, p, n - 1), keys[n - 1]);
      DecryptEncrypt(s, keys, p, n - 1);
    }
  }

  lemma {:induction false} EncryptDecrypt(s: Shape, keys: seq<int>, p: Pair, n: nat)
    requires Sound(s) && n <= |keys| && AreWords(s, p)
    ensures Encrypt(s, keys, Decrypt(s, keys, p, n), n) == p && AreWords(s, Decrypt(s, keys, p, n))
    decreases n
  {
    hide Round, Unround;
    if n > 0 {
      var u := Unround(s, p, keys[n - 1]);
      UnroundIsWords(s, p, keys[n - 1]);
      EncryptDecrypt(s, keys, u, n - 1);
      RoundUnround(s, p, keys[n - 1]);
    }
  }

  // The key recurrence: key[0] is k_0, and key[1..] are l_0, l_1, ...

  function LWord(s: Shape, key: seq<int>, i: nat): int
    requires Sound(s) && |key| >= 2
    decreases 2 * i
  {
    var m := |key|;
    if i < m - 1 then key[i + 1]
    else Xor(Plus(RotR(LWord(s, key, i - (m - 1)), s.alpha, s.w), KWord(s, key, i - (m - 1)), s.w), i - (m - 1), s.w)
  }

  function KWord(s: Shape, key: seq<int>, i: nat): int
    requires Sound(s) && |key| >= 2
    decreases 2 * (i + |key| - 2) + 1
  {
    if i == 0 then key[0]
    else Xor(RotL(KWord(s, key, i - 1), s.beta, s.w), LWord(s, key, i - 1 + |key| - 1), s.w)
  }

  /** The round keys of a key. */
  function RoundKeys(s: Shape, key: seq<int>, rounds: nat): (k: seq<int>)
    requires Sound(s) && |key| >= 2
    ensures |k| == rounds
  {
    seq(rounds, i requires 0 <= i < rounds => KWord(s, key, i))
  }

  /** The recurrence is the round function with the step number as the key. */
  lemma ScheduleIsRound(s: Shape, key: seq<int>, i: nat)
    requires Sound(s) && |key| >= 2
    ensures Pair(LWord(s, key, i + |key| - 1), KWord(s, key, i + 1))
      == Round(s, Pair(LWord(s, key, i), KWord(s, key, i)), i)
  {
    hide Two, RotL, RotR, Xor, Plus;
  }

  lemma {:induction false} KeysAreWords(s: Shape, key: seq<int>, i: nat)
    requires Sound(s) && |key| >= 2 && forall j :: 0 <= j < |key| ==> IsWord(s, key[j])
    ensures IsWord(s, LWord(s, key, i)) && IsWord(s, KWord(s, key, i))
  {
  }

  /** The recurrence starts with the words of the key. */
  lemma FirstKeyWords(s: Shape, key: seq<int>)
    requires Sound(s) && |key| >= 2
    ensures KWord(s, key, 0) == key[0]
    ensures forall j: nat :: j < |key| - 1 ==> LWord(s, key, j) == key[j + 1]
  {
  }

  /** Among `n` steps in a row only the first and the one after the last share a slot. */
  lemma SlotReuse(i: nat, j: nat, n: nat)
    requires n > 0 && i < j <= i + n
    ensures j % n == i % n <==> j == i + n
  {
    var r := i % n;
    if j == i + n {
      DivModUnique(j, i / n + 1, r, n);
    } else if r + (j - i) < n {
      DivModUnique(j, i / n, r + (j - i), n);
    } else {
      DivModUnique(j, i / n + 1, r + (j - i) - n, n);
    }
  }
}
