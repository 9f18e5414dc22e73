/** The pooled hash table that counts calls by key: chains are linked inside the pool by index.  Sizes and
    the cap are those of the build, any values.
 */
module PooledHashTable {
  import opened Words
  import opened ModArith

  type U32 = Limb

  type Key = x: int | 0 <= x < 0x1_0000_0000_0000_0000 witness 0

  const NULLINDEX: U32 := 0xffff_ffff

  datatype Entry = Entry(key: Key, value: U32, next: U32)

  // Buckets

  /** djb2 over the first `n` bytes of the key, low byte first. */
  function Djb2(v: Key, n: nat): U32
    requires n <= 8
  {
    if n == 0 then 5381 else
    (33 * Djb2(v, n - 1) as int + v / Power256(n - 1) % 256) % 0x1_0000_0000
  }

  function Power256(n: nat): (p: int)
    ensures p > 0
  {
    if n == 0 then 1 else 256 * Power256(n - 1)
  }

  method Hash(v: Key) returns (h: U32)
    ensures h == Djb2(v, 8)
  {
    h := 5381;
    var i, shift := 0, 1;
    while i < 8
      invariant 0 <= i <= 8 && h == Djb2(v, i) && shift == Power256(i)
    {
      var c := v / shift % 256;
      h := (33 * h as int + c) % 0x1_0000_0000;
      i, shift := i + 1, 256 * shift;
    }
  }

  /** Byte `i` of the key, the lowest first. */
  function ByteOf(v: Key, i: nat): int {
    v / Power256(i) % 256
  }

  /** The same without wrap-around. */
  function Horner(v: Key, n: nat): int {
    if n == 0 then 5381 else 33 * Horner(v, n - 1) + ByteOf(v, n - 1)
  }

  lemma {:induction false} Djb2IsHorner(v: Key, n: nat)
    requires n <= 8
    ensures Djb2(v, n) == Horner(v, n) % 0x1_0000_0000
  {
    if n > 0 {
      Djb2IsHorner(v, n - 1);
      WrapOnce(Horner(v, n - 1), ByteOf(v, n - 1));
    }
  }

  lemma WrapOnce(h: int, c: int)
    ensures (33 * (h % 0x1_0000_0000) + c) % 0x1_0000_0000 == (33 * h + c) % 0x1_0000_0000
  {
    var q, r := h / 0x1_0000_0000, h % 0x1_0000_0000;
    var k := (33 * r + c) / 0x1_0000_0000;
    DivModUnique(33 * h + c, 33 * q + k, (33 * r + c) % 0x1_0000_0000, 0x1_0000_0000);
  }

  /** Every byte of the key weighs a power of 33, the lowest byte most: `5381 * 33^8` and the eight terms. */
  lemma HashIsWeighted(v: Key)
    ensures Djb2(v, 8) == (5381 * 1406408618241 + 42618442977 * ByteOf(v, 0) + 1291467969 * ByteOf(v, 1)
      + 39135393 * ByteOf(v, 2) + 1185921 * ByteOf(v, 3) + 35937 * ByteOf(v, 4) + 1089 * ByteOf(v, 5)
      + 33 * ByteOf(v, 6) + ByteOf(v, 7)) % 0x1_0000_0000
  {
    hide ByteOf, Horner, Djb2;
    Djb2IsHorner(v, 8);
    TwoHornerSteps(v, 0);
    TwoHornerSteps(v, 2);
    TwoHornerSteps(v, 4);
    TwoHornerSteps(v, 6);
  }

  lemma TwoHornerSteps(v: Key, n: nat)
    ensures Horner(v, 0) == 5381 && Horner(v, n + 2) == 1089 * Horner(v, n) + 33 * ByteOf(v, n) + ByteOf(v, n + 1)
  {
    hide ByteOf;
    assert Horner(v, n + 1) == 33 * Horner(v, n) + ByteOf(v, n);
  }

  function Bucket(key: Key, buckets: nat): (b: nat)
    requires buckets > 0
    ensures b < buckets
  {
    Djb2(key, 8) % buckets
  }

  // The specification: calls and their counts

  function Count(calls: seq<Key>, k: Key): nat {
    if |calls| == 0 then 0
    else Count(calls[..|calls| - 1], k) + if calls[|calls| - 1] == k then 1 else 0
  }

  /** The keys of the calls, in the order of their first calls. */
  function Distinct(calls: seq<Key>): seq<Key> {
    if |calls| == 0 then [] else
    var d, k := Distinct(calls[..|calls| - 1]), calls[|calls| - 1];
    if k in d then d else d + [k]
  }

  /** The first `size` of them have a slot. */
  function Slots(calls: seq<Key>, size: nat): (s: seq<Key>)
    ensures |s| <= size
  {
    var d := Distinct(calls);
    if |d| <= size then d else d[..size]
  }

  function Min(a: int, b: int): int {
    if a <= b then a else b
  }

  lemma DistinctIsSet(calls: seq<Key>)
    ensures forall i, j :: 0 <= i < j < |Distinct(calls)| ==> Distinct(calls)[i] != Distinct(calls)[j]
    ensures forall k :: k in Distinct(calls) <==> k in calls
  {
    if |calls| > 0 {
      DistinctIsSet(calls[..|calls| - 1]);
    }
  }

  lemma SlotsStep(calls: seq<Key>, k: Key, size: nat)
    ensures Slots(calls + [k], size) ==
      if k in Slots(calls, size) || |Slots(calls, size)| == size then Slots(calls, size) else Slots(calls, size) + [k]
    ensures NoRepeat(Slots(calls, size))
  {
    DistinctIsSet(calls);
    assert (calls + [k])[..|calls|] == calls;
  }

  lemma CountStep(calls: seq<Key>, k: Key, key: Key)
    ensures Count(calls + [k], key) == Count(calls, key) + if key == k then 1 else 0
  {
    assert (calls + [k])[..|calls|] == calls;
  }

  // Chains

  /** The first slot from `i` on whose key belongs to bucket `b`. */
  function NextIn(keys: seq<Key>, n: nat, b: nat, i: nat): (r: U32)
    requires n > 0 && |keys| <= NULLINDEX
    ensures r == NULLINDEX || (i <= r < |keys| && Bucket(keys[r], n) == b)
    ensures forall j :: i <= j < |keys| && (j < r || r == NULLINDEX) ==> Bucket(keys[j], n) != b
    decreases |keys| - i
  {
    if i >= |keys| then NULLINDEX
    else if Bucket(keys[i], n) == b then i
    else NextIn(keys, n, b, i + 1)
  }

  /** A new key at the end of the pool extends the chain of its bucket only. */
  lemma {:induction false} NextInSnoc(keys: seq<Key>, n: nat, b: nat, i: nat, k: Key)
    requires n > 0 && |keys| < NULLINDEX && i <= |keys|
    ensures NextIn(keys + [k], n, b, i) ==
      if NextIn(keys, n, b, i) == NULLINDEX && Bucket(k, n) == b then |keys| else NextIn(keys, n, b, i)
    decreases |keys| - i
  {
    hide Bucket;
    if i < |keys| {
      NextInSnoc(keys, n, b, i + 1, k);
    } else {
      assert NextIn(keys + [k], n, b, i + 1) == NULLINDEX;
    }
  }

  // What the pool holds

  /** Slot `i` holds the `i`-th key and its capped count. */
  ghost predicate Counted(pool: seq<Entry>, keys: seq<Key>, calls: seq<Key>, cap: nat) {
    |keys| <= |pool| && forall i :: 0 <= i < |keys| ==> Holds(pool[i], keys[i], calls, cap)
  }

  ghost predicate Holds(e: Entry, k: Key, calls: seq<Key>, cap: nat) {
    e.key == k && e.value == Min(Count(calls, k), cap)
  }

  /** Heads and links run through the slots of each bucket in increasing order. */
  ghost predicate Chained(pool: seq<Entry>, heads: seq<U32>, keys: seq<Key>) {
    && 0 < |heads| && |keys| <= |pool| && |keys| <= NULLINDEX
    && (forall i :: 0 <= i < |keys| ==> pool[i].next == NextIn(keys, |heads|, Bucket(keys[i], |heads|), i + 1))
    && (forall b :: 0 <= b < |heads| ==> heads[b] == NextIn(keys, |heads|, b, 0))
  }

  ghost predicate NoRepeat(keys: seq<Key>) {
    forall i, j :: 0 <= i < j < |keys| ==> keys[i] != keys[j]
  }

  lemma HoldsStep(e: Entry, k: Key, calls: seq<Key>, cap: nat, key: Key)
    requires Holds(e, k, calls, cap) && k != key
    ensures Holds(e, k, calls + [key], cap)
  {
    CountStep(calls, key, k);
  }

  lemma CountedElsewhere(pool: seq<Entry>, keys: seq<Key>, calls: seq<Key>, cap: nat, key: Key)
    requires Counted(pool, keys, calls, cap) && key !in keys
    ensures Counted(pool, keys, calls + [key], cap)
  {
    hide Holds;
    forall i | 0 <= i < |keys| ensures Holds(pool[i], keys[i], calls + [key], cap) {
      HoldsStep(pool[i], keys[i], calls, cap, key);
    }
  }

  /** Counting a key that has slot `i`. */
  lemma CountedBump(pool: seq<Entry>, keys: seq<Key>, calls: seq<Key>, cap: nat, i: nat, e: Entry)
    requires Counted(pool, keys, calls, cap) && NoRepeat(keys) && i < |keys|
    requires e.key == pool[i].key && e.value == if pool[i].value < cap then pool[i].value + 1 else pool[i].value
    ensures Counted(pool[i := e], keys, calls + [keys[i]], cap)
    ensures e.value == Min(Count(calls + [keys[i]], keys[i]), cap)
  {
    hide Count;
    CountStep(calls, keys[i], keys[i]);
    forall j | 0 <= j < |keys| && j != i ensures Holds(pool[j], keys[j], calls + [keys[i]], cap) {
      HoldsStep(pool[j], keys[j], calls, cap, keys[i]);
    }
  }

  lemma {:induction false} CountNever(calls: seq<Key>, k: Key)
    requires k !in calls
    ensures Count(calls, k) == 0
  {
    if |calls| > 0 {
      CountNever(calls[..|calls| - 1], k);
    }
  }

  /** The first call with a key gives it a slot with count 1. */
  lemma CountedAppend(pool: seq<Entry>, keys: seq<Key>, calls: seq<Key>, cap: nat, key: Key, e: Entry)
    requires Counted(pool, keys, calls, cap) && key !in keys && key !in calls && cap >= 1
    requires |keys| < |pool| && e.key == key && e.value == 1
    ensures Counted(pool[|keys| := e], keys + [key], calls + [key], cap)
    ensures Min(Count(calls + [key], key), cap) == 1
  {
    hide Count;
    CountedElsewhere(pool, keys, calls, cap, key);
    CountNever(calls, key);
    CountStep(calls, key, key);
  }

  /** The links of the new pool: only the last slot of the new key's bucket, or the bucket's head, changes. */
  lemma ChainedAppend(pool: seq<Entry>, heads: seq<U32>, keys: seq<Key>, key: Key, pool': seq<Entry>, heads': seq<U32>)
    requires Chained(pool, heads, keys) && |keys| < |pool| == |pool'| && |keys| < NULLINDEX && |heads'| == |heads|
    requires forall i :: 0 <= i < |keys| ==>
      (pool'[i].next == if pool[i].next == NULLINDEX && Bucket(keys[i], |heads|) == Bucket(key, |heads|) then |keys|
                        else pool[i].next)
    requires pool'[|keys|].next == NULLINDEX
    requires forall b :: 0 <= b < |heads| ==>
      (heads'[b] == if heads[b] == NULLINDEX && b == Bucket(key, |heads|) then |keys| else heads[b])
    ensures Chained(pool', heads', keys + [key])
  {
    hide Bucket, NextIn;
    var n, keys' := |heads|, keys + [key];
    NextInPast(keys', n, Bucket(key, n));
    forall i | 0 <= i < |keys'| ensures pool'[i].next == NextIn(keys', n, Bucket(keys'[i], n), i + 1) {
      if i < |keys| {
        NextInSnoc(keys, n, Bucket(keys[i], n), i + 1, key);
      }
    }
    forall b | 0 <= b < n ensures heads'[b] == NextIn(keys', n, b, 0) {
      NextInSnoc(keys, n, b, 0, key);
    }
  }

  /** The pool with the link of slot `prev`, if any, led to the new slot. */
  function Relinked(pool: seq<Entry>, prev: U32, slot: U32): (p: seq<Entry>)
    requires prev == NULLINDEX || prev < |pool|
    ensures |p| == |pool|
  {
    if prev == NULLINDEX then pool else pool[prev := pool[prev].(next := slot)]
  }

  lemma ChainedInsert(pool: seq<Entry>, heads: seq<U32>, keys: seq<Key>, key: Key, prev: U32, e: Entry)
    requires Chained(pool, heads, keys) && |keys| < |pool| && |keys| < NULLINDEX
    requires AtEnd(keys, |heads|, Bucket(key, |heads|), prev) && e.next == NULLINDEX
    ensures Chained(Relinked(pool, prev, |keys|)[|keys| := e],
                    if prev == NULLINDEX then heads[Bucket(key, |heads|) := |keys|] else heads, keys + [key])
  {
    hide Bucket, NextIn;
    var n, b := |heads|, Bucket(key, |heads|);
    var pool' := Relinked(pool, prev, |keys|)[|keys| := e];
    if prev == NULLINDEX {
      EmptyBucket(keys, n, b);
    } else {
      LastOfBucket(keys, n, b, prev);
    }
    ChainedAppend(pool, heads, keys, key, pool', if prev == NULLINDEX then heads[b := |keys|] else heads);
  }

  lemma EmptyBucket(keys: seq<Key>, n: nat, b: nat)
    requires n > 0 && |keys| <= NULLINDEX && NextIn(keys, n, b, 0) == NULLINDEX
    ensures forall i :: 0 <= i < |keys| ==> Bucket(keys[i], n) != b
  {
    hide Bucket;
  }

  lemma NextInPast(keys: seq<Key>, n: nat, b: nat)
    requires n > 0 && |keys| <= NULLINDEX
    ensures NextIn(keys, n, b, |keys|) == NULLINDEX
  {
  }

  /** `p` is the last slot of bucket `b`, or the bucket is empty. */
  ghost predicate AtEnd(keys: seq<Key>, n: nat, b: nat, p: U32)
    requires n > 0 && |keys| <= NULLINDEX
  {
    if p == NULLINDEX then NextIn(keys, n, b, 0) == NULLINDEX
    else p < |keys| && Bucket(keys[p], n) == b && NextIn(keys, n, b, p + 1) == NULLINDEX
  }

  /** The walk along the chain of bucket `b`: `cur` follows `prev`, and `key` has no slot before `cur`. */
  ghost predicate Walking(keys: seq<Key>, n: nat, b: nat, prev: U32, cur: U32, key: Key)
    requires n > 0 && |keys| <= NULLINDEX
  {
    && (prev == NULLINDEX || (prev < |keys| && Bucket(keys[prev], n) == b))
    && cur == NextIn(keys, n, b, if prev == NULLINDEX then 0 else prev + 1)
    && forall j :: 0 <= j < |keys| && (j < cur || cur == NULLINDEX) ==> keys[j] != key
  }

  lemma WalkStart(keys: seq<Key>, n: nat, b: nat, cur: U32, key: Key)
    requires n > 0 && |keys| <= NULLINDEX && b == Bucket(key, n) && cur == NextIn(keys, n, b, 0)
    ensures Walking(keys, n, b, NULLINDEX, cur, key)
  {
    hide Bucket, NextIn;
  }

  lemma WalkStep(keys: seq<Key>, n: nat, b: nat, prev: U32, cur: U32, key: Key)
    requires n > 0 && |keys| <= NULLINDEX && b == Bucket(key, n) && cur != NULLINDEX
    requires Walking(keys, n, b, prev, cur, key)
    ensures cur < |keys| && Bucket(keys[cur], n) == b
    ensures cur < NextIn(keys, n, b, cur + 1)
    ensures keys[cur] != key ==> Walking(keys, n, b, cur, NextIn(keys, n, b, cur + 1), key)
  {
    hide Bucket, NextIn;
  }

  lemma WalkDone(keys: seq<Key>, n: nat, b: nat, prev: U32, key: Key)
    requires n > 0 && |keys| <= NULLINDEX && Walking(keys, n, b, prev, NULLINDEX, key)
    ensures key !in keys && AtEnd(keys, n, b, prev)
  {
    hide Bucket, NextIn;
  }

  lemma EmptyTable(pool: seq<Entry>, heads: seq<U32>, cap: nat)
    requires |heads| > 0 && forall b :: 0 <= b < |heads| ==> heads[b] == NULLINDEX
    ensures Counted(pool, [], [], cap) && Chained(pool, heads, [])
    ensures Slots([], |pool|) == []
  {
  }

  /** Links alone make the chains. */
  lemma ChainedLinks(pool: seq<Entry>, heads: seq<U32>, keys: seq<Key>, i: nat, e: Entry)
    requires Chained(pool, heads, keys) && i < |pool| && e.next == pool[i].next
    ensures Chained(pool[i := e], heads, keys)
  {
    hide Bucket, NextIn;
  }

  /** A slot without a successor in a bucket is the only such slot of that bucket. */
  lemma LastOfBucket(keys: seq<Key>, n: nat, b: nat, p: nat)
    requires n > 0 && |keys| <= NULLINDEX && p < |keys| && Bucket(keys[p], n) == b
    requires NextIn(keys, n, b, p + 1) == NULLINDEX
    ensures NextIn(keys, n, b, 0) != NULLINDEX
    ensures forall i :: 0 <= i < |keys| && Bucket(keys[i], n) == b && NextIn(keys, n, b, i + 1) == NULLINDEX ==> i == p
  {
    hide Bucket;
  }

  /** Links are no part of the counts. */
  lemma CountedLinks(pool: seq<Entry>, pool': seq<Entry>, keys: seq<Key>, calls: seq<Key>, cap: nat)
    requires Counted(pool, keys, calls, cap) && |pool'| == |pool|
    requires forall i :: 0 <= i < |keys| ==> pool'[i].key == pool[i].key && pool'[i].value == pool[i].value
    ensures Counted(pool', keys, calls, cap)
  {
    forall i | 0 <= i < |keys| ensures Holds(pool'[i], keys[i], calls, cap) {
      assert Holds(pool[i], keys[i], calls, cap);
    }
  }

  /** While slots are free, only keys never called lack one. */
  lemma NeverCalled(calls: seq<Key>, key: Key, size: nat)
    requires key !in Slots(calls, size) && |Slots(calls, size)| < size
    ensures key !in calls
  {
    DistinctIsSet(calls);
  }

  // The table

  class PooledTable {
    const POOLSIZE: nat
    const NUMBUCKETS: nat
    const CAP: nat
    const entry_pool: array<Entry>
    const buckets: array<U32>
    var cur_entry: U32

    constructor (poolSize: nat, numBuckets: nat, cap: nat)
      requires poolSize <= NULLINDEX && numBuckets > 0 && 1 <= cap <= 0xffff_ffff
      ensures POOLSIZE == poolSize && NUMBUCKETS == numBuckets && CAP == cap && Sized()
      ensures fresh(entry_pool) && fresh(buckets)
    {
      POOLSIZE, NUMBUCKETS, CAP := poolSize, numBuckets, cap;
      entry_pool := new Entry[poolSize](_ => Entry(0, 0, 0));
      buckets := new U32[numBuckets](_ => 0);
      cur_entry := 0;
    }

    ghost predicate Sized() {
      && POOLSIZE <= NULLINDEX && NUMBUCKETS > 0 && 1 <= CAP <= 0xffff_ffff
      && entry_pool.Length == POOLSIZE && buckets.Length == NUMBUCKETS
    }

    /** The table after `calls`: the first POOLSIZE distinct keys have their slots, counts and chains. */
    ghost predicate After(calls: seq<Key>)
      reads this, entry_pool, buckets
    {
      && Sized()
      && var keys := Slots(calls, POOLSIZE);
         && cur_entry == |keys|
         && Counted(entry_pool[..], keys, calls, CAP)
         && Chained(entry_pool[..], buckets[..], keys)
    }

    method InitTable()
      requires Sized()
      modifies this`cur_entry, buckets
      ensures After([])
    {
      cur_entry := 0;
      var i := 0;
      while i < NUMBUCKETS
        invariant 0 <= i <= NUMBUCKETS && cur_entry == 0 && forall b :: 0 <= b < i ==> buckets[b] == NULLINDEX
      {
        buckets[i] := NULLINDEX;
        i := i + 1;
      }
      EmptyTable(entry_pool[..], buckets[..], CAP);
    }

    /** The count of `key` so far, capped, if `key` is one of the first POOLSIZE distinct keys, else 0. */
    method IncrementValue(key: Key, ghost calls: seq<Key>) returns (r: U32)
      requires After(calls)
      modifies this`cur_entry, entry_pool, buckets
      ensures After(calls + [key])
      ensures r == if key in Slots(calls + [key], POOLSIZE) then Min(Count(calls + [key], key), CAP) else 0
    {
      hide Bucket, Djb2, Slots, Count, Counted, Chained, NextIn;
      var bucket := GetBucket(key);
      var curIndex, prevIndex := Lookup(key, bucket, calls);
      if curIndex != NULLINDEX {
        r := Bump(curIndex, calls, key);
        return;
      }
      if cur_entry < POOLSIZE {
        Append(key, bucket, prevIndex, calls);
        return 1;
      }
      KeptFull(key, calls);
      return 0;
    }

    /** Walks the chain of the bucket to the key's slot, or to its end. */
    method Lookup(key: Key, bucket: nat, ghost calls: seq<Key>) returns (curIndex: U32, prevIndex: U32)
      requires After(calls) && bucket == Bucket(key, NUMBUCKETS)
      ensures var keys := Slots(calls, POOLSIZE);
        if curIndex != NULLINDEX then curIndex < cur_entry && entry_pool[curIndex].key == key
        else key !in keys && AtEnd(keys, NUMBUCKETS, bucket, prevIndex)
    {
      hide Bucket, Djb2, Slots, Count, NextIn, Walking, AtEnd;
      ghost var keys := Slots(calls, POOLSIZE);
      curIndex, prevIndex := buckets[bucket], NULLINDEX;
      WalkStart(keys, NUMBUCKETS, bucket, curIndex, key);
      while curIndex != NULLINDEX
        invariant Walking(keys, NUMBUCKETS, bucket, prevIndex, curIndex, key)
        decreases NULLINDEX - curIndex
      {
        WalkStep(keys, NUMBUCKETS, bucket, prevIndex, curIndex, key);
        assert Holds(entry_pool[..][curIndex], keys[curIndex], calls, CAP);
        if entry_pool[curIndex].key == key {
          return;
        }
        prevIndex := curIndex;
        curIndex := entry_pool[curIndex].next;
      }
      WalkDone(keys, NUMBUCKETS, bucket, prevIndex, key);
    }

    method GetBucket(key: Key) returns (b: nat)
      requires Sized()
      ensures b == Bucket(key, NUMBUCKETS)
    {
      var h := Hash(key);
      b := h % NUMBUCKETS;
    }

    /** The key has a slot: count up to the cap. */
    method Bump(i: U32, ghost calls: seq<Key>, key: Key) returns (r: U32)
      requires After(calls) && i < cur_entry && entry_pool[i].key == key
      modifies entry_pool
      ensures After(calls + [key])
      ensures key in Slots(calls + [key], POOLSIZE) && r == Min(Count(calls + [key], key), CAP)
    {
      hide Bucket, Djb2, Slots, Count, NextIn, Chained, NoRepeat;
      ghost var keys, pool := Slots(calls, POOLSIZE), entry_pool[..];
      assert Holds(pool[i], keys[i], calls, CAP);
      SlotsStep(calls, key, POOLSIZE);
      CountedBump(pool, keys, calls, CAP, i,
        pool[i].(value := if pool[i].value < CAP then pool[i].value + 1 else pool[i].value));
      if entry_pool[i].value < CAP {
        entry_pool[i] := entry_pool[i].(value := entry_pool[i].value + 1);
      }
      r := entry_pool[i].value;
      ChainedLinks(pool, buckets[..], keys, i, entry_pool[i]);
      assert entry_pool[..] == pool[i := entry_pool[i]];
    }

    /** The key takes the next free slot, at the end of its chain. */
    method Append(key: Key, bucket: nat, prevIndex: U32, ghost calls: seq<Key>)
      requires After(calls) && cur_entry < POOLSIZE && key !in Slots(calls, POOLSIZE)
      requires bucket == Bucket(key, NUMBUCKETS)
      requires AtEnd(Slots(calls, POOLSIZE), NUMBUCKETS, bucket, prevIndex)
      modifies this`cur_entry, entry_pool, buckets
      ensures After(calls + [key])
      ensures key in Slots(calls + [key], POOLSIZE) && Min(Count(calls + [key], key), CAP) == 1
    {
      hide Bucket, Djb2, Slots, Count, NextIn, Holds, NoRepeat, Chained, Counted;
      ghost var keys, pool, heads := Slots(calls, POOLSIZE), entry_pool[..], buckets[..];
      SlotsStep(calls, key, POOLSIZE);
      NeverCalled(calls, key, POOLSIZE);
      var curIndex := cur_entry;
      if prevIndex != NULLINDEX {
        entry_pool[prevIndex] := entry_pool[prevIndex].(next := cur_entry);
      } else {
        buckets[bucket] := curIndex;
      }
      cur_entry := cur_entry + 1;
      entry_pool[curIndex] := Entry(key, 1, NULLINDEX);
      assert entry_pool[..] == Relinked(pool, prevIndex, |keys|)[|keys| := Entry(key, 1, NULLINDEX)];
      ChainedInsert(pool, heads, keys, key, prevIndex, Entry(key, 1, NULLINDEX));
      CountedAppend(pool, keys, calls, CAP, key, Entry(key, 1, NULLINDEX));
      CountedLinks(pool[curIndex := Entry(key, 1, NULLINDEX)], entry_pool[..], keys + [key], calls + [key], CAP);
    }

    /** The pool is full and the key has no slot: nothing changes. */
    lemma KeptFull(key: Key, calls: seq<Key>)
      requires After(calls) && cur_entry == POOLSIZE && key !in Slots(calls, POOLSIZE)
      ensures After(calls + [key]) && key !in Slots(calls + [key], POOLSIZE)
    {
      hide Bucket, Djb2, Slots, Count, NextIn;
      SlotsStep(calls, key, POOLSIZE);
      CountedElsewhere(entry_pool[..], Slots(calls, POOLSIZE), calls, CAP, key);
    }
  }

  // The chains as they are linked

  /** The slots met by following links from slot `i`, each larger than the one before. */
  ghost function Chain(pool: seq<Entry>, i: U32): seq<U32>
    decreases |pool| - i
  {
    if i >= |pool| then [] else
    [i] + if pool[i].next > i then Chain(pool, pool[i].next) else []
  }

  lemma MembersCons(x: U32, rest: seq<U32>)
    ensures forall j: U32 :: j in [x] + rest <==> j == x || j in rest
  {
  }

  /** From slot `i` on, the chain of a bucket meets exactly the later slots of its bucket, in order. */
  lemma {:induction false} ChainMeets(pool: seq<Entry>, heads: seq<U32>, keys: seq<Key>, b: nat, i: nat, from: U32)
    requires Chained(pool, heads, keys) && |pool| <= NULLINDEX && i <= |keys| && b < |heads|
    requires from == NextIn(keys, |heads|, b, i)
    ensures forall j: U32 :: j in Chain(pool, from) <==> i <= j < |keys| && Bucket(keys[j], |heads|) == b
    ensures forall s, t :: 0 <= s < t < |Chain(pool, from)| ==> Chain(pool, from)[s] < Chain(pool, from)[t]
    decreases |keys| - i
  {
    hide Bucket, NextIn;
    if from != NULLINDEX {
      var next := pool[from].next;
      var rest := Chain(pool, next);
      ChainMeets(pool, heads, keys, b, from + 1, next);
      assert Chain(pool, from) == [from] + rest;
      forall t | 0 <= t < |rest| ensures from < rest[t] {
        assert rest[t] in rest;
      }
      MembersCons(from, rest);
    }
  }

  /** Every bucket's chain holds exactly the slots of its own keys, so chains are disjoint, and their
      indices increase, so a walk ends after at most POOLSIZE steps. */
  lemma ChainsPartition(pool: seq<Entry>, heads: seq<U32>, keys: seq<Key>, b: nat)
    requires Chained(pool, heads, keys) && |pool| <= NULLINDEX && b < |heads|
    ensures forall j: U32 :: j in Chain(pool, heads[b]) <==> j < |keys| && Bucket(keys[j], |heads|) == b
    ensures forall s, t :: 0 <= s < t < |Chain(pool, heads[b])| ==> Chain(pool, heads[b])[s] < Chain(pool, heads[b])[t]
  {
    hide Bucket, NextIn;
    ChainMeets(pool, heads, keys, b, 0, heads[b]);
  }

  // Runs

  /** After any run of calls, the answer to a key is its count capped, or 0 for a key that came too late. */
  method Run(table: PooledTable, calls: seq<Key>) returns (answers: seq<U32>)
    requires table.Sized()
    modifies table, table.entry_pool, table.buckets
    ensures |answers| == |calls| && table.After(calls)
    ensures forall i :: 0 <= i < |calls| ==>
      (answers[i] == if calls[i] in Slots(calls[..i + 1], table.POOLSIZE) then
        Min(Count(calls[..i + 1], calls[i]), table.CAP) else 0)
  {
    hide Slots, Count, PooledTable.After;
    table.InitTable();
    answers := [];
    var i := 0;
    while i < |calls|
      invariant 0 <= i <= |calls| && |answers| == i && table.After(calls[..i])
      invariant forall j :: 0 <= j < i ==>
        (answers[j] == if calls[j] in Slots(calls[..j + 1], table.POOLSIZE) then
          Min(Count(calls[..j + 1], calls[j]), table.CAP) else 0)
    {
      var r := table.IncrementValue(calls[i], calls[..i]);
      assert calls[..i] + [calls[i]] == calls[..i + 1];
      answers := answers + [r];
      i := i + 1;
    }
    assert calls[..i] == calls;
  }
}
