/** When the hash table grows, and how full that keeps it. */
module HashTableLoad {
  import opened Basics
  import opened HashChains
  import opened HashTable
  import opened HashTableMap

  // ---------- The lengths ----------

  /** Just above three times the power of two, and divisible by none of the first six primes. */
  predicate Picked(n: int, power: int) {
    && 3 * power < n <= 3 * power + 89
    && n % 2 > 0 && n % 3 > 0 && n % 5 > 0 && n % 7 > 0 && n % 11 > 0 && n % 13 > 0
  }

  /** The table lengths double, roughly. */
  lemma Lengths(i: nat)
    requires i < 26
    ensures Picked(Prime(i), Pow2(i + 4))
  {
    hide *;
    PowersUpTo(i + 4);
    if i < 9 {
      FirstLengths(i);
    } else if i < 18 {
      NextLengths(i);
    } else {
      LastLengths(i);
    }
  }

  lemma FirstLengths(i: nat)
    requires 0 <= i < 9
    ensures Picked(Prime(i), Powers()[i + 4])
  {
    assert Picked(53, 16);
    assert Picked(97, 32);
    assert Picked(193, 64);
    assert Picked(389, 128);
    assert Picked(769, 256);
    assert Picked(1543, 512);
    assert Picked(3079, 1024);
    assert Picked(6151, 2048);
    assert Picked(12289, 4096);
    hide Picked;
    assert i == 0 || i == 1 || i == 2 || i == 3 || i == 4 || i == 5 || i == 6 || i == 7 || i == 8;
  }

  lemma NextLengths(i: nat)
    requires 9 <= i < 18
    ensures Picked(Prime(i), Powers()[i + 4])
  {
    assert Picked(24593, 8192);
    assert Picked(49157, 16384);
    assert Picked(98317, 32768);
    assert Picked(196613, 65536);
    assert Picked(393241, 131072);
    assert Picked(786433, 262144);
    assert Picked(1572869, 524288);
    assert Picked(3145739, 1048576);
    assert Picked(6291469, 2097152);
    hide Picked;
    assert i == 9 || i == 10 || i == 11 || i == 12 || i == 13 || i == 14 || i == 15 || i == 16 || i == 17;
  }

  lemma LastLengths(i: nat)
    requires 18 <= i < 26
    ensures Picked(Prime(i), Powers()[i + 4])
  {
    assert Picked(12582917, 4194304);
    assert Picked(25165843, 8388608);
    assert Picked(50331653, 16777216);
    assert Picked(100663319, 33554432);
    assert Picked(201326611, 67108864);
    assert Picked(402653189, 134217728);
    assert Picked(805306457, 268435456);
    assert Picked(1610612741, 536870912);
    hide Picked;
    assert i == 18 || i == 19 || i == 20 || i == 21 || i == 22 || i == 23 || i == 24 || i == 25;
  }

  function Powers(): (s: seq<int>)
    ensures |s| == 30
  {
    [1, 2, 4, 8, 16, 32, 64, 128, 256, 512, 1024, 2048, 4096, 8192, 16384, 32768, 65536, 131072, 262144, 524288,
     1048576, 2097152, 4194304, 8388608, 16777216, 33554432, 67108864, 134217728, 268435456, 536870912]
  }

  lemma {:induction false} PowersUpTo(n: nat)
    requires n < 30
    ensures Pow2(n) == Powers()[n]
  {
    if n > 0 {
      PowersUpTo(n - 1);
    }
  }

  // ---------- One insertion ----------

  ghost predicate SoundState<K, V>(s: State<K, V>, hashfn: K -> nat) {
    s.primeIndex < 26 && |s.c| == Prime(s.primeIndex) > 0 && Sound(s.c, hashfn)
  }

  // At most 65 entries for every 100 buckets, rounded up, or no larger table to be had.
  ghost predicate WithinLimit<K, V>(s: State<K, V>) {
    20 * |Items(s.c)| < 13 * |s.c| + 20 || s.primeIndex == 25
  }

  /**
   An insertion enlarges the table exactly if it is at least 65 hundredths full, there is a larger length and
   memory for it.  With that memory it ends within the limit exactly if the next length would hold all entries.
   */
  lemma InsertionGrows<K, V>(s: State<K, V>, call: Call<K, V>, t: State<K, V>, hashfn: K -> nat, eqfn: (K, K) -> bool)
    requires SoundState(s, hashfn) && call.Insert? && Step(s, call, t, hashfn, eqfn)
    ensures var grows := 20 * |Items(s.c)| >= 13 * |s.c| && s.primeIndex < 25 && call.memory != Neither;
            && t.primeIndex == s.primeIndex + (if grows then 1 else 0) && |t.c| == Prime(t.primeIndex)
            && |Items(t.c)| == |Items(s.c)| + (if call.added == null then 0 else 1)
    ensures call.memory != Neither ==>
              (WithinLimit(t) <==> s.primeIndex >= 24 || 20 * |Items(t.c)| < 13 * Prime(s.primeIndex + 1) + 20)
  {
    hide *;
    SoundIs(s, hashfn);
    StepIs(s, call, t, hashfn, eqfn);
    DueIs(s.c);
    GrownIs(s.c, s.primeIndex, call.memory, hashfn);
    if s.primeIndex < 25 {
      LengthsApart(s.primeIndex);
    }
    if call.added != null {
      AddedOne(Grown(s.c, s.primeIndex, call.memory), call.added, t.c);
    }
    WithinIs(t);
  }

  /** An instance: after failures have let 100 entries into 53 buckets, the next insertion with memory is not enough. */
  lemma StillTooFull<K, V>(s: State<K, V>, call: Call<K, V>, t: State<K, V>, hashfn: K -> nat, eqfn: (K, K) -> bool)
    requires SoundState(s, hashfn) && call.Insert? && Step(s, call, t, hashfn, eqfn)
    requires s.primeIndex == 0 && |Items(s.c)| == 100 && call.memory == NewArray && call.added != null
    ensures |t.c| == 97 && |Items(t.c)| == 101 && !WithinLimit(t)
  {
    hide *;
    InsertionGrows(s, call, t, hashfn, eqfn);
    SoundIs(s, hashfn);
    FirstTwo();
    WithinIs(t);
  }

  lemma FirstTwo()
    ensures Prime(0) == 53 && Prime(1) == 97
  {
  }

  lemma SoundIs<K, V>(s: State<K, V>, hashfn: K -> nat)
    requires SoundState(s, hashfn)
    ensures s.primeIndex < 26 && |s.c| == Prime(s.primeIndex) > 0 && Sound(s.c, hashfn)
  {
  }

  lemma StepIs<K, V>(s: State<K, V>, call: Call<K, V>, t: State<K, V>, hashfn: K -> nat, eqfn: (K, K) -> bool)
    requires |s.c| > 0 && call.Insert? && Step(s, call, t, hashfn, eqfn)
    ensures s.primeIndex < 26 && |s.c| == Prime(s.primeIndex)
    ensures t.primeIndex == s.primeIndex + if Due(s.c) && s.primeIndex < 25 && call.memory != Neither then 1 else 0
    ensures var g := Grown(s.c, s.primeIndex, call.memory);
            if call.added == null then t.c == g else Added(g, call.added, t.c)
  {
    hide Grown, Added, Due;
  }

  lemma WithinIs<K, V>(t: State<K, V>)
    ensures WithinLimit(t) <==> 20 * |Items(t.c)| < 13 * |t.c| + 20 || t.primeIndex == 25
  {
    hide Items;
  }

  lemma LengthsApart(i: nat)
    requires i < 25
    ensures 53 <= Prime(i) && Prime(i) + 40 < Prime(i + 1)
  {
  }

  lemma DueIs<K, V>(c: Chains<K, V>)
    ensures Due(c) <==> 20 * |Items(c)| >= 13 * |c|
  {
    hide Items;
  }

  lemma GrownIs<K, V>(c: Chains<K, V>, primeIndex: nat, memory: Memory, hashfn: K -> nat)
    requires primeIndex < 26 && |c| == Prime(primeIndex) && Sound(c, hashfn)
    ensures var g := Grown(c, primeIndex, memory);
            && |Items(g)| == |Items(c)| && Sound(g, hashfn)
            && |g| == if Due(c) && primeIndex < 25 && memory != Neither then Prime(primeIndex + 1) else |c|
  {
    ExpandedSound(c, primeIndex, memory, hashfn);
    hide Items, Sound, Prime, Due;
  }

  lemma AddedOne<K, V>(c: Chains<K, V>, e: Entry<K, V>, d: Chains<K, V>)
    requires Added(c, e, d)
    ensures |d| == |c| && |Items(d)| == |Items(c)| + 1
  {
    ItemsPush(c, IndexFor(|c|, e.h), e);
    hide Items;
  }

  // ---------- Runs ----------

  lemma StepSound<K, V>(s: State<K, V>, call: Call<K, V>, t: State<K, V>, hashfn: K -> nat, eqfn: (K, K) -> bool)
    requires SoundState(s, hashfn) && Step(s, call, t, hashfn, eqfn)
    ensures SoundState(t, hashfn)
  {
    match call
    case Insert(_, _, memory, added) =>
      InsertionGrows(s, call, t, hashfn, eqfn);
      GrownIs(s.c, s.primeIndex, memory, hashfn);
      if s.primeIndex < 25 {
        PrimesGrow(s.primeIndex);
      }
      hide Sound, Prime, Items, Grown;
      if added != null {
        PushedSound(Grown(s.c, s.primeIndex, memory), added, hashfn);
      }
    case Search(_) =>
    case Remove(k) =>
      var i := IndexFor(|s.c|, hashfn(k));
      var p := Find(s.c[i], hashfn(k), k, eqfn);
      if p < |s.c[i]| {
        TakenOutSound(s.c, i, p, hashfn);
      }
  }

  lemma RemovalShrinks<K, V>(s: State<K, V>, call: Call<K, V>, t: State<K, V>, hashfn: K -> nat, eqfn: (K, K) -> bool)
    requires SoundState(s, hashfn) && !call.Insert? && Step(s, call, t, hashfn, eqfn)
    ensures |Items(t.c)| <= |Items(s.c)| && |t.c| == |s.c| && t.primeIndex == s.primeIndex
  {
    if call.Remove? {
      var i := IndexFor(|s.c|, hashfn(call.k));
      var p := Find(s.c[i], hashfn(call.k), call.k, eqfn);
      if p < |s.c[i]| {
        ItemsTakeOut(s.c, i, p);
      }
    }
  }

  /** As long as every insertion has memory for a larger table, the table is never fuller than its limit. */
  lemma {:induction false} NeverTooFull<K, V>(calls: seq<Call<K, V>>, states: seq<State<K, V>>,
                                              hashfn: K -> nat, eqfn: (K, K) -> bool, i: nat)
    requires Run(calls, states, hashfn, eqfn) && i <= |calls|
    requires forall j :: 0 <= j < i && calls[j].Insert? ==> calls[j].memory != Neither
    ensures SoundState(states[i], hashfn) && WithinLimit(states[i])
  {
    hide Step, Sound, Items;
    if i == 0 {
      StartsWithin(states[0], hashfn);
    } else {
      NeverTooFull(calls, states, hashfn, eqfn, i - 1);
      var s, call, t := states[i - 1], calls[i - 1], states[i];
      assert Step(s, call, t, hashfn, eqfn);
      hide *;
      StepSound(s, call, t, hashfn, eqfn);
      StepWithin(s, call, t, hashfn, eqfn);
    }
  }

  lemma StartsWithin<K, V>(s: State<K, V>, hashfn: K -> nat)
    requires s.primeIndex < 26 && s.c == Empty(Prime(s.primeIndex))
    ensures SoundState(s, hashfn) && WithinLimit(s)
  {
    ItemsEmpty<K, V>(|s.c|);
    assert Prime(s.primeIndex) > 0;
  }

  lemma StepWithin<K, V>(s: State<K, V>, call: Call<K, V>, t: State<K, V>, hashfn: K -> nat, eqfn: (K, K) -> bool)
    requires SoundState(s, hashfn) && Step(s, call, t, hashfn, eqfn)
    requires WithinLimit(s) && (call.Insert? ==> call.memory != Neither)
    ensures WithinLimit(t)
  {
    hide Sound, Step, Items, Prime;
    if call.Insert? {
      InsertionGrows(s, call, t, hashfn, eqfn);
      if s.primeIndex < 25 {
        LengthsApart(s.primeIndex);
      }
    } else {
      RemovalShrinks(s, call, t, hashfn, eqfn);
    }
  }
}
