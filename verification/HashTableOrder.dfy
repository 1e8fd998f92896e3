/**
 Duplicate keys: the order in which a search and removals meet the entries with one key, and what
 growing the table does to that order.

 HashChains.dfy knows the order of the entries with one hash; here they are the entries with one key,
 among others that may collide with it.
 */
module HashTableOrder {
  import opened Basics
  import opened HashChains
  import opened HashTable
  import opened HashTableMap

  /** The entries of a chain whose key equals `k`, in the order of the chain. */
  function WithKey<K, V>(chain: seq<Entry<K, V>>, k: K, eqfn: (K, K) -> bool): seq<Entry<K, V>> {
    if chain == [] then []
    else if eqfn(k, chain[0].k) then [chain[0]] + WithKey(chain[1..], k, eqfn)
    else WithKey(chain[1..], k, eqfn)
  }

  /** The entries with key `k` in retrieval order: those in the bucket of its hash, as they are chained. */
  function InOrder<K, V>(c: Chains<K, V>, k: K, hashfn: K -> nat, eqfn: (K, K) -> bool): seq<Entry<K, V>>
    requires |c| > 0
  {
    WithKey(c[IndexFor(|c|, hashfn(k))], k, eqfn)
  }

  // ---------- Choosing by key ----------

  lemma {:induction false} WithKeyConcat<K, V>(a: seq<Entry<K, V>>, b: seq<Entry<K, V>>, k: K, eqfn: (K, K) -> bool)
    ensures WithKey(a + b, k, eqfn) == WithKey(a, k, eqfn) + WithKey(b, k, eqfn)
  {
    if a == [] {
      assert a + b == b;
    } else {
      assert (a + b)[1..] == a[1..] + b;
      WithKeyConcat(a[1..], b, k, eqfn);
    }
  }

  lemma WithKeyOne<K, V>(e: Entry<K, V>, k: K, eqfn: (K, K) -> bool)
    ensures WithKey([e], k, eqfn) == if eqfn(k, e.k) then [e] else []
  {
    assert [e][1..] == [];
  }

  lemma {:induction false} WithKeyReversed<K, V>(chain: seq<Entry<K, V>>, k: K, eqfn: (K, K) -> bool)
    ensures WithKey(Reversed(chain), k, eqfn) == Reversed(WithKey(chain, k, eqfn))
  {
    if chain != [] {
      var e, rest := chain[0], chain[1..];
      WithKeyReversed(rest, k, eqfn);
      WithKeyConcat(Reversed(rest), [e], k, eqfn);
      WithKeyOne(e, k, eqfn);
      if eqfn(k, e.k) {
        assert WithKey(chain, k, eqfn)[1..] == WithKey(rest, k, eqfn);
      }
    }
  }

  // To choose by key is to choose by hash first.
  lemma {:induction false} WithKeyByHash<K, V>(chain: seq<Entry<K, V>>, k: K, hashfn: K -> nat, eqfn: (K, K) -> bool)
    requires forall e :: e in chain ==> e.h == hashfn(e.k)
    requires forall e :: e in chain && eqfn(k, e.k) ==> hashfn(k) == hashfn(e.k)
    ensures WithKey(chain, k, eqfn) == WithKey(WithHash(chain, hashfn(k)), k, eqfn)
  {
    if chain != [] {
      var e, rest := chain[0], chain[1..];
      assert e in chain;
      WithKeyByHash(rest, k, hashfn, eqfn);
      if e.h == hashfn(k) {
        assert WithHash(chain, hashfn(k))[1..] == WithHash(rest, hashfn(k));
      }
    }
  }

  lemma InOrderByHash<K(!new), V>(c: Chains<K, V>, k: K, hashfn: K -> nat, eqfn: (K, K) -> bool)
    requires |c| > 0 && Congruent(hashfn, eqfn)
    requires forall i, p :: 0 <= i < |c| && 0 <= p < |c[i]| ==> c[i][p].h == hashfn(c[i][p].k)
    ensures InOrder(c, k, hashfn, eqfn) == WithKey(WithHash(c[IndexFor(|c|, hashfn(k))], hashfn(k)), k, eqfn)
  {
    WithKeyByHash(c[IndexFor(|c|, hashfn(k))], k, hashfn, eqfn);
  }

  lemma {:induction false} WithKeyFrom<K, V>(chain: seq<Entry<K, V>>, k: K, eqfn: (K, K) -> bool, p: nat)
    requires p < |WithKey(chain, k, eqfn)|
    ensures WithKey(chain, k, eqfn)[p] in chain
  {
    if eqfn(k, chain[0].k) && p == 0 {
      assert chain[0] in chain;
    } else {
      WithKeyFrom(chain[1..], k, eqfn, if eqfn(k, chain[0].k) then p - 1 else p);
    }
  }

  ghost predicate NoneTwice<T>(s: seq<T>) {
    forall p, q :: 0 <= p < q < |s| ==> s[p] != s[q]
  }

  lemma {:induction false} WithKeyNoneTwice<K, V>(chain: seq<Entry<K, V>>, k: K, eqfn: (K, K) -> bool)
    requires NoneTwice(chain)
    ensures NoneTwice(WithKey(chain, k, eqfn))
  {
    if chain != [] {
      var rest := WithKey(chain[1..], k, eqfn);
      WithKeyNoneTwice(chain[1..], k, eqfn);
      forall q | 0 <= q < |rest|
        ensures rest[q] != chain[0]
      {
        WithKeyFrom(chain[1..], k, eqfn, q);
        var j :| 0 <= j < |chain[1..]| && chain[1..][j] == rest[q];
        assert chain[0] != chain[j + 1];
      }
      var r := WithKey(chain, k, eqfn);
      assert r == if eqfn(k, chain[0].k) then [chain[0]] + rest else rest;
    }
  }

  lemma ReversedIsItself<T>(s: seq<T>)
    requires NoneTwice(s)
    ensures s == Reversed(s) <==> |s| < 2
  {
    if |s| > 0 {
      ReversedAt(s, 0);
    }
    if |s| == 1 {
      assert s == Reversed(s);
    }
  }

  // ---------- Retrieval ----------

  lemma {:induction false} FindIsFirst<K, V>(chain: seq<Entry<K, V>>, k: K, hashfn: K -> nat, eqfn: (K, K) -> bool)
    requires forall e :: e in chain && eqfn(k, e.k) ==> e.h == hashfn(k)
    ensures var p, r := Find(chain, hashfn(k), k, eqfn), WithKey(chain, k, eqfn);
            if p == |chain| then r == []
            else p < |chain| && r == [chain[p]] + WithKey(chain[..p] + chain[p + 1..], k, eqfn)
  {
    hide Find, WithKey;
    if chain == [] {
      NoneFound<K, V>(k, hashfn(k), eqfn);
    } else {
      OneFurther(chain, hashfn(k), k, eqfn);
      if eqfn(k, chain[0].k) {
        assert chain[0] in chain && chain[..0] + chain[0 + 1..] == chain[1..];
      } else {
        FindIsFirst(chain[1..], k, hashfn, eqfn);
        var p := Find(chain[1..], hashfn(k), k, eqfn);
        if p < |chain[1..]| {
          SkipHead(chain, p);
          OneFurther(chain[..p + 1] + chain[p + 2..], hashfn(k), k, eqfn);
        }
      }
    }
  }

  lemma NoneFound<K, V>(k: K, hashValue: nat, eqfn: (K, K) -> bool)
    ensures Find<K, V>([], hashValue, k, eqfn) == 0 && WithKey<K, V>([], k, eqfn) == []
  {
  }

  lemma OneFurther<K, V>(chain: seq<Entry<K, V>>, hashValue: nat, k: K, eqfn: (K, K) -> bool)
    requires chain != []
    ensures Find(chain, hashValue, k, eqfn) ==
            if chain[0].h == hashValue && eqfn(k, chain[0].k) then 0 else 1 + Find(chain[1..], hashValue, k, eqfn)
    ensures WithKey(chain, k, eqfn) ==
            (if eqfn(k, chain[0].k) then [chain[0]] else []) + WithKey(chain[1..], k, eqfn)
  {
  }

  lemma SkipHead<T>(s: seq<T>, p: nat)
    requires p + 1 < |s|
    ensures s[..p + 1] + s[p + 2..] != []
    ensures (s[..p + 1] + s[p + 2..])[0] == s[0]
    ensures (s[..p + 1] + s[p + 2..])[1..] == s[1..][..p] + s[1..][p + 1..]
  {
  }

  /** A search finds the first of the entries with an equal key, and a removal takes that one out. */
  lemma RetrievedInOrder<K(!new), V>(c: Chains<K, V>, k: K, hashfn: K -> nat, eqfn: (K, K) -> bool)
    requires |c| > 0 && Sound(c, hashfn) && Congruent(hashfn, eqfn)
    ensures var r, d := InOrder(c, k, hashfn, eqfn), Removed(c, hashfn(k), k, eqfn);
            && |d| == |c|
            && Lookup(c, hashfn(k), k, eqfn) == (if r == [] then None else Some(r[0].v))
            && InOrder(d, k, hashfn, eqfn) == if r == [] then [] else r[1..]
  {
    FindIsFirst(c[IndexFor(|c|, hashfn(k))], k, hashfn, eqfn);
  }

  // ---------- Growing the table ----------

  /** Plan A reverses the retrieval order of the entries with any one key. */
  lemma PlanAReversesKeys<K(!new), V>(was: Chains<K, V>, n: nat, k: K, hashfn: K -> nat, eqfn: (K, K) -> bool)
    requires n >= |was| > 0 && Sound(was, hashfn) && Congruent(hashfn, eqfn)
    ensures InOrder(PlanA(was, n), k, hashfn, eqfn) == Reversed(InOrder(was, k, hashfn, eqfn))
  {
    hide WithKey, PlanA, PlanB, IndexFor, Placed, Distinct, Items;
    RehashKeepsItems(was, n);
    SameItemsHashed(was, PlanA(was, n), hashfn);
    InOrderByHash(was, k, hashfn, eqfn);
    InOrderByHash(PlanA(was, n), k, hashfn, eqfn);
    PlanAReverses(was, n, hashfn(k));
    WithKeyReversed(WithHash(was[IndexFor(|was|, hashfn(k))], hashfn(k)), k, eqfn);
  }

  lemma PlanBKeyOrder<K(!new), V>(was: Chains<K, V>, n: nat, k: K, hashfn: K -> nat, eqfn: (K, K) -> bool)
    requires n >= |was| > 0 && Sound(was, hashfn) && Congruent(hashfn, eqfn)
    ensures var r := InOrder(was, k, hashfn, eqfn);
            InOrder(PlanB(was, n), k, hashfn, eqfn) ==
            if IndexFor(|was|, hashfn(k)) == IndexFor(n, hashfn(k)) then r else Reversed(r)
  {
    hide WithKey, PlanA, PlanB, IndexFor, Placed, Distinct, Items;
    RehashKeepsItems(was, n);
    SameItemsHashed(was, PlanB(was, n), hashfn);
    InOrderByHash(was, k, hashfn, eqfn);
    InOrderByHash(PlanB(was, n), k, hashfn, eqfn);
    PlanBOrder(was, n, hashfn(k));
    WithKeyReversed(WithHash(was[IndexFor(|was|, hashfn(k))], hashfn(k)), k, eqfn);
  }

  /**
   The library's header says that resizing reverses the retrieval order of duplicate keys.  Plan B
   does so exactly if their bucket changes or there are not two of them.
   */
  lemma PlanBReversesKeysIff<K(!new), V>(was: Chains<K, V>, n: nat, k: K, hashfn: K -> nat, eqfn: (K, K) -> bool)
    requires n >= |was| > 0 && Sound(was, hashfn) && Congruent(hashfn, eqfn)
    ensures var r := InOrder(was, k, hashfn, eqfn);
            InOrder(PlanB(was, n), k, hashfn, eqfn) == Reversed(r) <==>
            IndexFor(|was|, hashfn(k)) != IndexFor(n, hashfn(k)) || |r| < 2
  {
    hide *;
    PlanBKeyOrder(was, n, k, hashfn, eqfn);
    InOrderNoneTwice(was, k, hashfn, eqfn);
    ReversedIsItself(InOrder(was, k, hashfn, eqfn));
  }

  lemma InOrderNoneTwice<K, V>(c: Chains<K, V>, k: K, hashfn: K -> nat, eqfn: (K, K) -> bool)
    requires |c| > 0 && Sound(c, hashfn)
    ensures NoneTwice(InOrder(c, k, hashfn, eqfn))
  {
    var i := IndexFor(|c|, hashfn(k));
    forall p, q | 0 <= p < q < |c[i]|
      ensures c[i][p] != c[i][q]
    {
      OccursOnce(c, i, p);
    }
    WithKeyNoneTwice(c[i], k, eqfn);
  }

  /** An expansion with this memory reverses the entries with hash `h`. */
  ghost predicate Reverses(tableLength: nat, primeIndex: nat, memory: Memory, h: nat)
    requires primeIndex < 26 && tableLength > 0
  {
    primeIndex < 25 &&
    (memory == NewArray || (memory == Realloc && IndexFor(tableLength, h) != IndexFor(Prime(primeIndex + 1), h)))
  }

  lemma ExpandedOrder<K(!new), V>(c: Chains<K, V>, primeIndex: nat, memory: Memory,
                                  k: K, hashfn: K -> nat, eqfn: (K, K) -> bool)
    requires primeIndex < 26 && |c| == Prime(primeIndex) > 0 && Sound(c, hashfn) && Congruent(hashfn, eqfn)
    ensures var r, d := InOrder(c, k, hashfn, eqfn), Expanded(c, primeIndex, memory);
            && |d| > 0 && Sound(d, hashfn)
            && InOrder(d, k, hashfn, eqfn) ==
               if Reverses(|c|, primeIndex, memory, hashfn(k)) then Reversed(r) else r
  {
    ExpandedSound(c, primeIndex, memory, hashfn);
    if primeIndex < 25 && memory != Neither {
      var n := Prime(primeIndex + 1);
      PrimesGrow(primeIndex);
      assert Expanded(c, primeIndex, memory) == if memory == NewArray then PlanA(c, n) else PlanB(c, n);
      hide *;
      PlanAReversesKeys(c, n, k, hashfn, eqfn);
      PlanBKeyOrder(c, n, k, hashfn, eqfn);
      ReversesFor(|c|, primeIndex, memory, hashfn(k));
    }
  }

  lemma ReversesFor(tableLength: nat, primeIndex: nat, memory: Memory, h: nat)
    requires primeIndex < 25 && tableLength > 0 && memory != Neither
    ensures Prime(primeIndex + 1) > 0
    ensures Reverses(tableLength, primeIndex, memory, h) <==>
            memory == NewArray || IndexFor(tableLength, h) != IndexFor(Prime(primeIndex + 1), h)
  {
  }

  /**
   What a program sees: after an expansion that reverses it, a duplicated key answers with the entry
   that was the last among its equals, otherwise still with the first.
   */
  lemma ExpandedAnswer<K(!new), V>(c: Chains<K, V>, primeIndex: nat, memory: Memory,
                                   k: K, hashfn: K -> nat, eqfn: (K, K) -> bool)
    requires primeIndex < 26 && |c| == Prime(primeIndex) > 0 && Sound(c, hashfn) && Congruent(hashfn, eqfn)
    requires InOrder(c, k, hashfn, eqfn) != []
    ensures var r, d := InOrder(c, k, hashfn, eqfn), Expanded(c, primeIndex, memory);
            && |d| > 0
            && Lookup(d, hashfn(k), k, eqfn) ==
               Some(if Reverses(|c|, primeIndex, memory, hashfn(k)) then r[|r| - 1].v else r[0].v)
  {
    hide *;
    var d: Chains<K, V> := Expanded(c, primeIndex, memory);
    ExpandedOrder(c, primeIndex, memory, k, hashfn, eqfn);
    ReversedAt(InOrder(c, k, hashfn, eqfn), 0);
    RetrievedInOrder(d, k, hashfn, eqfn);
  }
}
