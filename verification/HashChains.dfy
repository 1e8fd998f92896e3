/**
 The chained hash table as a value: one sequence of entries per bucket, in the order a search meets
 them.  The two ways of rehashing are functions here; HashTable.dfy proves the pointer code computes
 them.
 */
module HashChains {
  import opened Basics

  /** An entry.  Key, value and hash never change once it is in the table; `next` does. */
  class Entry<K, V> {
    const k: K
    const v: V
    const h: nat
    var next: Entry?<K, V>

    constructor (k: K, v: V, h: nat, next: Entry?<K, V>)
      ensures this.k == k && this.v == v && this.h == h && this.next == next
    {
      this.k, this.v, this.h, this.next := k, v, h, next;
    }
  }

  type Chains<K, V> = seq<seq<Entry<K, V>>>

  function IndexFor(tableLength: nat, hashValue: nat): (i: nat)
    requires tableLength > 0
    ensures i < tableLength
  {
    hashValue % tableLength
  }

  /** A hash below the length is its own bucket, and hashes share one exactly if the length divides their difference. */
  lemma SameBucketIff(tableLength: nat, h: nat, g: nat)
    requires tableLength > 0
    ensures h < tableLength ==> IndexFor(tableLength, h) == h
    ensures IndexFor(tableLength, h) == IndexFor(tableLength, g) <==> (h - g) % tableLength == 0
  {
    hide *;
    IndexIs(tableLength, h);
    IndexIs(tableLength, g);
    ModuloIff(tableLength, h, g, h / tableLength, g / tableLength, h % tableLength, g % tableLength);
    if h < tableLength {
      SmallIndex(tableLength, h);
    }
  }

  lemma IndexIs(n: nat, h: nat)
    requires n > 0
    ensures IndexFor(n, h) == h % n && h == n * (h / n) + h % n && 0 <= h % n < n
  {
  }

  lemma SmallIndex(n: nat, h: nat)
    requires h < n
    ensures h % n == h
  {
  }

  lemma ModuloIff(n: int, h: int, g: int, a: int, b: int, r: int, s: int)
    requires n > 0 && h == n * a + r && g == n * b + s && 0 <= r < n && 0 <= s < n
    ensures r == s <==> (h - g) % n == 0
  {
    var q, t := (h - g) / n, (h - g) % n;
    Division(n, h - g);
    Distribute(n, a, b);
    var c := a - b;
    assert n * c + (r - s) == n * q + t;
    Distribute(n, q, c);
    Distribute(n, c, q);
    hide *;
    if t == 0 {
      OnlyZero(n, q - c, r - s);
    }
    if r == s {
      OnlyZero(n, c - q, t);
    }
  }

  lemma Division(n: int, d: int)
    requires n > 0
    ensures d == n * (d / n) + d % n && 0 <= d % n < n
  {
  }

  lemma Distribute(n: int, a: int, b: int)
    ensures n * a - n * b == n * (a - b)
  {
  }

  lemma OnlyZero(n: int, k: int, d: int)
    requires -n < d < n && n > 0
    ensures n * k == d ==> k == 0 && d == 0
  {
    if k >= 1 {
      assert n * k >= n;
    } else if k <= -1 {
      assert n * k <= -n;
    }
  }

  /** Every entry is in the bucket of its hash. */
  ghost predicate Placed<K, V>(c: Chains<K, V>) {
    forall i, p :: 0 <= i < |c| && 0 <= p < |c[i]| ==> InBucket(c[i][p], i, |c|)
  }

  ghost predicate InBucket<K, V>(e: Entry<K, V>, i: nat, n: nat) {
    n > 0 && IndexFor(n, e.h) == i
  }

  function Push<K, V>(c: Chains<K, V>, i: nat, e: Entry<K, V>): Chains<K, V>
    requires i < |c|
  {
    c[i := [e] + c[i]]
  }

  function TakeOut<K, V>(c: Chains<K, V>, i: nat, p: nat): Chains<K, V>
    requires i < |c| && p < |c[i]|
  {
    c[i := c[i][..p] + c[i][p + 1..]]
  }

  function Empty<K, V>(n: nat): (c: Chains<K, V>)
    ensures |c| == n
  {
    seq(n, _ => [])
  }

  // ---------- Plan A: move every entry to a new array of buckets ----------

  function MoveChain<K, V>(chain: seq<Entry<K, V>>, c: Chains<K, V>): (r: Chains<K, V>)
    requires |c| > 0
    ensures |r| == |c|
    decreases chain
  {
    if chain == [] then c
    else MoveChain(chain[1..], Push(c, IndexFor(|c|, chain[0].h), chain[0]))
  }

  function MoveAll<K, V>(was: Chains<K, V>, c: Chains<K, V>): (r: Chains<K, V>)
    requires |c| > 0
    ensures |r| == |c|
    decreases was
  {
    if was == [] then c else MoveAll(was[1..], MoveChain(was[0], c))
  }

  function PlanA<K, V>(was: Chains<K, V>, n: nat): (r: Chains<K, V>)
    requires n > 0
    ensures |r| == n
  {
    MoveAll(was, Empty(n))
  }

  // ---------- Plan B: move entries inside the enlarged array ----------

  // Goes down bucket `i` from position `p`; an entry that belongs elsewhere moves to the front there.
  function Sift<K, V>(c: Chains<K, V>, i: nat, p: nat): (r: Chains<K, V>)
    requires i < |c| && p <= |c[i]|
    ensures |r| == |c|
    decreases |c[i]| - p
  {
    if p == |c[i]| then c
    else
      var e := c[i][p];
      var t := IndexFor(|c|, e.h);
      if t == i then Sift(c, i, p + 1) else Sift(Push(TakeOut(c, i, p), t, e), i, p)
  }

  function SiftFrom<K, V>(c: Chains<K, V>, i: nat, oldLength: nat): (r: Chains<K, V>)
    requires oldLength <= |c|
    ensures |r| == |c|
    decreases oldLength - i
  {
    if i >= oldLength then c else SiftFrom(Sift(c, i, 0), i + 1, oldLength)
  }

  function PlanB<K, V>(was: Chains<K, V>, n: nat): (r: Chains<K, V>)
    requires n >= |was|
    ensures |r| == n
  {
    SiftFrom(was + Empty(n - |was|), 0, |was|)
  }

  // ---------- The entries with one hash, in retrieval order ----------

  function WithHash<K, V>(chain: seq<Entry<K, V>>, h: nat): seq<Entry<K, V>> {
    if chain == [] then []
    else if chain[0].h == h then [chain[0]] + WithHash(chain[1..], h)
    else WithHash(chain[1..], h)
  }

  lemma {:induction false} WithHashConcat<K, V>(a: seq<Entry<K, V>>, b: seq<Entry<K, V>>, h: nat)
    ensures WithHash(a + b, h) == WithHash(a, h) + WithHash(b, h)
  {
    if a == [] {
      assert a + b == b;
    } else {
      assert (a + b)[1..] == a[1..] + b;
      WithHashConcat(a[1..], b, h);
    }
  }

  lemma {:induction false} WithHashNone<K, V>(chain: seq<Entry<K, V>>, h: nat)
    requires forall e :: e in chain ==> e.h != h
    ensures WithHash(chain, h) == []
  {
    if chain != [] {
      assert chain[0] in chain;
      WithHashNone(chain[1..], h);
    }
  }

  lemma WithHashPush<K, V>(c: Chains<K, V>, i: nat, e: Entry<K, V>, j: nat, h: nat)
    requires i < |c| && j < |c|
    ensures WithHash(Push(c, i, e)[j], h) == if i == j && e.h == h then [e] + WithHash(c[j], h) else WithHash(c[j], h)
  {
    if i == j {
      assert ([e] + c[j])[1..] == c[j];
    }
  }

  lemma WithHashTakeOut<K, V>(c: Chains<K, V>, i: nat, p: nat, h: nat)
    requires i < |c| && p < |c[i]|
    ensures var e := c[i][p];
            && WithHash(c[i][p..], h) ==
               (if e.h == h then [e] + WithHash(c[i][p + 1..], h) else WithHash(c[i][p + 1..], h))
            && WithHash(TakeOut(c, i, p)[i][p..], h) == WithHash(c[i][p + 1..], h)
            && TakeOut(c, i, p)[i][..p] == c[i][..p]
  {
    assert c[i][p..][1..] == c[i][p + 1..];
    assert TakeOut(c, i, p)[i][p..] == c[i][p + 1..];
  }

  // ---------- Plan A reverses ----------

  lemma ReversedCons<T>(x: T, rest: seq<T>, tail: seq<T>)
    ensures Reversed([x] + rest) + tail == Reversed(rest) + ([x] + tail)
  {
    assert ([x] + rest)[1..] == rest;
  }

  lemma {:induction false} MoveChainReverses<K, V>(chain: seq<Entry<K, V>>, c: Chains<K, V>, h: nat)
    requires |c| > 0
    ensures var t := IndexFor(|c|, h);
            WithHash(MoveChain(chain, c)[t], h) == Reversed(WithHash(chain, h)) + WithHash(c[t], h)
    decreases chain
  {
    var t := IndexFor(|c|, h);
    if chain == [] {
      assert Reversed([]) + WithHash(c[t], h) == WithHash(c[t], h);
    } else {
      var e, u := chain[0], IndexFor(|c|, chain[0].h);
      var rest := WithHash(chain[1..], h);
      MoveChainReverses(chain[1..], Push(c, u, e), h);
      WithHashPush(c, u, e, t, h);
      if e.h == h {
        ReversedCons(e, rest, WithHash(c[t], h));
      }
    }
  }

  // `k` buckets have been moved, the k-th is next.
  lemma {:induction false} MoveAllReverses<K, V>(was: Chains<K, V>, k: nat, c: Chains<K, V>, h: nat)
    requires |c| > 0 && |was| > 0 && k <= |was| && Placed(was)
    ensures var s, t := IndexFor(|was|, h), IndexFor(|c|, h);
            WithHash(MoveAll(was[k..], c)[t], h) ==
            (if k <= s then Reversed(WithHash(was[s], h)) else []) + WithHash(c[t], h)
    decreases |was| - k
  {
    var s, t := IndexFor(|was|, h), IndexFor(|c|, h);
    if k < |was| {
      assert was[k..][1..] == was[k + 1..];
      MoveAllReverses(was, k + 1, MoveChain(was[k], c), h);
      MoveChainReverses(was[k], c, h);
      if k != s {
        forall e | e in was[k]
          ensures e.h != h
        {
          var p :| 0 <= p < |was[k]| && was[k][p] == e;
          assert InBucket(was[k][p], k, |was|);
        }
        WithHashNone(was[k], h);
      }
    }
  }

  /** Plan A exactly reverses the retrieval order of the entries with any one hash. */
  lemma PlanAReverses<K, V>(was: Chains<K, V>, n: nat, h: nat)
    requires n > 0 && |was| > 0 && Placed(was)
    ensures WithHash(PlanA(was, n)[IndexFor(n, h)], h) == Reversed(WithHash(was[IndexFor(|was|, h)], h))
  {
    assert was[0..] == was;
    MoveAllReverses(was, 0, Empty(n), h);
  }

  // ---------- Plan B reverses what changes bucket, and nothing else ----------

  // The entries with hash `h` that bucket `j` will hold when bucket `i` has been sifted from `p` on.
  function Sifted<K, V>(c: Chains<K, V>, i: nat, p: nat, h: nat, j: nat): seq<Entry<K, V>>
    requires i < |c| && p <= |c[i]| && j < |c|
  {
    var t := IndexFor(|c|, h);
    if t == i || (j != i && j != t) then WithHash(c[j], h)
    else if j == i then WithHash(c[i][..p], h)
    else Reversed(WithHash(c[i][p..], h)) + WithHash(c[t], h)
  }

  lemma SiftedKeep<K, V>(c: Chains<K, V>, i: nat, p: nat, h: nat, j: nat)
    requires i < |c| && p < |c[i]| && j < |c| && IndexFor(|c|, c[i][p].h) == i
    ensures Sifted(c, i, p, h, j) == Sifted(c, i, p + 1, h, j)
  {
    if IndexFor(|c|, h) != i {
      var e := c[i][p];
      assert e.h != h;
      hide IndexFor;
      assert c[i][..p + 1] == c[i][..p] + [e];
      WithHashConcat(c[i][..p], [e], h);
      assert WithHash([e], h) == WithHash([e][1..], h) == [];
      assert WithHash(c[i][..p], h) + [] == WithHash(c[i][..p], h);
      assert c[i][p..][1..] == c[i][p + 1..];
    }
  }

  lemma SiftedMove<K, V>(c: Chains<K, V>, i: nat, p: nat, h: nat, j: nat)
    requires i < |c| && p < |c[i]| && j < |c| && IndexFor(|c|, c[i][p].h) != i
    ensures var e := c[i][p];
            Sifted(c, i, p, h, j) == Sifted(Push(TakeOut(c, i, p), IndexFor(|c|, e.h), e), i, p, h, j)
  {
    var e := c[i][p];
    var t, u := IndexFor(|c|, h), IndexFor(|c|, e.h);
    var without := TakeOut(c, i, p);
    WithHashTakeOut(c, i, p, h);
    WithHashPush(without, u, e, j, h);
    assert e.h == h ==> u == t;
    hide IndexFor;
    if t == i && j == i {
      assert c[i] == c[i][..p] + c[i][p..] && without[i] == c[i][..p] + c[i][p + 1..];
      WithHashConcat(c[i][..p], c[i][p..], h);
      WithHashConcat(c[i][..p], c[i][p + 1..], h);
    }
    if t != i && j == t && e.h == h {
      ReversedCons(e, WithHash(c[i][p + 1..], h), WithHash(c[t], h));
    }
  }

  lemma {:induction false} SiftOrder<K, V>(c: Chains<K, V>, i: nat, p: nat, h: nat, j: nat)
    requires i < |c| && p <= |c[i]| && j < |c|
    ensures WithHash(Sift(c, i, p)[j], h) == Sifted(c, i, p, h, j)
    decreases |c[i]| - p
  {
    if p == |c[i]| {
      assert c[i][..p] == c[i];
      assert Reversed([]) + WithHash(c[j], h) == WithHash(c[j], h);
    } else {
      var e := c[i][p];
      var u := IndexFor(|c|, e.h);
      hide Sifted;
      if u == i {
        SiftedKeep(c, i, p, h, j);
        SiftOrder(c, i, p + 1, h, j);
      } else {
        SiftedMove(c, i, p, h, j);
        SiftOrder(Push(TakeOut(c, i, p), u, e), i, p, h, j);
      }
    }
  }

  // Bucket `i` is next; the entries with hash `h` are in order `before` in their old bucket until it
  // has been sifted, and where they belong afterwards.
  ghost predicate OnTheWay<K, V>(c: Chains<K, V>, i: nat, s: nat, h: nat, before: seq<Entry<K, V>>)
    requires s < |c|
  {
    var t := IndexFor(|c|, h);
    forall j :: 0 <= j < |c| ==>
      WithHash(c[j], h) ==
        if i <= s then (if j == s then before else [])
        else if j != t then [] else if s == t then before else Reversed(before)
  }

  lemma SiftOnTheWay<K, V>(c: Chains<K, V>, i: nat, s: nat, h: nat, before: seq<Entry<K, V>>)
    requires i < |c| && s < |c| && OnTheWay(c, i, s, h, before)
    ensures OnTheWay(Sift(c, i, 0), i + 1, s, h, before)
  {
    var t, d := IndexFor(|c|, h), Sift(c, i, 0);
    forall j | 0 <= j < |c|
      ensures WithHash(d[j], h) == Sifted(c, i, 0, h, j)
    {
      SiftOrder(c, i, 0, h, j);
    }
    assert c[i][0..] == c[i];
    assert Reversed(before) + [] == Reversed(before);
  }

  lemma {:induction false} SiftFromOrder<K, V>(c: Chains<K, V>, i: nat, n: nat, s: nat, h: nat,
                                               before: seq<Entry<K, V>>)
    requires i <= n <= |c| && s < n && OnTheWay(c, i, s, h, before)
    ensures OnTheWay(SiftFrom(c, i, n), n, s, h, before)
    decreases n - i
  {
    if i < n {
      SiftOnTheWay(c, i, s, h, before);
      hide OnTheWay, Sift;
      SiftFromOrder(Sift(c, i, 0), i + 1, n, s, h, before);
    }
  }

  /**
   Plan B reverses the retrieval order of the entries with a hash exactly when it moves them to
   another bucket (or there are fewer than two of them to tell).
   */
  lemma PlanBOrder<K, V>(was: Chains<K, V>, n: nat, h: nat)
    requires n >= |was| > 0 && Placed(was)
    ensures var s, t := IndexFor(|was|, h), IndexFor(n, h);
            WithHash(PlanB(was, n)[t], h) ==
            if s == t then WithHash(was[s], h) else Reversed(WithHash(was[s], h))
  {
    var s := IndexFor(|was|, h);
    var c := was + Empty(n - |was|);
    forall j | 0 <= j < |c|
      ensures WithHash(c[j], h) == if j == s then WithHash(was[s], h) else []
    {
      if j < |was| && j != s {
        forall e | e in was[j]
          ensures e.h != h
        {
          var p :| 0 <= p < |was[j]| && was[j][p] == e;
          assert InBucket(was[j][p], j, |was|);
        }
        WithHashNone(was[j], h);
      }
    }
    SiftFromOrder(c, 0, |was|, s, h, WithHash(was[s], h));
  }

  /**
   Plan B reverses the retrieval order of the entries with one hash exactly if their bucket changes or
   there are not two of them.  HashTableOrder.dfy has the same for the entries with one key.
   */
  lemma PlanBReversesIff<K, V>(was: Chains<K, V>, n: nat, h: nat)
    requires n >= |was| > 0 && Placed(was)
    requires var chain := WithHash(was[IndexFor(|was|, h)], h);
             forall p, q :: 0 <= p < q < |chain| ==> chain[p] != chain[q]
    ensures var chain := WithHash(was[IndexFor(|was|, h)], h);
            WithHash(PlanB(was, n)[IndexFor(n, h)], h) == Reversed(chain) <==>
            IndexFor(|was|, h) != IndexFor(n, h) || |chain| < 2
  {
    var chain := WithHash(was[IndexFor(|was|, h)], h);
    PlanBOrder(was, n, h);
    if |chain| > 0 {
      ReversedAt(chain, 0);
    }
    if |chain| == 1 {
      assert chain == Reversed(chain);
    }
  }

  /** Two entries with hash 0, for one, are not reversed. */
  lemma PlanBKeepsOrder<K, V>(a: Entry<K, V>, b: Entry<K, V>)
    requires a != b && a.h == 0 && b.h == 0
    ensures var was := Empty<K, V>(53)[0 := [a, b]];
            Placed(was) && WithHash(PlanB(was, 97)[0], 0) == WithHash(was[0], 0) == [a, b] != Reversed([a, b])
  {
    var was := Empty<K, V>(53)[0 := [a, b]];
    assert Placed(was);
    PlanBOrder(was, 97, 0);
    assert [a, b][1..] == [b];
    assert WithHash([b], 0) == [b] + WithHash([b][1..], 0) == [b];
    ReversedAt([a, b], 0);
  }

  // ---------- What both plans keep ----------

  ghost function Items<K, V>(c: Chains<K, V>): multiset<Entry<K, V>> {
    if c == [] then multiset{} else multiset(c[0]) + Items(c[1..])
  }

  lemma {:induction false} ItemsUpdate<K, V>(c: Chains<K, V>, i: nat, chain: seq<Entry<K, V>>)
    requires i < |c|
    ensures Items(c[i := chain]) + multiset(c[i]) == Items(c) + multiset(chain)
    decreases i
  {
    var d := c[i := chain];
    var first, rest := multiset(c[0]), Items(c[1..]);
    if i == 0 {
      assert d[1..] == c[1..];
      assert (multiset(chain) + rest) + first == (first + rest) + multiset(chain);
    } else {
      assert d[1..] == c[1..][i - 1 := chain];
      ItemsUpdate(c[1..], i - 1, chain);
      assert (first + Items(d[1..])) + multiset(c[i]) == first + (rest + multiset(chain));
      assert first + (rest + multiset(chain)) == (first + rest) + multiset(chain);
    }
  }

  lemma {:induction false} ItemsConcat<K, V>(c: Chains<K, V>, d: Chains<K, V>)
    ensures Items(c + d) == Items(c) + Items(d)
  {
    if c == [] {
      assert c + d == d;
    } else {
      assert (c + d)[1..] == c[1..] + d;
      ItemsConcat(c[1..], d);
    }
  }

  lemma {:induction false} ItemsEmpty<K, V>(n: nat)
    ensures Items(Empty<K, V>(n)) == multiset{}
    decreases n
  {
    if n > 0 {
      assert Empty<K, V>(n)[1..] == Empty<K, V>(n - 1);
      ItemsEmpty<K, V>(n - 1);
    }
  }

  lemma ItemsPush<K, V>(c: Chains<K, V>, i: nat, e: Entry<K, V>)
    requires i < |c|
    ensures Items(Push(c, i, e)) == Items(c) + multiset{e}
  {
    ItemsUpdate(c, i, [e] + c[i]);
    MultisetCancel(Items(Push(c, i, e)), multiset(c[i]), Items(c), multiset{e});
  }

  lemma MultisetCancel<T>(a: multiset<T>, b: multiset<T>, c: multiset<T>, d: multiset<T>)
    requires a + b == c + (d + b)
    ensures a == c + d
  {
    forall x
      ensures a[x] == (c + d)[x]
    {
      assert (a + b)[x] == (c + (d + b))[x];
    }
  }

  lemma ItemsTakeOut<K, V>(c: Chains<K, V>, i: nat, p: nat)
    requires i < |c| && p < |c[i]|
    ensures Items(c) == Items(TakeOut(c, i, p)) + multiset{c[i][p]}
  {
    var d := TakeOut(c, i, p);
    assert c[i] == c[i][..p] + [c[i][p]] + c[i][p + 1..];
    ItemsUpdate(d, i, c[i]);
    assert d[i := c[i]] == c;
    MultisetCancel(Items(c), multiset(d[i]), Items(d), multiset{c[i][p]});
  }

  lemma {:induction false} ItemsMoveChain<K, V>(chain: seq<Entry<K, V>>, c: Chains<K, V>)
    requires |c| > 0
    ensures Items(MoveChain(chain, c)) == multiset(chain) + Items(c)
    decreases chain
  {
    if chain != [] {
      var e, t := chain[0], IndexFor(|c|, chain[0].h);
      assert MoveChain(chain, c) == MoveChain(chain[1..], Push(c, t, e));
      assert multiset(chain) == multiset{e} + multiset(chain[1..]) by {
        assert chain == [e] + chain[1..];
      }
      hide MoveChain, Items, Push, IndexFor;
      ItemsPush(c, t, e);
      ItemsMoveChain(chain[1..], Push(c, t, e));
    }
  }

  lemma {:induction false} ItemsMoveAll<K, V>(was: Chains<K, V>, c: Chains<K, V>)
    requires |c| > 0
    ensures Items(MoveAll(was, c)) == Items(was) + Items(c)
    decreases was
  {
    if was != [] {
      ItemsMoveChain(was[0], c);
      ItemsMoveAll(was[1..], MoveChain(was[0], c));
    }
  }

  lemma {:induction false} ItemsSift<K, V>(c: Chains<K, V>, i: nat, p: nat)
    requires i < |c| && p <= |c[i]|
    ensures Items(Sift(c, i, p)) == Items(c)
    decreases |c[i]| - p
  {
    if p < |c[i]| {
      var e := c[i][p];
      var t := IndexFor(|c|, e.h);
      if t == i {
        ItemsSift(c, i, p + 1);
      } else {
        ItemsTakeOut(c, i, p);
        ItemsPush(TakeOut(c, i, p), t, e);
        ItemsSift(Push(TakeOut(c, i, p), t, e), i, p);
      }
    }
  }

  lemma {:induction false} ItemsSiftFrom<K, V>(c: Chains<K, V>, i: nat, n: nat)
    requires n <= |c|
    ensures Items(SiftFrom(c, i, n)) == Items(c)
    decreases n - i
  {
    if i < n {
      ItemsSift(c, i, 0);
      ItemsSiftFrom(Sift(c, i, 0), i + 1, n);
    }
  }

  /** Rehashing, either way, keeps the entries: none lost, none twice. */
  lemma RehashKeepsItems<K, V>(was: Chains<K, V>, n: nat)
    requires n >= |was| && n > 0
    ensures Items(PlanA(was, n)) == Items(was) == Items(PlanB(was, n))
  {
    ItemsEmpty<K, V>(n);
    ItemsMoveAll(was, Empty(n));
    ItemsEmpty<K, V>(n - |was|);
    ItemsConcat(was, Empty(n - |was|));
    ItemsSiftFrom(was + Empty(n - |was|), 0, |was|);
  }

  // ---------- Where entries end up ----------

  lemma PlacedPush<K, V>(c: Chains<K, V>, e: Entry<K, V>)
    requires |c| > 0 && Placed(c)
    ensures Placed(Push(c, IndexFor(|c|, e.h), e))
  {
    var i := IndexFor(|c|, e.h);
    var d := Push(c, i, e);
    forall j, p | 0 <= j < |d| && 0 <= p < |d[j]|
      ensures InBucket(d[j][p], j, |d|)
    {
      if j == i && p > 0 {
        assert d[j][p] == c[i][p - 1];
        assert InBucket(c[i][p - 1], i, |c|);
      } else if j != i {
        assert InBucket(c[j][p], j, |c|);
      }
    }
  }

  lemma {:induction false} PlacedMoveChain<K, V>(chain: seq<Entry<K, V>>, c: Chains<K, V>)
    requires |c| > 0 && Placed(c)
    ensures Placed(MoveChain(chain, c))
    decreases chain
  {
    hide Placed;
    if chain != [] {
      PlacedPush(c, chain[0]);
      PlacedMoveChain(chain[1..], Push(c, IndexFor(|c|, chain[0].h), chain[0]));
    }
  }

  lemma {:induction false} PlacedMoveAll<K, V>(was: Chains<K, V>, c: Chains<K, V>)
    requires |c| > 0 && Placed(c)
    ensures Placed(MoveAll(was, c))
    decreases was
  {
    hide Placed;
    if was != [] {
      PlacedMoveChain(was[0], c);
      PlacedMoveAll(was[1..], MoveChain(was[0], c));
    }
  }

  // All buckets but those from `i` to `n` are in order, and of bucket `i` the first `p` entries.
  ghost predicate PlacedBut<K, V>(c: Chains<K, V>, i: nat, p: nat, n: nat) {
    forall j, q :: 0 <= j < |c| && 0 <= q < |c[j]| && (j < i || j >= n || (j == i && q < p)) ==>
      InBucket(c[j][q], j, |c|)
  }

  lemma {:induction false} PlacedSift<K, V>(c: Chains<K, V>, i: nat, p: nat, n: nat)
    requires i < n <= |c| && p <= |c[i]| && PlacedBut(c, i, p, n)
    ensures PlacedBut(Sift(c, i, p), i + 1, 0, n)
    decreases |c[i]| - p
  {
    if p < |c[i]| {
      var e := c[i][p];
      var t := IndexFor(|c|, e.h);
      if t == i {
        assert PlacedBut(c, i, p + 1, n);
        PlacedSift(c, i, p + 1, n);
      } else {
        var d := Push(TakeOut(c, i, p), t, e);
        forall j, q | 0 <= j < |d| && 0 <= q < |d[j]| && (j < i || j >= n || (j == i && q < p))
          ensures InBucket(d[j][q], j, |d|)
        {
          if j == t && q > 0 {
            assert d[j][q] == c[j][q - 1] && InBucket(c[j][q - 1], j, |c|);
          } else if j != t {
            assert d[j][q] == c[j][q] && InBucket(c[j][q], j, |c|);
          }
        }
        PlacedSift(d, i, p, n);
      }
    }
  }

  lemma {:induction false} PlacedSiftFrom<K, V>(c: Chains<K, V>, i: nat, n: nat)
    requires i <= n <= |c| && PlacedBut(c, i, 0, n)
    ensures Placed(SiftFrom(c, i, n))
    decreases n - i
  {
    if i < n {
      PlacedSift(c, i, 0, n);
      PlacedSiftFrom(Sift(c, i, 0), i + 1, n);
    } else {
      forall j, q | 0 <= j < |c| && 0 <= q < |c[j]|
        ensures InBucket(c[j][q], j, |c|)
      {
      }
    }
  }

  /**
   Rehashing, either way, ends with every entry in its bucket for the new size; Plan B does so
   although entries it has moved are met again further on.
   */
  lemma RehashPlaces<K, V>(was: Chains<K, V>, n: nat)
    requires n >= |was| && n > 0
    ensures Placed(PlanA(was, n)) && Placed(PlanB(was, n))
  {
    PlacedMoveAll(was, Empty(n));
    PlacedSiftFrom(was + Empty(n - |was|), 0, |was|);
  }
}
