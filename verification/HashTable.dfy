/**
 The simulator's hash table: separate chaining, prime table lengths, two ways of growing.

 The pointer code is proved against the functions of HashChains.dfy; the ghost field `chains` holds
 the table as a value.  What a table means to its users, a finite map, is proved in HashTableMap.dfy.
 */
module HashTable {
  import opened Basics
  import opened HashChains

  const PRIMES: seq<nat> := [
    53, 97, 193, 389,
    769, 1543, 3079, 6151,
    12289, 24593, 49157, 98317,
    196613, 393241, 786433, 1572869,
    3145739, 6291469, 12582917, 25165843,
    50331653, 100663319, 201326611, 402653189,
    805306457, 1610612741]

  function Prime(i: nat): nat
    requires i < 26
  {
    PRIMES[i]
  }

  lemma PrimesGrow(i: nat)
    requires i + 1 < 26
    ensures 0 < Prime(i) < Prime(i + 1)
  {
  }

  /** The ceiling of 0.65 times the table length. */
  function LoadLimit(size: nat): (limit: nat)
    ensures 13 * size <= 20 * limit < 13 * size + 20
  {
    (13 * size + 19) / 20
  }

  // ---------- Linked chains ----------

  /** The entry at position `p` of a chain, and the one before it; null beyond the ends. */
  function Current<K, V>(chain: seq<Entry<K, V>>, p: nat): Entry?<K, V> {
    if p < |chain| then chain[p] else null
  }

  function Previous<K, V>(chain: seq<Entry<K, V>>, p: nat): Entry?<K, V>
    requires p <= |chain|
  {
    if p == 0 then null else chain[p - 1]
  }

  /** The array and the `next` fields of entries in `repr` spell out the chains. */
  ghost predicate Linked<K, V>(tbl: array<Entry?<K, V>>, c: Chains<K, V>, repr: set<Entry<K, V>>)
    reads tbl, repr
  {
    && tbl.Length == |c|
    && (forall i :: 0 <= i < |c| ==> tbl[i] == Current(c[i], 0))
    && (forall i, p :: 0 <= i < |c| && 0 <= p < |c[i]| ==> c[i][p] in repr && c[i][p].next == Current(c[i], p + 1))
  }

  /** No entry occurs twice. */
  ghost predicate Distinct<K, V>(c: Chains<K, V>) {
    forall e :: e in Items(c) ==> Items(c)[e] == 1
  }

  ghost predicate Absent<K, V>(c: Chains<K, V>, e: Entry<K, V>) {
    forall i, p :: 0 <= i < |c| && 0 <= p < |c[i]| ==> c[i][p] != e
  }

  lemma {:induction false} ItemsMember<K, V>(c: Chains<K, V>, i: nat, p: nat)
    requires i < |c| && p < |c[i]|
    ensures c[i][p] in Items(c)
  {
    if i > 0 {
      ItemsMember(c[1..], i - 1, p);
    }
  }

  lemma {:induction false} FindItem<K, V>(c: Chains<K, V>, e: Entry<K, V>) returns (i: nat, p: nat)
    requires e in Items(c)
    ensures i < |c| && p < |c[i]| && c[i][p] == e
  {
    if e in multiset(c[0]) {
      i := 0;
      p :| 0 <= p < |c[0]| && c[0][p] == e;
    } else {
      i, p := FindItem(c[1..], e);
      i := i + 1;
    }
  }

  // Taking out an entry that occurs once leaves none of it.
  lemma TakenOutIsGone<K, V>(c: Chains<K, V>, i: nat, p: nat)
    requires i < |c| && p < |c[i]| && Distinct(c)
    ensures Absent(TakeOut(c, i, p), c[i][p]) && Distinct(TakeOut(c, i, p))
  {
    var d, e := TakeOut(c, i, p), c[i][p];
    ItemsTakeOut(c, i, p);
    ItemsMember(c, i, p);
    forall j, q | 0 <= j < |d| && 0 <= q < |d[j]|
      ensures d[j][q] != e
    {
      ItemsMember(d, j, q);
    }
    forall f | f in Items(d)
      ensures Items(d)[f] == 1
    {
      assert f in Items(c);
    }
  }

  lemma PushedIsDistinct<K, V>(c: Chains<K, V>, i: nat, e: Entry<K, V>)
    requires i < |c| && Distinct(c) && Absent(c, e)
    ensures Distinct(Push(c, i, e))
  {
    ItemsPush(c, i, e);
    if e in Items(c) {
      var j, q := FindItem(c, e);
    }
  }

  lemma OccursOnce<K, V>(c: Chains<K, V>, i: nat, p: nat)
    requires i < |c| && p < |c[i]| && Distinct(c)
    ensures forall j, q :: 0 <= j < |c| && 0 <= q < |c[j]| && c[j][q] == c[i][p] ==> j == i && q == p
  {
    var d := TakeOut(c, i, p);
    TakenOutIsGone(c, i, p);
    forall j, q | 0 <= j < |c| && 0 <= q < |c[j]| && !(j == i && q == p)
      ensures c[j][q] != c[i][p]
    {
      assert c[j][q] == if j == i && q > p then d[i][q - 1] else d[j][q];
    }
  }

  // An entry from elsewhere is in no chain, and may be added to `repr`.
  lemma ForeignIsAbsent<K, V>(tbl: array<Entry?<K, V>>, c: Chains<K, V>, repr: set<Entry<K, V>>, e: Entry<K, V>)
    requires Linked(tbl, c, repr) && e !in repr
    ensures Absent(c, e) && Linked(tbl, c, repr + {e})
  {
  }

  lemma LinkedLength<K, V>(tbl: array<Entry?<K, V>>, c: Chains<K, V>, repr: set<Entry<K, V>>)
    requires Linked(tbl, c, repr)
    ensures tbl.Length == |c|
  {
  }

  lemma HeadOfChain<K, V>(tbl: array<Entry?<K, V>>, c: Chains<K, V>, i: nat, repr: set<Entry<K, V>>)
    requires Linked(tbl, c, repr) && i < |c|
    ensures tbl.Length == |c| && tbl[i] == Current(c[i], 0)
  {
  }

  lemma NextInChain<K, V>(tbl: array<Entry?<K, V>>, c: Chains<K, V>, i: nat, p: nat, repr: set<Entry<K, V>>)
    requires Linked(tbl, c, repr) && i < |c| && p < |c[i]|
    ensures c[i][p].next == Current(c[i], p + 1)
  {
  }

  lemma PreviousInRepr<K, V>(tbl: array<Entry?<K, V>>, c: Chains<K, V>, i: nat, p: nat, repr: set<Entry<K, V>>)
    requires Linked(tbl, c, repr) && i < |c| && p <= |c[i]|
    ensures Previous(c[i], p) == null || Previous(c[i], p) in repr
  {
  }

  // ---------- Pointer operations ----------

  // Takes the head out of a bucket: the slot then points to what followed it.
  method PopHead<K, V>(tbl: array<Entry?<K, V>>, i: nat, ghost c: Chains<K, V>, ghost repr: set<Entry<K, V>>)
    returns (e: Entry<K, V>)
    requires Linked(tbl, c, repr) && i < |c| && c[i] != []
    modifies tbl
    ensures e == c[i][0] && Linked(tbl, TakeOut(c, i, 0), repr)
  {
    e := tbl[i];
    tbl[i] := e.next;
    ghost var d := TakeOut(c, i, 0);
    forall j, p | 0 <= j < |d| && 0 <= p < |d[j]|
      ensures d[j][p] in repr && d[j][p].next == Current(d[j], p + 1)
    {
      assert d[j][p] == if j == i then c[j][p + 1] else c[j][p];
    }
  }

  // Puts an entry in front of a bucket.
  method PushHead<K, V>(tbl: array<Entry?<K, V>>, i: nat, e: Entry<K, V>,
                        ghost c: Chains<K, V>, ghost repr: set<Entry<K, V>>)
    requires Linked(tbl, c, repr) && i < |c| && Absent(c, e) && e in repr
    modifies tbl, e`next
    ensures Linked(tbl, Push(c, i, e), repr)
  {
    e.next := tbl[i];
    tbl[i] := e;
    ghost var d := Push(c, i, e);
    forall j, p | 0 <= j < |d| && 0 <= p < |d[j]|
      ensures d[j][p] in repr && d[j][p].next == Current(d[j], p + 1)
    {
      if j == i && p > 0 {
        assert d[i][p] == c[i][p - 1];
      } else if j != i {
        assert d[j][p] == c[j][p];
      }
    }
  }

  // Takes an entry out of a chain: the slot of its bucket, or the entry before it, then points past it.
  method Unlink<K, V>(tbl: array<Entry?<K, V>>, i: nat, prev: Entry?<K, V>, e: Entry<K, V>,
                      ghost c: Chains<K, V>, ghost p: nat, ghost repr: set<Entry<K, V>>)
    requires Linked(tbl, c, repr) && Distinct(c) && i < |c| && p < |c[i]| && c[i][p] == e
    requires if p == 0 then prev == null else prev == c[i][p - 1]
    modifies tbl, if prev == null then {} else {prev}
    ensures Linked(tbl, TakeOut(c, i, p), repr)
  {
    ghost var d := TakeOut(c, i, p);
    if prev == null {
      tbl[i] := e.next;
    } else {
      OccursOnce(c, i, p - 1);
      prev.next := e.next;
    }
    forall j, q | 0 <= j < |d| && 0 <= q < |d[j]|
      ensures d[j][q] in repr && d[j][q].next == Current(d[j], q + 1)
    {
      assert d[j][q] == if j == i && q >= p then c[i][q + 1] else c[j][q];
    }
  }

  // ---------- Rehashing ----------

  lemma MoveHead<K, V>(rem: Chains<K, V>, i: nat, neu: Chains<K, V>)
    requires i < |rem| && |neu| > 0 && rem[i] != []
    ensures var e := rem[i][0];
            MoveAll(rem[i..], neu) == MoveAll(TakeOut(rem, i, 0)[i..], Push(neu, IndexFor(|neu|, e.h), e))
  {
    var d := TakeOut(rem, i, 0);
    assert d[i] == rem[i][1..];
    assert rem[i..][1..] == rem[i + 1..] == d[i..][1..];
  }

  lemma MoveNone<K, V>(rem: Chains<K, V>, i: nat, neu: Chains<K, V>)
    requires i < |rem| && |neu| > 0 && rem[i] == []
    ensures MoveAll(rem[i..], neu) == MoveAll(rem[i + 1..], neu)
  {
    assert rem[i..][1..] == rem[i + 1..];
  }

  // Plan A half way: `rem` is still to be moved, from bucket `i` on, and `neu` is the new table so far.
  ghost predicate Moving<K, V>(rem: Chains<K, V>, i: nat, neu: Chains<K, V>, c: Chains<K, V>, newSize: nat) {
    && i <= |rem| == |c| && |neu| == newSize > 0
    && Distinct(c) && Items(rem) + Items(neu) == Items(c)
    && MoveAll(rem[i..], neu) == PlanA(c, newSize)
  }

  lemma MovingStep<K, V>(rem: Chains<K, V>, i: nat, neu: Chains<K, V>, c: Chains<K, V>, newSize: nat)
    requires Moving(rem, i, neu, c, newSize) && i < |rem| && rem[i] != []
    ensures var e := rem[i][0];
            && Absent(TakeOut(rem, i, 0), e) && Absent(neu, e)
            && Moving(TakeOut(rem, i, 0), i, Push(neu, IndexFor(|neu|, e.h), e), c, newSize)
  {
    MoveHead(rem, i, neu);
    MoveKeeps(rem, i, neu, c);
  }

  // Plan A.  The entries go from `tbl` to a new array; `tbl` is left empty.
  method MoveToNew<K, V>(tbl: array<Entry?<K, V>>, newSize: nat, ghost c: Chains<K, V>, ghost repr: set<Entry<K, V>>)
    returns (newTable: array<Entry?<K, V>>)
    requires Linked(tbl, c, repr) && Distinct(c) && newSize > 0
    modifies tbl, repr
    ensures fresh(newTable) && Linked(newTable, PlanA(c, newSize), repr)
  {
    newTable := new Entry?<K, V>[newSize](_ => null);
    ghost var rem, neu := c, Empty<K, V>(newSize);
    ItemsEmpty<K, V>(newSize);
    assert rem[0..] == rem;
    for i := 0 to tbl.Length
      invariant Linked(tbl, rem, repr) && Linked(newTable, neu, repr)
      invariant Moving(rem, i, neu, c, newSize)
    {
      hide Moving;
      while tbl[i] != null
        invariant |rem| == tbl.Length && |neu| == newSize
        invariant Linked(tbl, rem, repr) && Linked(newTable, neu, repr)
        invariant Moving(rem, i, neu, c, newSize)
        decreases |rem[i]|
      {
        rem, neu := MoveEntry(tbl, i, newTable, rem, neu, repr, c);
      }
      MovingNext(rem, i, neu, c, newSize);
    }
    assert rem[tbl.Length..] == [];
  }

  lemma MovingNext<K, V>(rem: Chains<K, V>, i: nat, neu: Chains<K, V>, c: Chains<K, V>, newSize: nat)
    requires Moving(rem, i, neu, c, newSize) && i < |rem| && rem[i] == []
    ensures Moving(rem, i + 1, neu, c, newSize)
  {
    MoveNone(rem, i, neu);
  }

  method MoveEntry<K, V>(tbl: array<Entry?<K, V>>, i: nat, newTable: array<Entry?<K, V>>,
                         ghost rem: Chains<K, V>, ghost neu: Chains<K, V>, ghost repr: set<Entry<K, V>>,
                         ghost c: Chains<K, V>)
    returns (ghost rem': Chains<K, V>, ghost neu': Chains<K, V>)
    requires tbl != newTable && Linked(tbl, rem, repr) && Linked(newTable, neu, repr)
    requires Moving(rem, i, neu, c, newTable.Length) && i < |rem| && tbl[i] != null
    modifies tbl, newTable, repr
    ensures |rem'| == |rem| && |neu'| == |neu| && |rem'[i]| < |rem[i]|
    ensures Linked(tbl, rem', repr) && Linked(newTable, neu', repr)
    ensures Moving(rem', i, neu', c, newTable.Length)
  {
    MovingStep(rem, i, neu, c, newTable.Length);
    hide Moving;
    var e := PopHead(tbl, i, rem, repr);
    var tindex := IndexFor(newTable.Length, e.h);
    rem' := TakeOut(rem, i, 0);
    PushHead(newTable, tindex, e, neu, repr);
    neu' := Push(neu, tindex, e);
  }

  lemma MoveKeeps<K, V>(rem: Chains<K, V>, i: nat, neu: Chains<K, V>, c: Chains<K, V>)
    requires i < |rem| && |neu| > 0 && rem[i] != []
    requires Distinct(c) && Items(rem) + Items(neu) == Items(c)
    ensures var e := rem[i][0];
            && Absent(TakeOut(rem, i, 0), e) && Absent(neu, e)
            && Items(TakeOut(rem, i, 0)) + Items(Push(neu, IndexFor(|neu|, e.h), e)) == Items(c)
  {
    var e := rem[i][0];
    var d := TakeOut(rem, i, 0);
    ItemsTakeOut(rem, i, 0);
    ItemsPush(neu, IndexFor(|neu|, e.h), e);
    assert Items(c)[e] == 1;
    assert Items(d) + (Items(neu) + multiset{e}) == Items(rem) + Items(neu);
    forall j, q | 0 <= j < |d| && 0 <= q < |d[j]|
      ensures d[j][q] != e
    {
      ItemsMember(d, j, q);
    }
    forall j, q | 0 <= j < |neu| && 0 <= q < |neu[j]|
      ensures neu[j][q] != e
    {
      ItemsMember(neu, j, q);
    }
  }

  // Plan B, first half: the old array enlarged, with the new slots cleared.
  method Enlarge<K, V>(tbl: array<Entry?<K, V>>, newSize: nat, ghost c: Chains<K, V>, ghost repr: set<Entry<K, V>>)
    returns (newTable: array<Entry?<K, V>>)
    requires Linked(tbl, c, repr) && newSize >= tbl.Length
    ensures fresh(newTable) && Linked(newTable, c + Empty(newSize - |c|), repr)
  {
    newTable := new Entry?<K, V>[newSize](_ => null);
    for i := 0 to tbl.Length
      invariant forall j :: 0 <= j < newSize ==> newTable[j] == if j < i then tbl[j] else null
    {
      newTable[i] := tbl[i];
    }
  }

  // The entry that the slot of a bucket, or the entry before, points to.
  method Dereference<K, V>(tbl: array<Entry?<K, V>>, i: nat, prev: Entry?<K, V>,
                           ghost c: Chains<K, V>, ghost p: nat, ghost repr: set<Entry<K, V>>)
    returns (e: Entry?<K, V>)
    requires Linked(tbl, c, repr) && i < |c| && p <= |c[i]| && prev == Previous(c[i], p)
    ensures e == Current(c[i], p)
  {
    e := if prev == null then tbl[i] else prev.next;
  }

  // Plan B, second half: one bucket.
  method SiftBucket<K, V>(tbl: array<Entry?<K, V>>, i: nat, ghost c: Chains<K, V>, ghost repr: set<Entry<K, V>>)
    requires Linked(tbl, c, repr) && Distinct(c) && i < |c|
    modifies tbl, repr
    ensures Linked(tbl, Sift(c, i, 0), repr) && Distinct(Sift(c, i, 0))
  {
    LinkedLength(tbl, c, repr);
    hide Linked, Distinct, Sift, Push, TakeOut, Items, IndexFor;
    var prev: Entry?<K, V> := null;
    ghost var d, p: nat := c, 0;
    var e := Dereference(tbl, i, prev, d, p, repr);
    while e != null
      invariant Linked(tbl, d, repr) && Distinct(d) && |d| == |c| == tbl.Length && p <= |d[i]|
      invariant e == Current(d[i], p) && prev == Previous(d[i], p)
      invariant Sift(d, i, p) == Sift(c, i, 0)
      decreases |d[i]| - p
    {
      prev, d, p := SiftEntry(tbl, i, prev, e, d, p, repr);
      e := Dereference(tbl, i, prev, d, p, repr);
    }
    SiftOn(d, i, p);
  }

  // One entry stays, or moves to the front of its bucket.
  method SiftEntry<K, V>(tbl: array<Entry?<K, V>>, i: nat, prev: Entry?<K, V>, e: Entry<K, V>,
                         ghost d: Chains<K, V>, ghost p: nat, ghost repr: set<Entry<K, V>>)
    returns (prev': Entry?<K, V>, ghost d': Chains<K, V>, ghost p': nat)
    requires Linked(tbl, d, repr) && Distinct(d) && i < |d| == tbl.Length && p < |d[i]| && e == d[i][p]
    requires prev == Previous(d[i], p)
    modifies tbl, repr
    ensures Linked(tbl, d', repr) && Distinct(d') && |d'| == |d| && p' <= |d'[i]|
    ensures prev' == Previous(d'[i], p')
    ensures Sift(d', i, p') == Sift(d, i, p) && |d'[i]| - p' < |d[i]| - p
  {
    hide Linked, Distinct, Sift, Push, TakeOut, Items;
    SiftOn(d, i, p);
    prev', d', p' := prev, d, p;
    var tindex := IndexFor(tbl.Length, e.h);
    if tindex == i {
      prev' := e;
      p' := p + 1;
    } else {
      d' := Relink(tbl, i, prev, e, tindex, d, p, repr);
    }
  }

  lemma SiftOn<K, V>(c: Chains<K, V>, i: nat, p: nat)
    requires i < |c| && p <= |c[i]|
    ensures Sift(c, i, p) ==
            if p == |c[i]| then c
            else
              var e := c[i][p];
              var t := IndexFor(|c|, e.h);
              if t == i then Sift(c, i, p + 1) else Sift(Push(TakeOut(c, i, p), t, e), i, p)
    ensures p < |c[i]| && IndexFor(|c|, c[i][p].h) != i ==>
              var d := Push(TakeOut(c, i, p), IndexFor(|c|, c[i][p].h), c[i][p]);
              |d[i]| == |c[i]| - 1 && Previous(d[i], p) == Previous(c[i], p)
  {
  }

  // Moves an entry from the middle of one chain to the front of another.
  method Relink<K, V>(tbl: array<Entry?<K, V>>, i: nat, prev: Entry?<K, V>, e: Entry<K, V>, tindex: nat,
                      ghost d: Chains<K, V>, ghost p: nat, ghost repr: set<Entry<K, V>>)
    returns (ghost d': Chains<K, V>)
    requires Linked(tbl, d, repr) && Distinct(d) && i < |d| && p < |d[i]| && e == d[i][p]
    requires prev == Previous(d[i], p)
    requires tindex < |d| && tindex != i
    modifies tbl, repr
    ensures d' == Push(TakeOut(d, i, p), tindex, e) && |d'| == |d|
    ensures Linked(tbl, d', repr) && Distinct(d')
  {
    TakenOutIsGone(d, i, p);
    PushedIsDistinct(TakeOut(d, i, p), tindex, e);
    hide Distinct;
    Unlink(tbl, i, prev, e, d, p, repr);
    PushHead(tbl, tindex, e, TakeOut(d, i, p), repr);
    d' := Push(TakeOut(d, i, p), tindex, e);
  }

  method SiftInPlace<K, V>(tbl: array<Entry?<K, V>>, oldLength: nat,
                           ghost c: Chains<K, V>, ghost repr: set<Entry<K, V>>)
    requires Linked(tbl, c, repr) && Distinct(c) && oldLength <= |c|
    modifies tbl, repr
    ensures Linked(tbl, SiftFrom(c, 0, oldLength), repr)
  {
    ghost var d := c;
    for i := 0 to oldLength
      invariant Linked(tbl, d, repr) && Distinct(d) && |d| == |c|
      invariant SiftFrom(d, i, oldLength) == SiftFrom(c, 0, oldLength)
    {
      SiftBucket(tbl, i, d, repr);
      d := Sift(d, i, 0);
    }
  }

  ghost function Rehashed<K, V>(c: Chains<K, V>, newSize: nat, newArray: bool): (d: Chains<K, V>)
    requires 0 < |c| <= newSize
    ensures |d| == newSize
  {
    if newArray then PlanA(c, newSize) else PlanB(c, newSize)
  }

  method Rehash<K, V>(tbl: array<Entry?<K, V>>, newSize: nat, newArray: bool,
                      ghost c: Chains<K, V>, ghost repr: set<Entry<K, V>>)
    returns (newTable: array<Entry?<K, V>>)
    requires Linked(tbl, c, repr) && Distinct(c) && 0 < tbl.Length <= newSize
    modifies tbl, repr
    ensures fresh(newTable) && newTable.Length == newSize
    ensures Linked(newTable, Rehashed(c, newSize, newArray), repr)
  {
    if newArray {
      newTable := MoveToNew(tbl, newSize, c, repr);
    } else {
      ItemsEmpty<K, V>(newSize - |c|);
      ItemsConcat(c, Empty(newSize - |c|));
      newTable := Enlarge(tbl, newSize, c, repr);
      SiftInPlace(newTable, tbl.Length, c + Empty(newSize - |c|), repr);
    }
  }

  // ---------- Looking up ----------

  predicate Matches<K, V>(e: Entry<K, V>, hashValue: nat, k: K, eqfn: (K, K) -> bool) {
    hashValue == e.h && eqfn(k, e.k)
  }

  /** The position of the first entry that matches, or the length of the chain. */
  function Find<K, V>(chain: seq<Entry<K, V>>, hashValue: nat, k: K, eqfn: (K, K) -> bool): (p: nat)
    ensures p <= |chain|
    ensures p < |chain| ==> chain[p].h == hashValue && eqfn(k, chain[p].k)
    ensures forall q :: 0 <= q < p ==> chain[q].h != hashValue || !eqfn(k, chain[q].k)
  {
    if chain == [] || Matches(chain[0], hashValue, k, eqfn) then 0
    else 1 + Find(chain[1..], hashValue, k, eqfn)
  }

  // The search has come to position `p` without a match before it.
  ghost predicate Searched<K, V>(chain: seq<Entry<K, V>>, p: nat, hashValue: nat, k: K, eqfn: (K, K) -> bool) {
    p <= |chain| && Find(chain, hashValue, k, eqfn) == p + Find(chain[p..], hashValue, k, eqfn)
  }

  lemma SearchOn<K, V>(chain: seq<Entry<K, V>>, p: nat, hashValue: nat, k: K, eqfn: (K, K) -> bool)
    requires Searched(chain, p, hashValue, k, eqfn)
    ensures if p == |chain| || Matches(chain[p], hashValue, k, eqfn) then Find(chain, hashValue, k, eqfn) == p
            else Searched(chain, p + 1, hashValue, k, eqfn)
  {
    if p < |chain| {
      assert chain[p..][1..] == chain[p + 1..];
    }
  }

  // ---------- The program ----------

  /** Which allocations an expansion gets: a new array, only a reallocation, or neither. */
  datatype Memory = NewArray | Realloc | Neither

  /** The chains after an attempt to expand. */
  ghost function Expanded<K, V>(c: Chains<K, V>, primeIndex: nat, memory: Memory): (d: Chains<K, V>)
    requires primeIndex < 26 && |c| == Prime(primeIndex)
    ensures |d| == if primeIndex == 25 || memory == Neither then |c| else Prime(primeIndex + 1)
  {
    if primeIndex == 25 then c
    else
      PrimesGrow(primeIndex);
      if memory == Neither then c else Rehashed(c, Prime(primeIndex + 1), memory == NewArray)
  }

  /** The fields of a table agree with each other and with its chains. */
  ghost predicate Consistent<K, V>(tableLength: nat, loadLimit: nat, primeIndex: nat, entryCount: nat,
                                   c: Chains<K, V>, hashfn: K -> nat)
  {
    && primeIndex < 26 && tableLength == |c| == Prime(primeIndex)
    && loadLimit == LoadLimit(tableLength)
    && Sound(c, hashfn)
    && |Items(c)| == entryCount
  }

  lemma GrownConsistent<K, V>(tableLength: nat, loadLimit: nat, primeIndex: nat, entryCount: nat,
                              c: Chains<K, V>, hashfn: K -> nat, memory: Memory)
    requires Consistent(tableLength, loadLimit, primeIndex, entryCount, c, hashfn)
    requires primeIndex < 25 && memory != Neither
    ensures var size := Prime(primeIndex + 1);
            && 0 < tableLength == |c| < size && Distinct(c)
            && Expanded(c, primeIndex, memory) == Rehashed(c, size, memory == NewArray)
            && Consistent(size, LoadLimit(size), primeIndex + 1, entryCount, Expanded(c, primeIndex, memory), hashfn)
  {
    PrimesGrow(primeIndex);
    ExpandedSound(c, primeIndex, memory, hashfn);
  }

  lemma AddedConsistent<K, V>(tableLength: nat, loadLimit: nat, primeIndex: nat, entryCount: nat,
                              c: Chains<K, V>, hashfn: K -> nat, e: Entry<K, V>)
    requires Consistent(tableLength, loadLimit, primeIndex, entryCount, c, hashfn)
    requires Absent(c, e) && e.h == hashfn(e.k)
    ensures tableLength == |c| > 0
    ensures Consistent(tableLength, loadLimit, primeIndex, entryCount + 1, Push(c, IndexFor(|c|, e.h), e), hashfn)
  {
    PushedSound(c, e, hashfn);
    ItemsPush(c, IndexFor(|c|, e.h), e);
  }

  lemma DroppedConsistent<K, V>(tableLength: nat, loadLimit: nat, primeIndex: nat, entryCount: nat,
                                c: Chains<K, V>, hashfn: K -> nat, i: nat, p: nat)
    requires Consistent(tableLength, loadLimit, primeIndex, entryCount, c, hashfn)
    requires i < |c| && p < |c[i]|
    ensures entryCount > 0 && Distinct(c)
    ensures Consistent(tableLength, loadLimit, primeIndex, entryCount - 1, TakeOut(c, i, p), hashfn)
  {
    TakenOutSound(c, i, p, hashfn);
    ItemsTakeOut(c, i, p);
  }

  class Table<K, V> {
    var tableLength: nat
    var table: array<Entry?<K, V>>
    var entryCount: nat
    var loadLimit: nat
    var primeIndex: nat
    const hashfn: K -> nat
    const eqfn: (K, K) -> bool

    ghost var chains: Chains<K, V>
    ghost var repr: set<Entry<K, V>>

    ghost predicate Valid()
      reads this, table, repr
    {
      && Consistent(tableLength, loadLimit, primeIndex, entryCount, chains, hashfn)
      && Linked(table, chains, repr)
    }

    // An empty table with the first prime length above `minSize`.
    constructor (minSize: nat, hashf: K -> nat, eqf: (K, K) -> bool)
      requires minSize <= 0x4000_0000
      ensures Valid() && fresh(table) && repr == {}
      ensures hashfn == hashf && eqfn == eqf
      ensures chains == Empty(tableLength) && entryCount == 0
      ensures tableLength > minSize && forall i :: 0 <= i < primeIndex ==> Prime(i) <= minSize
    {
      var pindex := 0;
      var size := Prime(0);
      assert Prime(25) == 1610612741;
      while pindex < 26
        invariant 0 <= pindex <= 26
        invariant forall i :: 0 <= i < pindex ==> Prime(i) <= minSize
      {
        if Prime(pindex) > minSize {
          size := Prime(pindex);
          break;
        }
        pindex := pindex + 1;
      }
      tableLength, primeIndex, entryCount, loadLimit := size, pindex, 0, LoadLimit(size);
      table := new Entry?<K, V>[size](_ => null);
      hashfn, eqfn := hashf, eqf;
      chains, repr := Empty(size), {};
      new;
      ItemsEmpty<K, V>(size);
    }

    /** A new table, or null: the size asked for is too large or there is no memory. */
    static method Create(minSize: nat, hashf: K -> nat, eqf: (K, K) -> bool, memory: bool) returns (t: Table?<K, V>)
      ensures t == null <==> minSize > 0x4000_0000 || !memory
      ensures t != null ==>
                && t.Valid() && fresh(t) && fresh(t.table) && t.repr == {}
                && t.hashfn == hashf && t.eqfn == eqf
                && t.chains == Empty(t.tableLength) && t.entryCount == 0
                && t.tableLength > minSize && forall i :: 0 <= i < t.primeIndex ==> Prime(i) <= minSize
    {
      if minSize > 0x4000_0000 || !memory {
        return null;
      }
      t := new Table(minSize, hashf, eqf);
    }

    method Expand(memory: Memory) returns (grew: bool)
      requires Valid()
      modifies this, table, repr
      ensures Valid() && (table == old(table) || fresh(table)) && repr == old(repr) && entryCount == old(entryCount)
      ensures chains == Expanded(old(chains), old(primeIndex), memory)
      ensures grew <==> old(primeIndex) < 25 && memory != Neither
      ensures primeIndex == if grew then old(primeIndex) + 1 else old(primeIndex)
    {
      if primeIndex == 25 || memory == Neither {
        return false;
      }
      hide Valid;
      Grow(memory);
      grew := true;
    }

    // Expansion to the next prime, by Plan A or by Plan B.
    method Grow(memory: Memory)
      requires Valid() && primeIndex < 25 && memory != Neither
      modifies this, table, repr
      ensures Valid() && fresh(table) && repr == old(repr) && entryCount == old(entryCount)
      ensures chains == Expanded(old(chains), old(primeIndex), memory)
      ensures primeIndex == old(primeIndex) + 1
    {
      hide Prime, Consistent, Linked, Expanded, Rehashed, Distinct, Valid;
      Opened();
      ghost var was := chains;
      GrownConsistent(tableLength, loadLimit, primeIndex, entryCount, was, hashfn, memory);
      LinkedLength(table, was, repr);
      ghost var d := Expanded(was, primeIndex, memory);
      var newSize := Prime(primeIndex + 1);
      var newTable := Rehash(table, newSize, memory == NewArray, was, repr);
      Install(newTable, newSize, d);
    }

    // The new array, its length, the limit and the number of its prime.
    method Install(newTable: array<Entry?<K, V>>, newSize: nat, ghost d: Chains<K, V>)
      requires Linked(newTable, d, repr)
      requires Consistent(newSize, LoadLimit(newSize), primeIndex + 1, entryCount, d, hashfn)
      modifies this`table, this`chains, this`tableLength, this`loadLimit, this`primeIndex
      ensures Valid() && table == newTable && chains == d && primeIndex == old(primeIndex) + 1
    {
      hide Linked, Consistent;
      table, chains, tableLength, loadLimit, primeIndex := newTable, d, newSize, LoadLimit(newSize), primeIndex + 1;
    }

    /** The number of entries. */
    function Count(): (n: nat)
      reads this, table, repr
      requires Valid()
      ensures n == |Items(chains)|
    {
      entryCount
    }

    /** The value of the first entry for the key, or None. */
    method Search(k: K) returns (r: Option<V>)
      requires Valid()
      ensures r == Lookup(chains, hashfn(k), k, eqfn)
    {
      var hashValue := hashfn(k);
      var tindex := IndexFor(tableLength, hashValue);
      ghost var p := 0;
      ghost var chain := chains[tindex];
      HeadOfChain(table, chains, tindex, repr);
      var e := table[tindex];
      assert Searched(chain, 0, hashValue, k, eqfn) by { assert chain[0..] == chain; }
      hide Searched, Find, Linked, Consistent;
      while e != null
        invariant p <= |chain| && e == Current(chain, p) && Searched(chain, p, hashValue, k, eqfn)
        decreases |chain| - p
      {
        SearchOn(chain, p, hashValue, k, eqfn);
        if hashValue == e.h && eqfn(k, e.k) {
          return Some(e.v);
        }
        NextInChain(table, chains, tindex, p, repr);
        e := e.next;
        p := p + 1;
      }
      SearchOn(chain, p, hashValue, k, eqfn);
      r := None;
    }

    /** Adds an entry, without looking for one with an equal key; `added` is that entry. */
    method Insert(k: K, v: V, memory: Memory, entryMemory: bool) returns (ok: bool, ghost added: Entry?<K, V>)
      requires Valid()
      modifies this, table, repr
      ensures Valid() && (table == old(table) || fresh(table))
      ensures Inserted(old(chains), old(primeIndex), k, v, hashfn, memory, added, chains, primeIndex)
      ensures ok <==> added != null
      ensures ok <==> entryMemory
      ensures added != null ==> fresh(added)
    {
      added := null;
      assert primeIndex < 26 && |chains| == Prime(primeIndex);
      hide Valid, Grown, GrownIndex, Due, Added;
      MakeRoom(memory);
      if !entryMemory {
        return false, null;
      }
      var e := Add(k, v);
      return true, e;
    }

    // The first half of an insertion: a failure to expand is ignored.
    method MakeRoom(memory: Memory)
      requires Valid()
      modifies this, table, repr
      ensures Valid() && (table == old(table) || fresh(table)) && repr == old(repr)
      ensures chains == Grown(old(chains), old(primeIndex), memory)
      ensures primeIndex == GrownIndex(old(chains), old(primeIndex), memory)
    {
      DueByCount(tableLength, loadLimit, primeIndex, entryCount, chains, hashfn);
      hide Valid, Expanded, Due;
      if entryCount + 1 > loadLimit {
        var grew := Expand(memory);
      }
    }

    // The second half of an insertion: the new entry goes to the front of its bucket.
    method Add(k: K, v: V) returns (e: Entry<K, V>)
      requires Valid()
      modifies this, table
      ensures Valid() && table == old(table) && fresh(e) && primeIndex == old(primeIndex)
      ensures e.k == k && e.v == v && e.h == hashfn(k)
      ensures Added(old(chains), e, chains)
    {
      hide Valid, Consistent, Linked, Absent, Push;
      var h := hashfn(k);
      e := Allocate(k, v, h);
      ghost var was := chains;
      AddedConsistent(tableLength, loadLimit, primeIndex, entryCount, was, hashfn, e);
      var tindex := IndexFor(tableLength, h);
      PushHead(table, tindex, e, was, repr);
      Record(Push(was, tindex, e), entryCount + 1);
    }

    lemma Opened()
      requires Valid()
      ensures Consistent(tableLength, loadLimit, primeIndex, entryCount, chains, hashfn) && Linked(table, chains, repr)
    {
    }

    // A new entry, in no chain yet.
    method Allocate(k: K, v: V, h: nat) returns (e: Entry<K, V>)
      requires Valid()
      modifies this`repr
      ensures fresh(e) && e.k == k && e.v == v && e.h == h
      ensures Consistent(tableLength, loadLimit, primeIndex, entryCount, chains, hashfn)
      ensures Linked(table, chains, repr) && Absent(chains, e) && e in repr
    {
      e := new Entry(k, v, h, null);
      hide Consistent, Linked, Absent;
      ForeignIsAbsent(table, chains, repr, e);
      repr := repr + {e};
    }

    // Notes that the array and the entries now spell out the chains `d`.
    method Record(ghost d: Chains<K, V>, count: nat)
      requires Linked(table, d, repr) && Consistent(tableLength, loadLimit, primeIndex, count, d, hashfn)
      modifies this`chains, this`entryCount
      ensures Valid() && chains == d && entryCount == count
    {
      hide Linked, Consistent;
      chains, entryCount := d, count;
    }

    /** Takes out the first entry for the key and returns its value, or None. */
    method Remove(k: K) returns (r: Option<V>)
      requires Valid()
      modifies this, table, repr
      ensures Valid() && table == old(table) && repr == old(repr) && primeIndex == old(primeIndex)
      ensures r == Lookup(old(chains), hashfn(k), k, eqfn)
      ensures chains == Removed(old(chains), hashfn(k), k, eqfn)
    {
      var e, prev, tindex;
      ghost var p;
      tindex, prev, e, p := Locate(k);
      hide Valid, Find;
      if e == null {
        return None;
      }
      r := Some(e.v);
      Drop(tindex, prev, e, p);
    }

    // The loop of a removal: the first entry for the key, if there is one, and the entry before it.
    method Locate(k: K) returns (tindex: nat, prev: Entry?<K, V>, e: Entry?<K, V>, ghost p: nat)
      requires Valid()
      ensures |chains| > 0 && tindex == IndexFor(|chains|, hashfn(k)) && p == Find(chains[tindex], hashfn(k), k, eqfn)
      ensures e == Current(chains[tindex], p) && prev == Previous(chains[tindex], p)
    {
      var hashValue := hashfn(k);
      tindex := IndexFor(tableLength, hashValue);
      p, prev := 0, null;
      ghost var chain := chains[tindex];
      HeadOfChain(table, chains, tindex, repr);
      e := table[tindex];
      assert Searched(chain, 0, hashValue, k, eqfn) by { assert chain[0..] == chain; }
      hide Searched, Find, Linked, Consistent;
      while e != null
        invariant p <= |chain| && e == Current(chain, p) && prev == Previous(chain, p)
        invariant Searched(chain, p, hashValue, k, eqfn)
        decreases |chain| - p
      {
        SearchOn(chain, p, hashValue, k, eqfn);
        if hashValue == e.h && eqfn(k, e.k) {
          return;
        }
        NextInChain(table, chains, tindex, p, repr);
        prev := e;
        e := e.next;
        p := p + 1;
      }
      SearchOn(chain, p, hashValue, k, eqfn);
    }

    // Unlinks the entry at position `p` of a bucket.
    method Drop(tindex: nat, prev: Entry?<K, V>, e: Entry<K, V>, ghost p: nat)
      requires Valid() && tindex < |chains| && p < |chains[tindex]|
      requires e == chains[tindex][p] && prev == Previous(chains[tindex], p)
      modifies this, table, repr
      ensures Valid() && table == old(table) && repr == old(repr) && primeIndex == old(primeIndex)
      ensures chains == TakeOut(old(chains), tindex, p)
    {
      ghost var was := chains;
      hide Consistent, Distinct, Linked, Valid, TakeOut;
      Opened();
      DroppedConsistent(tableLength, loadLimit, primeIndex, entryCount, was, hashfn, tindex, p);
      PreviousInRepr(table, was, tindex, p, repr);
      Unlink(table, tindex, prev, e, was, p, repr);
      Record(TakeOut(was, tindex, p), entryCount - 1);
    }
  }

  lemma DueByCount<K, V>(tableLength: nat, loadLimit: nat, primeIndex: nat, entryCount: nat,
                         c: Chains<K, V>, hashfn: K -> nat)
    requires Consistent(tableLength, loadLimit, primeIndex, entryCount, c, hashfn)
    ensures primeIndex < 26 && |c| == Prime(primeIndex)
    ensures entryCount + 1 > loadLimit <==> Due(c)
  {
  }

  /** An expansion is due before an insertion. */
  ghost predicate Due<K, V>(c: Chains<K, V>) {
    |Items(c)| + 1 > LoadLimit(|c|)
  }

  /** The table after the expansion an insertion may start with. */
  ghost function Grown<K, V>(c: Chains<K, V>, primeIndex: nat, memory: Memory): Chains<K, V>
    requires primeIndex < 26 && |c| == Prime(primeIndex)
  {
    if Due(c) then Expanded(c, primeIndex, memory) else c
  }

  ghost function GrownIndex<K, V>(c: Chains<K, V>, primeIndex: nat, memory: Memory): nat {
    if Due(c) && primeIndex < 25 && memory != Neither then primeIndex + 1 else primeIndex
  }

  /** What an insertion does: perhaps an expansion, then, if there is memory, one new entry. */
  ghost predicate Inserted<K, V>(c: Chains<K, V>, primeIndex: nat, k: K, v: V, hashfn: K -> nat, memory: Memory,
                                 added: Entry?<K, V>, d: Chains<K, V>, primeIndex': nat)
  {
    && primeIndex < 26 && |c| == Prime(primeIndex)
    && primeIndex' == GrownIndex(c, primeIndex, memory)
    && if added == null then d == Grown(c, primeIndex, memory)
       else Added(Grown(c, primeIndex, memory), added, d) && added.k == k && added.v == v && added.h == hashfn(k)
  }

  /** A new entry goes to the front of its bucket. */
  ghost predicate Added<K, V>(c: Chains<K, V>, e: Entry<K, V>, d: Chains<K, V>) {
    |c| > 0 && Absent(c, e) && d == Push(c, IndexFor(|c|, e.h), e)
  }

  ghost function Removed<K, V>(c: Chains<K, V>, hashValue: nat, k: K, eqfn: (K, K) -> bool): Chains<K, V>
    requires |c| > 0
  {
    var i := IndexFor(|c|, hashValue);
    var p := Find(c[i], hashValue, k, eqfn);
    if p < |c[i]| then TakeOut(c, i, p) else c
  }

  lemma PushedSound<K, V>(c: Chains<K, V>, e: Entry<K, V>, hashfn: K -> nat)
    requires |c| > 0 && Sound(c, hashfn) && Absent(c, e) && e.h == hashfn(e.k)
    ensures Sound(Push(c, IndexFor(|c|, e.h), e), hashfn)
  {
    var i := IndexFor(|c|, e.h);
    var d: Chains<K, V> := Push(c, i, e);
    PushedIsDistinct(c, i, e);
    PlacedPush(c, e);
    forall j, p | 0 <= j < |d| && 0 <= p < |d[j]|
      ensures d[j][p].h == hashfn(d[j][p].k)
    {
      assert d[j][p] == if j == i then (if p == 0 then e else c[i][p - 1]) else c[j][p];
    }
  }

  lemma TakenOutSound<K, V>(c: Chains<K, V>, i: nat, p: nat, hashfn: K -> nat)
    requires i < |c| && p < |c[i]| && Sound(c, hashfn)
    ensures Sound(TakeOut(c, i, p), hashfn)
  {
    var d := TakeOut(c, i, p);
    TakenOutIsGone(c, i, p);
    forall j, q | 0 <= j < |d| && 0 <= q < |d[j]|
      ensures InBucket(d[j][q], j, |d|) && d[j][q].h == hashfn(d[j][q].k)
    {
      var q' := if j == i && q >= p then q + 1 else q;
      assert d[j][q] == c[j][q'] && InBucket(c[j][q'], j, |c|);
    }
  }

  ghost function Lookup<K, V>(c: Chains<K, V>, hashValue: nat, k: K, eqfn: (K, K) -> bool): Option<V>
    requires |c| > 0
  {
    var chain := c[IndexFor(|c|, hashValue)];
    var p := Find(chain, hashValue, k, eqfn);
    if p < |chain| then Some(chain[p].v) else None
  }

  // Rehashing keeps a table sound.
  lemma ExpandedSound<K, V>(c: Chains<K, V>, primeIndex: nat, memory: Memory, hashfn: K -> nat)
    requires primeIndex < 26 && |c| == Prime(primeIndex) && Sound(c, hashfn)
    ensures Sound(Expanded(c, primeIndex, memory), hashfn)
    ensures Items(Expanded(c, primeIndex, memory)) == Items(c)
  {
    if primeIndex < 25 {
      PrimesGrow(primeIndex);
      RehashKeepsItems(c, Prime(primeIndex + 1));
      RehashPlaces(c, Prime(primeIndex + 1));
      SameItemsHashed(c, Expanded(c, primeIndex, memory), hashfn);
    }
  }

  lemma SameItemsHashed<K, V>(c: Chains<K, V>, d: Chains<K, V>, hashfn: K -> nat)
    requires Items(c) == Items(d) && Sound(c, hashfn)
    ensures Distinct(d)
    ensures forall i, p :: 0 <= i < |d| && 0 <= p < |d[i]| ==> d[i][p].h == hashfn(d[i][p].k)
  {
    forall i, p | 0 <= i < |d| && 0 <= p < |d[i]|
      ensures d[i][p].h == hashfn(d[i][p].k)
    {
      ItemsMember(d, i, p);
      var j, q := FindItem(c, d[i][p]);
    }
  }

  /** Every entry once, in its bucket, with the hash of its key. */
  ghost predicate Sound<K, V>(c: Chains<K, V>, hashfn: K -> nat) {
    && Distinct(c) && Placed(c)
    && forall i, p :: 0 <= i < |c| && 0 <= p < |c[i]| ==> c[i][p].h == hashfn(c[i][p].k)
  }
}
