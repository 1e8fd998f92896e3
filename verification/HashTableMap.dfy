/**
 What the hash table is for: over any run, with any number of expansions of either kind and any failed
 allocations, it answers as a finite map does.

 Assumed of the caller, as the library asks: `eqfn` is an equivalence that `hashfn` respects, and an
 equal key is removed before a key is inserted.
 */
module HashTableMap {
  import opened Basics
  import opened HashChains
  import opened HashTable

  ghost predicate Congruent<K(!new)>(hashfn: K -> nat, eqfn: (K, K) -> bool) {
    && (forall a :: eqfn(a, a))
    && (forall a, b :: eqfn(a, b) ==> eqfn(b, a))
    && (forall a, b, c :: eqfn(a, b) && eqfn(b, c) ==> eqfn(a, c))
    && (forall a, b :: eqfn(a, b) ==> hashfn(a) == hashfn(b))
  }

  ghost predicate UniqueKeys<K, V>(c: Chains<K, V>, eqfn: (K, K) -> bool) {
    forall e, f :: e in Items(c) && f in Items(c) && eqfn(e.k, f.k) ==> e == f
  }

  ghost predicate Holds<K, V>(c: Chains<K, V>, k: K, eqfn: (K, K) -> bool) {
    exists e :: e in Items(c) && eqfn(k, e.k)
  }

  // ---------- A search finds an entry exactly when the table holds one ----------

  lemma LookupFinds<K(!new), V>(c: Chains<K, V>, hashfn: K -> nat, eqfn: (K, K) -> bool, k: K, e: Entry<K, V>)
    requires |c| > 0 && Sound(c, hashfn) && Congruent(hashfn, eqfn) && UniqueKeys(c, eqfn)
    requires e in Items(c) && eqfn(k, e.k)
    ensures Lookup(c, hashfn(k), k, eqfn) == Some(e.v)
    ensures var i := IndexFor(|c|, hashfn(k));
            var p := Find(c[i], hashfn(k), k, eqfn);
            p < |c[i]| && c[i][p] == e
  {
    var i, q := FindItem(c, e);
    assert InBucket(c[i][q], i, |c|);
    assert Matches(c[i][q], hashfn(k), k, eqfn);
    var p := Find(c[i], hashfn(k), k, eqfn);
    assert p <= q;
    ItemsMember(c, i, p);
  }

  lemma LookupMisses<K, V>(c: Chains<K, V>, hashfn: K -> nat, eqfn: (K, K) -> bool, k: K)
    requires |c| > 0 && !Holds(c, k, eqfn)
    ensures Lookup(c, hashfn(k), k, eqfn) == None
    ensures Removed(c, hashfn(k), k, eqfn) == c
  {
    var i := IndexFor(|c|, hashfn(k));
    var p := Find(c[i], hashfn(k), k, eqfn);
    if p < |c[i]| {
      ItemsMember(c, i, p);
    }
  }

  // The answers depend on the entries only, not on where they are.
  lemma SameAnswers<K(!new), V>(c: Chains<K, V>, d: Chains<K, V>, hashfn: K -> nat, eqfn: (K, K) -> bool, k: K)
    requires |c| > 0 && |d| > 0 && Sound(c, hashfn) && Sound(d, hashfn)
    requires Congruent(hashfn, eqfn) && UniqueKeys(c, eqfn) && Items(c) == Items(d)
    ensures Lookup(d, hashfn(k), k, eqfn) == Lookup(c, hashfn(k), k, eqfn)
  {
    if Holds(c, k, eqfn) {
      var e :| e in Items(c) && eqfn(k, e.k);
      LookupFinds(c, hashfn, eqfn, k, e);
      LookupFinds(d, hashfn, eqfn, k, e);
    } else {
      LookupMisses(c, hashfn, eqfn, k);
      LookupMisses(d, hashfn, eqfn, k);
    }
  }

  // ---------- What the operations do to the answers ----------

  lemma StillUnique<K(!new), V>(c: Chains<K, V>, d: Chains<K, V>, e: Entry<K, V>,
                                hashfn: K -> nat, eqfn: (K, K) -> bool)
    requires Items(d) == Items(c) + multiset{e} && Congruent(hashfn, eqfn) && UniqueKeys(c, eqfn)
    requires !Holds(c, e.k, eqfn)
    ensures UniqueKeys(d, eqfn)
  {
    hide Items;
  }

  lemma AddedAnswers<K(!new), V>(c: Chains<K, V>, e: Entry<K, V>, hashfn: K -> nat, eqfn: (K, K) -> bool, k: K)
    requires |c| > 0 && Sound(c, hashfn) && Congruent(hashfn, eqfn) && UniqueKeys(c, eqfn)
    requires Absent(c, e) && e.h == hashfn(e.k) && !Holds(c, e.k, eqfn)
    ensures var d := Push(c, IndexFor(|c|, e.h), e);
            && Sound(d, hashfn) && UniqueKeys(d, eqfn) && Items(d) == Items(c) + multiset{e}
            && Lookup(d, hashfn(k), k, eqfn) == if eqfn(e.k, k) then Some(e.v) else Lookup(c, hashfn(k), k, eqfn)
  {
    var d := Push(c, IndexFor(|c|, e.h), e);
    PushedSound(c, e, hashfn);
    ItemsPush(c, IndexFor(|c|, e.h), e);
    StillUnique(c, d, e, hashfn, eqfn);
    hide Sound, Lookup, Push, IndexFor, Items, UniqueKeys, Absent;
    if eqfn(e.k, k) {
      LookupFinds(d, hashfn, eqfn, k, e);
    } else if Holds(c, k, eqfn) {
      var f :| f in Items(c) && eqfn(k, f.k);
      LookupFinds(c, hashfn, eqfn, k, f);
      LookupFinds(d, hashfn, eqfn, k, f);
    } else {
      LookupMisses(c, hashfn, eqfn, k);
      LookupMisses(d, hashfn, eqfn, k);
    }
  }

  // What is left when the entry for `gone` has been taken out.
  lemma AnswersWithout<K(!new), V>(c: Chains<K, V>, d: Chains<K, V>, e: Entry<K, V>, gone: K,
                                   hashfn: K -> nat, eqfn: (K, K) -> bool, k: K)
    requires |c| > 0 && |d| > 0 && Sound(c, hashfn) && Sound(d, hashfn) && Congruent(hashfn, eqfn)
    requires UniqueKeys(c, eqfn) && UniqueKeys(d, eqfn)
    requires Items(c) == Items(d) + multiset{e} && e !in Items(d) && eqfn(gone, e.k)
    ensures Lookup(d, hashfn(k), k, eqfn) == if eqfn(gone, k) then None else Lookup(c, hashfn(k), k, eqfn)
  {
    hide Sound, Lookup;
    if Holds(d, k, eqfn) {
      var f :| f in Items(d) && eqfn(k, f.k);
      LookupFinds(c, hashfn, eqfn, k, f);
      LookupFinds(d, hashfn, eqfn, k, f);
    } else {
      LookupMisses(d, hashfn, eqfn, k);
      if !eqfn(gone, k) {
        assert !eqfn(k, e.k);
        LookupMisses(c, hashfn, eqfn, k);
      }
    }
  }

  lemma TakenOutUnique<K, V>(c: Chains<K, V>, i: nat, p: nat, hashfn: K -> nat, eqfn: (K, K) -> bool)
    requires i < |c| && p < |c[i]| && Sound(c, hashfn) && UniqueKeys(c, eqfn)
    ensures var d := TakeOut(c, i, p);
            && Sound(d, hashfn) && UniqueKeys(d, eqfn)
            && Items(c) == Items(d) + multiset{c[i][p]} && c[i][p] !in Items(d)
  {
    TakenOutSound(c, i, p, hashfn);
    ItemsTakeOut(c, i, p);
    ItemsMember(c, i, p);
    assert Items(c)[c[i][p]] == 1;
  }

  lemma RemovedAnswers<K(!new), V>(c: Chains<K, V>, gone: K, hashfn: K -> nat, eqfn: (K, K) -> bool, k: K)
    requires |c| > 0 && Sound(c, hashfn) && Congruent(hashfn, eqfn) && UniqueKeys(c, eqfn)
    ensures var d := Removed(c, hashfn(gone), gone, eqfn);
            && |d| == |c| && Sound(d, hashfn) && UniqueKeys(d, eqfn)
            && |Items(d)| == |Items(c)| - (if Lookup(c, hashfn(gone), gone, eqfn) == None then 0 else 1)
            && Lookup(d, hashfn(k), k, eqfn) == if eqfn(gone, k) then None else Lookup(c, hashfn(k), k, eqfn)
  {
    hide Sound;
    if Holds(c, gone, eqfn) {
      var e :| e in Items(c) && eqfn(gone, e.k);
      LookupFinds(c, hashfn, eqfn, gone, e);
      hide Items, UniqueKeys, Congruent, Find;
      var i := IndexFor(|c|, hashfn(gone));
      var p := Find(c[i], hashfn(gone), gone, eqfn);
      TakenOutUnique(c, i, p, hashfn, eqfn);
      AnswersWithout(c, TakeOut(c, i, p), e, gone, hashfn, eqfn, k);
    } else {
      LookupMisses(c, hashfn, eqfn, gone);
      if eqfn(gone, k) {
        LookupMisses(c, hashfn, eqfn, k);
      }
    }
  }

  // ---------- Runs ----------

  /** A call, with how its allocations went; `added` is the entry an insertion made, if it made one. */
  datatype Call<K, V> = Insert(k: K, v: V, memory: Memory, added: Entry?<K, V>) | Search(k: K) | Remove(k: K)

  datatype State<K, V> = State(c: Chains<K, V>, primeIndex: nat)

  /** What the contracts of `Table.Insert`, `Table.Search` and `Table.Remove` say of the table. */
  ghost predicate Step<K, V>(s: State<K, V>, call: Call<K, V>, t: State<K, V>, hashfn: K -> nat, eqfn: (K, K) -> bool)
    requires |s.c| > 0
  {
    match call
    case Insert(k, v, memory, added) => Inserted(s.c, s.primeIndex, k, v, hashfn, memory, added, t.c, t.primeIndex)
    case Search(k) => t == s
    case Remove(k) => t == State(Removed(s.c, hashfn(k), k, eqfn), s.primeIndex)
  }

  /** The map: the value a key has after the calls, None for a key it does not hold. */
  ghost function After<K, V>(calls: seq<Call<K, V>>, k: K, eqfn: (K, K) -> bool): Option<V> {
    if calls == [] then None
    else
      var before := After(calls[..|calls| - 1], k, eqfn);
      match calls[|calls| - 1]
      case Insert(k', v, _, added) => if added != null && eqfn(k', k) then Some(v) else before
      case Search(_) => before
      case Remove(k') => if eqfn(k', k) then None else before
  }

  /** The number of keys the map holds after the calls. */
  ghost function Size<K, V>(calls: seq<Call<K, V>>, eqfn: (K, K) -> bool): int {
    if calls == [] then 0
    else
      var first, last := calls[..|calls| - 1], calls[|calls| - 1];
      Size(first, eqfn) +
      match last
      case Insert(_, _, _, added) => if added == null then 0 else 1
      case Search(_) => 0
      case Remove(k) => if After(first, k, eqfn) == None then 0 else -1
  }

  /** Every key inserted is one the map does not hold at that moment. */
  ghost predicate RemovedBeforeInserted<K, V>(calls: seq<Call<K, V>>, eqfn: (K, K) -> bool) {
    forall i :: 0 <= i < |calls| && calls[i].Insert? && calls[i].added != null ==>
      After(calls[..i], calls[i].k, eqfn) == None
  }

  ghost predicate Run<K, V>(calls: seq<Call<K, V>>, states: seq<State<K, V>>, hashfn: K -> nat, eqfn: (K, K) -> bool) {
    && |states| == |calls| + 1
    && states[0].primeIndex < 26 && states[0].c == Empty(Prime(states[0].primeIndex))
    && forall i :: 0 <= i < |calls| ==> |states[i].c| > 0 && Step(states[i], calls[i], states[i + 1], hashfn, eqfn)
  }

  /** The table is the map. */
  ghost predicate Refines<K(!new), V>(s: State<K, V>, calls: seq<Call<K, V>>, hashfn: K -> nat, eqfn: (K, K) -> bool) {
    && s.primeIndex < 26 && |s.c| == Prime(s.primeIndex) > 0
    && Sound(s.c, hashfn) && UniqueKeys(s.c, eqfn)
    && |Items(s.c)| == Size(calls, eqfn)
    && forall k :: Lookup(s.c, hashfn(k), k, eqfn) == After(calls, k, eqfn)
  }

  lemma GrownTable<K, V>(c: Chains<K, V>, primeIndex: nat, memory: Memory, hashfn: K -> nat, eqfn: (K, K) -> bool)
    requires primeIndex < 26 && |c| == Prime(primeIndex) && Sound(c, hashfn) && UniqueKeys(c, eqfn)
    ensures GrownIndex(c, primeIndex, memory) < 26
    ensures |Grown(c, primeIndex, memory)| == Prime(GrownIndex(c, primeIndex, memory)) > 0
    ensures Sound(Grown(c, primeIndex, memory), hashfn) && Items(Grown(c, primeIndex, memory)) == Items(c)
    ensures UniqueKeys(Grown(c, primeIndex, memory), eqfn)
  {
    if primeIndex < 25 {
      PrimesGrow(primeIndex);
    }
    ExpandedSound(c, primeIndex, memory, hashfn);
    hide Sound, Items, Rehashed;
  }

  // Growing the table does not change what it means.
  lemma GrownRefines<K(!new), V>(s: State<K, V>, calls: seq<Call<K, V>>, memory: Memory,
                                 hashfn: K -> nat, eqfn: (K, K) -> bool)
    requires Refines(s, calls, hashfn, eqfn) && Congruent(hashfn, eqfn)
    ensures Refines(State(Grown(s.c, s.primeIndex, memory), GrownIndex(s.c, s.primeIndex, memory)), calls, hashfn, eqfn)
  {
    GrownTable(s.c, s.primeIndex, memory, hashfn, eqfn);
    hide Sound, Lookup, Grown, GrownIndex, Items, After, Size, Congruent, Prime, UniqueKeys;
    var grown: Chains<K, V> := Grown(s.c, s.primeIndex, memory);
    forall k
      ensures Lookup(grown, hashfn(k), k, eqfn) == After(calls, k, eqfn)
    {
      SameAnswers(s.c, grown, hashfn, eqfn, k);
    }
  }

  lemma NotHeld<K(!new), V>(c: Chains<K, V>, k: K, hashfn: K -> nat, eqfn: (K, K) -> bool)
    requires |c| > 0 && Sound(c, hashfn) && Congruent(hashfn, eqfn) && UniqueKeys(c, eqfn)
    requires Lookup(c, hashfn(k), k, eqfn) == None
    ensures !Holds(c, k, eqfn)
  {
    hide Sound, Lookup, UniqueKeys, Congruent;
    if f :| f in Items(c) && eqfn(k, f.k) {
      LookupFinds(c, hashfn, eqfn, k, f);
    }
  }

  lemma RefinesAt<K(!new), V>(s: State<K, V>, calls: seq<Call<K, V>>, hashfn: K -> nat, eqfn: (K, K) -> bool, k: K)
    requires Refines(s, calls, hashfn, eqfn)
    ensures s.primeIndex < 26 && |s.c| == Prime(s.primeIndex) > 0 && Sound(s.c, hashfn) && UniqueKeys(s.c, eqfn)
    ensures |Items(s.c)| == Size(calls, eqfn) && Lookup(s.c, hashfn(k), k, eqfn) == After(calls, k, eqfn)
  {
  }

  lemma AfterAdded<K(!new), V>(calls: seq<Call<K, V>>, call: Call<K, V>, eqfn: (K, K) -> bool)
    requires call.Insert? && call.added != null
    ensures Size(calls + [call], eqfn) == Size(calls, eqfn) + 1
    ensures forall k :: After(calls + [call], k, eqfn) ==
                        if eqfn(call.k, k) then Some(call.v) else After(calls, k, eqfn)
  {
    assert (calls + [call])[..|calls|] == calls;
  }

  // The table with one entry more, apart from what it answers.
  lemma AddedTable<K(!new), V>(c: Chains<K, V>, e: Entry<K, V>, d: Chains<K, V>, hashfn: K -> nat, eqfn: (K, K) -> bool)
    requires Added(c, e, d) && e.h == hashfn(e.k)
    requires Sound(c, hashfn) && UniqueKeys(c, eqfn) && Congruent(hashfn, eqfn) && !Holds(c, e.k, eqfn)
    ensures |d| == |c| > 0 && Sound(d, hashfn) && UniqueKeys(d, eqfn) && |Items(d)| == |Items(c)| + 1
    ensures forall k :: Lookup(d, hashfn(k), k, eqfn) ==
                        if eqfn(e.k, k) then Some(e.v) else Lookup(c, hashfn(k), k, eqfn)
  {
    hide Sound, Lookup, UniqueKeys, Congruent, Holds, IndexFor;
    forall k
      ensures && Sound(d, hashfn) && UniqueKeys(d, eqfn) && Items(d) == Items(c) + multiset{e}
              && Lookup(d, hashfn(k), k, eqfn) ==
                 if eqfn(e.k, k) then Some(e.v) else Lookup(c, hashfn(k), k, eqfn)
    {
      AddedAnswers(c, e, hashfn, eqfn, k);
    }
    AddedAnswers(c, e, hashfn, eqfn, e.k);
  }

  lemma AddedRefines<K(!new), V>(s: State<K, V>, calls: seq<Call<K, V>>, call: Call<K, V>, t: State<K, V>,
                                 hashfn: K -> nat, eqfn: (K, K) -> bool)
    requires Refines(s, calls, hashfn, eqfn) && Congruent(hashfn, eqfn)
    requires call.Insert? && call.added != null && After(calls, call.k, eqfn) == None
    requires Added(s.c, call.added, t.c) && t.primeIndex == s.primeIndex
    requires call.added.k == call.k && call.added.v == call.v && call.added.h == hashfn(call.k)
    ensures Refines(t, calls + [call], hashfn, eqfn)
  {
    hide Sound, Lookup, UniqueKeys, Congruent, Holds, IndexFor, Prime, Items, Size, After, Added;
    var e: Entry<K, V> := call.added;
    RefinesAt(s, calls, hashfn, eqfn, e.k);
    NotHeld(s.c, e.k, hashfn, eqfn);
    AddedTable(s.c, e, t.c, hashfn, eqfn);
    AfterAdded(calls, call, eqfn);
  }

  lemma InsertRefines<K(!new), V>(s: State<K, V>, calls: seq<Call<K, V>>, call: Call<K, V>, t: State<K, V>,
                                  hashfn: K -> nat, eqfn: (K, K) -> bool)
    requires Refines(s, calls, hashfn, eqfn) && Congruent(hashfn, eqfn)
    requires call.Insert? && (call.added != null ==> After(calls, call.k, eqfn) == None)
    requires Step(s, call, t, hashfn, eqfn)
    ensures Refines(t, calls + [call], hashfn, eqfn)
  {
    var u: State<K, V> := State(Grown(s.c, s.primeIndex, call.memory), GrownIndex(s.c, s.primeIndex, call.memory));
    GrownRefines(s, calls, call.memory, hashfn, eqfn);
    if call.added == null {
      NoChange(calls, call, eqfn);
    } else {
      hide Refines;
      AddedRefines(u, calls, call, t, hashfn, eqfn);
    }
  }

  lemma NoChange<K(!new), V>(calls: seq<Call<K, V>>, call: Call<K, V>, eqfn: (K, K) -> bool)
    requires call.Search? || (call.Insert? && call.added == null)
    ensures Size(calls + [call], eqfn) == Size(calls, eqfn)
    ensures forall k :: After(calls + [call], k, eqfn) == After(calls, k, eqfn)
  {
    assert (calls + [call])[..|calls|] == calls;
  }

  lemma RemoveRefines<K(!new), V>(s: State<K, V>, calls: seq<Call<K, V>>, call: Call<K, V>, t: State<K, V>,
                                  hashfn: K -> nat, eqfn: (K, K) -> bool)
    requires Refines(s, calls, hashfn, eqfn) && Congruent(hashfn, eqfn)
    requires call.Remove? && Step(s, call, t, hashfn, eqfn)
    ensures Refines(t, calls + [call], hashfn, eqfn)
  {
    assert (calls + [call])[..|calls|] == calls;
    RemovedAnswers(s.c, call.k, hashfn, eqfn, call.k);
    forall k
      ensures Lookup(t.c, hashfn(k), k, eqfn) == After(calls + [call], k, eqfn)
    {
      RemovedAnswers(s.c, call.k, hashfn, eqfn, k);
    }
  }

  lemma StartRefines<K(!new), V>(calls: seq<Call<K, V>>, states: seq<State<K, V>>,
                                 hashfn: K -> nat, eqfn: (K, K) -> bool)
    requires Run(calls, states, hashfn, eqfn)
    ensures |states| == |calls| + 1 && calls[..0] == [] && Refines(states[0], calls[..0], hashfn, eqfn)
  {
    hide Refines, Step, Prime;
    EmptyRefines(states[0], hashfn, eqfn);
  }

  /** Over every run the table refines the map. */
  lemma {:induction false} RunRefinesMap<K(!new), V>(calls: seq<Call<K, V>>, states: seq<State<K, V>>,
                                                     hashfn: K -> nat, eqfn: (K, K) -> bool, i: nat)
    requires Run(calls, states, hashfn, eqfn) && Congruent(hashfn, eqfn) && RemovedBeforeInserted(calls, eqfn)
    requires i <= |calls|
    ensures Refines(states[i], calls[..i], hashfn, eqfn)
  {
    hide *;
    if i == 0 {
      StartRefines(calls, states, hashfn, eqfn);
    } else {
      RunRefinesMap(calls, states, hashfn, eqfn, i - 1);
      CallAt(calls, states, hashfn, eqfn, i - 1);
      var s, call, t := states[i - 1], calls[i - 1], states[i];
      match call
      case Insert(_, _, _, _) => InsertRefines(s, calls[..i - 1], call, t, hashfn, eqfn);
      case Remove(_) => RemoveRefines(s, calls[..i - 1], call, t, hashfn, eqfn);
      case Search(_) => SearchRefines(s, calls[..i - 1], call, t, hashfn, eqfn);
    }
  }

  lemma CallAt<K, V>(calls: seq<Call<K, V>>, states: seq<State<K, V>>, hashfn: K -> nat, eqfn: (K, K) -> bool, i: nat)
    requires Run(calls, states, hashfn, eqfn) && RemovedBeforeInserted(calls, eqfn) && i < |calls|
    ensures |states| == |calls| + 1 && calls[..i + 1] == calls[..i] + [calls[i]]
    ensures |states[i].c| > 0 && Step(states[i], calls[i], states[i + 1], hashfn, eqfn)
    ensures calls[i].Insert? && calls[i].added != null ==> After(calls[..i], calls[i].k, eqfn) == None
  {
    hide Step, After;
  }

  lemma SearchRefines<K(!new), V>(s: State<K, V>, calls: seq<Call<K, V>>, call: Call<K, V>, t: State<K, V>,
                                  hashfn: K -> nat, eqfn: (K, K) -> bool)
    requires Refines(s, calls, hashfn, eqfn) && call.Search? && Step(s, call, t, hashfn, eqfn)
    ensures Refines(t, calls + [call], hashfn, eqfn)
  {
    NoChange(calls, call, eqfn);
  }

  lemma EmptyRefines<K(!new), V>(s: State<K, V>, hashfn: K -> nat, eqfn: (K, K) -> bool)
    requires s.primeIndex < 26 && s.c == Empty(Prime(s.primeIndex))
    ensures Refines(s, [], hashfn, eqfn)
  {
    ItemsEmpty<K, V>(|s.c|);
    assert Prime(s.primeIndex) > 0;
    forall k
      ensures Lookup(s.c, hashfn(k), k, eqfn) == None
    {
      assert !Holds(s.c, k, eqfn);
      LookupMisses(s.c, hashfn, eqfn, k);
    }
  }
}
