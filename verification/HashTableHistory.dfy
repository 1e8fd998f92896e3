/**
 A table together with the record of the calls made on it.  The record is a run in the sense of
 HashTableMap.dfy, so every answer the pointer code gives is the answer of the map.
 */
module HashTableHistory {
  import opened Basics
  import opened HashChains
  import opened HashTable
  import opened HashTableMap

  // A run goes on by a step from its last state.
  lemma RunGoesOn<K(!new), V>(calls: seq<Call<K, V>>, states: seq<State<K, V>>, call: Call<K, V>, t: State<K, V>,
                              hashfn: K -> nat, eqfn: (K, K) -> bool)
    requires Run(calls, states, hashfn, eqfn) && RemovedBeforeInserted(calls, eqfn)
    requires |states[|calls|].c| > 0 && Step(states[|calls|], call, t, hashfn, eqfn)
    requires call.Insert? && call.added != null ==> After(calls, call.k, eqfn) == None
    ensures Run(calls + [call], states + [t], hashfn, eqfn) && RemovedBeforeInserted(calls + [call], eqfn)
  {
    hide Step, After;
    var more, ts := calls + [call], states + [t];
    forall i | 0 <= i < |more|
      ensures |ts[i].c| > 0 && Step(ts[i], more[i], ts[i + 1], hashfn, eqfn)
      ensures more[i].Insert? && more[i].added != null ==> After(more[..i], more[i].k, eqfn) == None
    {
      if i < |calls| {
        assert more[..i] == calls[..i];
        assert Step(states[i], calls[i], states[i + 1], hashfn, eqfn);
      } else {
        assert more[..i] == calls;
      }
    }
  }

  // At the end of a run the table is the map.
  lemma EndRefines<K(!new), V>(calls: seq<Call<K, V>>, states: seq<State<K, V>>, hashfn: K -> nat, eqfn: (K, K) -> bool)
    requires Run(calls, states, hashfn, eqfn) && Congruent(hashfn, eqfn) && RemovedBeforeInserted(calls, eqfn)
    ensures Refines(states[|calls|], calls, hashfn, eqfn)
  {
    RunRefinesMap(calls, states, hashfn, eqfn, |calls|);
    assert calls[..|calls|] == calls;
  }

  class Recorded<K(!new), V> {
    const table: Table<K, V>
    ghost var calls: seq<Call<K, V>>
    ghost var states: seq<State<K, V>>

    ghost predicate Valid()
      reads this, table, table.table, table.repr
    {
      && table.Valid()
      && Run(calls, states, table.hashfn, table.eqfn)
      && RemovedBeforeInserted(calls, table.eqfn)
      && Congruent(table.hashfn, table.eqfn)
      && states[|calls|] == State(table.chains, table.primeIndex)
    }

    constructor (t: Table<K, V>)
      requires t.Valid() && t.chains == Empty(t.tableLength) && Congruent(t.hashfn, t.eqfn)
      ensures Valid() && table == t && calls == []
    {
      table, calls, states := t, [], [State(t.chains, t.primeIndex)];
    }

    /** What the map holds for a key. */
    ghost function Held(k: K): Option<V>
      reads this, table
    {
      After(calls, k, table.eqfn)
    }

    lemma Answers(k: K)
      requires Valid()
      ensures |table.chains| > 0 && Lookup(table.chains, table.hashfn(k), k, table.eqfn) == Held(k)
      ensures |Items(table.chains)| == Size(calls, table.eqfn)
    {
      EndRefines(calls, states, table.hashfn, table.eqfn);
    }

    method Insert(k: K, v: V, memory: Memory, entryMemory: bool) returns (ok: bool)
      requires Valid() && Held(k) == None
      modifies this`calls, this`states, table, table.table, table.repr
      ensures Valid() && (ok <==> entryMemory)
      ensures exists added :: calls == old(calls) + [Call.Insert(k, v, memory, added)] && (ok <==> added != null)
    {
      Answers(k);
      ghost var added;
      hide Table.Valid, Run, Inserted, Congruent, RemovedBeforeInserted, After, Lookup;
      ok, added := table.Insert(k, v, memory, entryMemory);
      Append(Call.Insert(k, v, memory, added), State(table.chains, table.primeIndex));
    }

    /** Answers as the map does. */
    method Search(k: K) returns (r: Option<V>)
      requires Valid()
      modifies this`calls, this`states
      ensures Valid() && calls == old(calls) + [Call.Search(k)] && r == old(Held(k))
    {
      Answers(k);
      hide Table.Valid, Run, Congruent, RemovedBeforeInserted, After, Lookup;
      r := table.Search(k);
      Append(Call.Search(k), State(table.chains, table.primeIndex));
    }

    /** Answers as the map does. */
    method Remove(k: K) returns (r: Option<V>)
      requires Valid()
      modifies this`calls, this`states, table, table.table, table.repr
      ensures Valid() && calls == old(calls) + [Call.Remove(k)] && r == old(Held(k))
    {
      Answers(k);
      RemoveIsStep(states[|calls|], k, table.hashfn, table.eqfn);
      hide Table.Valid, Run, Congruent, RemovedBeforeInserted, After, Lookup, Removed, Items, Size, Step, IndexFor;
      r := table.Remove(k);
      Append(Call.Remove(k), State(table.chains, table.primeIndex));
    }

    static lemma RemoveIsStep(s: State<K, V>, k: K, hashfn: K -> nat, eqfn: (K, K) -> bool)
      requires |s.c| > 0
      ensures Step(s, Call.Remove(k), State(Removed(s.c, hashfn(k), k, eqfn), s.primeIndex), hashfn, eqfn)
    {
    }

    /** The number of keys the map holds. */
    method Count() returns (n: nat)
      requires Valid()
      ensures n == Size(calls, table.eqfn)
    {
      n := table.Count();
      EndRefines(calls, states, table.hashfn, table.eqfn);
    }

    ghost method Append(call: Call<K, V>, t: State<K, V>)
      requires Run(calls, states, table.hashfn, table.eqfn) && RemovedBeforeInserted(calls, table.eqfn)
      requires |states[|calls|].c| > 0 && Step(states[|calls|], call, t, table.hashfn, table.eqfn)
      requires call.Insert? && call.added != null ==> After(calls, call.k, table.eqfn) == None
      modifies this`calls, this`states
      ensures Run(calls, states, table.hashfn, table.eqfn) && RemovedBeforeInserted(calls, table.eqfn)
      ensures calls == old(calls) + [call] && states == old(states) + [t]
    {
      RunGoesOn(calls, states, call, t, table.hashfn, table.eqfn);
      calls, states := calls + [call], states + [t];
    }
  }
}
