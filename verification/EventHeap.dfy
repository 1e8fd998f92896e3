/**
 The array heap behind the simulator's discrete-event queue.

 `Heap` is the program.  What its operations mean is said by `Step` on multisets of events; the
 lemmas at the end are about whole runs of steps.
 */
module EventHeap {

  datatype Event<T> = Event(key: int, data: T)

  datatype Action<T> = Insert(e: Event<T>) | Pop(e: Event<T>)

  /** What one operation does to the pending events: a pop takes an event with the least key. */
  ghost predicate Step<T>(before: multiset<Event<T>>, act: Action<T>, after: multiset<Event<T>>) {
    match act
    case Insert(e) => after == before + multiset{e}
    case Pop(e) =>
      && e in before
      && (forall f :: f in before ==> e.key <= f.key)
      && after == before - multiset{e}
  }

  // ---------- Heap order ----------

  function Parent(k: int): int
    requires k > 0
  {
    (k - 1) / 2
  }

  ghost predicate Ordered<T>(s: seq<Event<T>>, n: nat)
    requires n <= |s|
  {
    forall k :: 0 < k < n ==> s[Parent(k)].key <= s[k].key
  }

  // In order but between `f` and its parent; what hangs below `f` is in order with f's parent.
  ghost predicate OrderedAbove<T>(s: seq<Event<T>>, n: nat, f: nat)
    requires f < n <= |s|
  {
    && (forall k :: 0 < k < n && k != f ==> s[Parent(k)].key <= s[k].key)
    && (forall k :: 0 < k < n && Parent(k) == f && f > 0 ==> s[Parent(f)].key <= s[k].key)
  }

  // In order but between `f` and its children; the children of `f` are in order with f's parent.
  ghost predicate OrderedBelow<T>(s: seq<Event<T>>, n: nat, f: nat)
    requires n <= |s|
  {
    && (forall k :: 0 < k < n && Parent(k) != f ==> s[Parent(k)].key <= s[k].key)
    && (forall k :: 0 < k < n && Parent(k) == f && 0 < f < |s| ==> s[Parent(f)].key <= s[k].key)
  }

  lemma {:induction false} RootIsLeast<T>(s: seq<Event<T>>, n: nat, k: nat)
    requires k < n <= |s| && Ordered(s, n)
    ensures s[0].key <= s[k].key
    decreases k
  {
    if k > 0 {
      RootIsLeast(s, n, Parent(k));
    }
  }

  lemma RootIsLeastOfAll<T>(s: seq<Event<T>>, n: nat)
    requires 0 < n <= |s| && Ordered(s, n)
    ensures s[0] in multiset(s[..n])
    ensures forall e :: e in multiset(s[..n]) ==> s[0].key <= e.key
  {
    assert s[0] == s[..n][0];
    forall e | e in multiset(s[..n])
      ensures s[0].key <= e.key
    {
      var k :| 0 <= k < n && s[..n][k] == e;
      RootIsLeast(s, n, k);
    }
  }

  function Exchanged<T>(s: seq<T>, i: nat, j: nat): seq<T>
    requires i < |s| && j < |s|
  {
    s[i := s[j]][j := s[i]]
  }

  lemma ExchangeKeeps<T>(s: seq<T>, n: nat, i: nat, j: nat)
    requires i < n <= |s| && j < n
    ensures multiset(Exchanged(s, i, j)[..n]) == multiset(s[..n])
  {
    assert Exchanged(s, i, j)[..n] == s[..n][i := s[j]][j := s[i]];
  }

  lemma ExchangeUp<T>(s: seq<Event<T>>, n: nat, f: nat)
    requires 0 < f < n <= |s| && OrderedAbove(s, n, f)
    requires s[Parent(f)].key > s[f].key
    ensures OrderedAbove(Exchanged(s, f, Parent(f)), n, Parent(f))
  {
    var t, p := Exchanged(s, f, Parent(f)), Parent(f);
    forall k | 0 < k < n && k != p
      ensures t[Parent(k)].key <= t[k].key
    {
      assert k != f ==> s[Parent(k)].key <= s[k].key;
    }
    forall k | 0 < k < n && Parent(k) == p && p > 0
      ensures t[Parent(p)].key <= t[k].key
    {
      assert s[Parent(p)].key <= s[p].key;
      assert k != f ==> s[Parent(k)].key <= s[k].key;
    }
  }

  lemma ExchangeDown<T>(s: seq<Event<T>>, n: nat, f: nat, c: nat)
    requires f < c < n <= |s| && Parent(c) == f && OrderedBelow(s, n, f)
    requires s[c].key < s[f].key
    requires forall k :: 0 < k < n && Parent(k) == f ==> s[c].key <= s[k].key
    ensures OrderedBelow(Exchanged(s, f, c), n, c)
  {
    var t := Exchanged(s, f, c);
    forall k | 0 < k < n && Parent(k) != c
      ensures t[Parent(k)].key <= t[k].key
    {
      assert Parent(k) != f ==> s[Parent(k)].key <= s[k].key;
      assert k == f ==> s[Parent(f)].key <= s[c].key;
    }
    forall k | 0 < k < n && Parent(k) == c
      ensures t[Parent(c)].key <= t[k].key
    {
      assert s[Parent(k)].key <= s[k].key;
    }
  }

  // ---------- Where the events go ----------

  /** The event at `f` goes up as long as its parent's key is greater. */
  function Raised<T>(s: seq<Event<T>>, f: nat): (r: seq<Event<T>>)
    requires f < |s|
    ensures |r| == |s|
    decreases f
  {
    if f == 0 || s[Parent(f)].key <= s[f].key then s else Raised(Exchanged(s, f, Parent(f)), Parent(f))
  }

  /** The event at `f` goes down as long as a child's key is less: to the lesser child, of equal ones the right. */
  function Sunk<T>(s: seq<Event<T>>, n: nat, f: nat): (r: seq<Event<T>>)
    requires n <= |s|
    ensures |r| == |s|
    decreases n - f
  {
    var left, right := 2 * f + 1, 2 * f + 2;
    if left >= n then s
    else
      var c := if right < n && s[right].key <= s[left].key then right else left;
      if s[c].key < s[f].key then Sunk(Exchanged(s, f, c), n, c) else s
  }

  /** The heap with one event more, and without its first. */
  function Pushed<T>(s: seq<Event<T>>, e: Event<T>): seq<Event<T>> {
    Raised(s + [e], |s|)
  }

  function Rest<T>(s: seq<Event<T>>): (r: seq<Event<T>>)
    requires s != []
    ensures |r| == |s| - 1
  {
    Sunk(s[0 := s[|s| - 1]][..|s| - 1], |s| - 1, 0)
  }

  lemma ExchangedPrefix<T>(s: seq<T>, n: nat, i: nat, j: nat)
    requires i < n <= |s| && j < n
    ensures |Exchanged(s, i, j)| == |s| && Exchanged(s, i, j)[..n] == Exchanged(s[..n], i, j)
  {
  }

  lemma {:induction false} RaisedPrefix<T>(s: seq<Event<T>>, n: nat, f: nat)
    requires f < n <= |s|
    ensures Raised(s, f)[..n] == Raised(s[..n], f)
    decreases f
  {
    if f > 0 && s[Parent(f)].key > s[f].key {
      ExchangedPrefix(s, n, f, Parent(f));
      RaisedPrefix(Exchanged(s, f, Parent(f)), n, Parent(f));
    }
  }

  // One step down, in the array and in its first `n` elements; `c` is `n` when there is none.
  lemma OneDown<T>(s: seq<Event<T>>, n: nat, f: nat) returns (c: nat)
    requires n <= |s|
    ensures c <= n && (c < n ==> f < c)
    ensures if c == n then Sunk(s, n, f) == s && Sunk(s[..n], n, f) == s[..n]
            else
              && Sunk(s, n, f) == Sunk(Exchanged(s, f, c), n, c)
              && Sunk(s[..n], n, f) == Sunk(Exchanged(s[..n], f, c), n, c)
  {
    hide Exchanged;
    var left, right := 2 * f + 1, 2 * f + 2;
    c := n;
    if left < n {
      var d := if right < n && s[right].key <= s[left].key then right else left;
      if s[d].key < s[f].key {
        c := d;
      }
    }
  }

  lemma {:induction false} SunkPrefix<T>(s: seq<Event<T>>, n: nat, f: nat)
    requires n <= |s|
    ensures Sunk(s, n, f)[..n] == Sunk(s[..n], n, f)
    decreases n - f
  {
    hide *;
    var c := OneDown(s, n, f);
    if c < n {
      ExchangedPrefix(s, n, f, c);
      SunkPrefix(Exchanged(s, f, c), n, c);
    }
  }

  // `now` is `was` with its first `n` elements put in heap order.
  ghost predicate Settled<T>(was: seq<Event<T>>, now: seq<Event<T>>, n: nat) {
    && n <= |now| == |was|
    && Ordered(now, n)
    && multiset(now[..n]) == multiset(was[..n])
  }

  lemma SettledAbove<T>(s: seq<Event<T>>, n: nat, f: nat)
    requires f < n <= |s| && OrderedAbove(s, n, f)
    requires f > 0 ==> s[Parent(f)].key <= s[f].key
    ensures Settled(s, s, n)
  {
  }

  lemma SettledBelow<T>(s: seq<Event<T>>, n: nat, f: nat)
    requires n <= |s| && OrderedBelow(s, n, f)
    requires forall k :: 0 < k < n && Parent(k) == f ==> s[f].key <= s[k].key
    ensures Settled(s, s, n)
  {
  }

  // `now` is `was` after its event at `f` has gone down, and is in heap order.
  ghost predicate HasSunk<T>(was: seq<Event<T>>, now: seq<Event<T>>, n: nat, f: nat) {
    Settled(was, now, n) && now == Sunk(was, n, f)
  }

  lemma SunkStays<T>(s: seq<Event<T>>, n: nat, f: nat)
    requires n <= |s| && OrderedBelow(s, n, f)
    requires forall k :: 0 < k < n && Parent(k) == f ==> s[f].key <= s[k].key
    ensures HasSunk(s, s, n, f)
  {
    if 2 * f + 1 < n {
      assert Parent(2 * f + 1) == f && (2 * f + 2 < n ==> Parent(2 * f + 2) == f);
    }
    SettledBelow(s, n, f);
    hide OrderedBelow, Settled;
  }

  // `c` is the child the event at `f` changes places with.
  predicate IsNext<T>(s: seq<Event<T>>, n: nat, f: nat, c: nat)
    requires n <= |s|
  {
    && f < c < n && s[c].key < s[f].key
    && if 2 * f + 2 < n && s[2 * f + 2].key <= s[2 * f + 1].key then c == 2 * f + 2 else c == 2 * f + 1
  }

  lemma SunkGoes<T>(s: seq<Event<T>>, n: nat, f: nat, c: nat)
    requires n <= |s| && OrderedBelow(s, n, f) && IsNext(s, n, f, c)
    ensures OrderedBelow(Exchanged(s, f, c), n, c)
    ensures Sunk(s, n, f) == Sunk(Exchanged(s, f, c), n, c)
  {
    SunkTo(s, n, f, c);
    hide Sunk, OrderedBelow, Exchanged;
    NextIsLeast(s, n, f, c);
    ExchangeDown(s, n, f, c);
  }

  lemma SunkTo<T>(s: seq<Event<T>>, n: nat, f: nat, c: nat)
    requires n <= |s| && IsNext(s, n, f, c)
    ensures Sunk(s, n, f) == Sunk(Exchanged(s, f, c), n, c)
  {
  }

  lemma NextIsLeast<T>(s: seq<Event<T>>, n: nat, f: nat, c: nat)
    requires n <= |s| && IsNext(s, n, f, c)
    ensures f < c < n && Parent(c) == f && s[c].key < s[f].key
    ensures forall k :: 0 < k < n && Parent(k) == f ==> s[c].key <= s[k].key
  {
    forall k | 0 < k < n && Parent(k) == f
      ensures s[c].key <= s[k].key
    {
      assert k == 2 * f + 1 || k == 2 * f + 2;
    }
  }

  lemma SunkOn<T>(s: seq<Event<T>>, now: seq<Event<T>>, n: nat, f: nat, c: nat)
    requires n <= |s| && OrderedBelow(s, n, f) && IsNext(s, n, f, c) && HasSunk(Exchanged(s, f, c), now, n, c)
    ensures HasSunk(s, now, n, f)
  {
    SunkGoes(s, n, f, c);
    hide Sunk, Settled, OrderedBelow, Exchanged;
    SettledAfterExchange(s, now, n, f, c);
  }

  lemma SettledAfterExchange<T>(s: seq<Event<T>>, now: seq<Event<T>>, n: nat, i: nat, j: nat)
    requires i < n <= |s| && j < n
    requires Settled(Exchanged(s, i, j), now, n)
    ensures Settled(s, now, n)
  {
    ExchangeKeeps(s, n, i, j);
  }

  // ---------- The program ----------

  const STARTING_SIZE := 511

  class Heap<T(0)> {
    var size: nat
    var privateSize: nat
    var data: array<Event<T>>

    ghost predicate Valid()
      reads this, data
    {
      && size <= privateSize == data.Length
      && Ordered(data[..], size)
    }

    /** The pending events. */
    ghost function Pending(): multiset<Event<T>>
      reads this, data
      requires Valid()
    {
      multiset(data[..][..size])
    }

    /** The events as they lie in the array. */
    ghost function Listing(): (s: seq<Event<T>>)
      reads this, data
      requires Valid()
      ensures Pending() == multiset(s) && |s| == size
    {
      data[..size]
    }

    constructor ()
      ensures Valid() && Pending() == multiset{} && Listing() == [] && fresh(data)
      ensures privateSize == data.Length == 511
    {
      size := 0;
      privateSize := STARTING_SIZE;
      data := new Event<T>[STARTING_SIZE];
    }

    predicate IsEmpty()
      reads this
    {
      size == 0
    }

    /** The least pending key, or -1 when nothing is pending. */
    function MinKey(): (key: int)
      reads this, data
      requires Valid()
      ensures Pending() == multiset{} ==> key == -1
      ensures Pending() != multiset{} ==>
        (exists e :: e in Pending() && e.key == key) && forall e :: e in Pending() ==> key <= e.key
    {
      if IsEmpty() then -1
      else
        RootIsLeastOfAll(data[..], size);
        data[0].key
    }

    method Swap(first: nat, second: nat)
      requires first < data.Length && second < data.Length
      modifies data
      ensures data[..] == Exchanged(old(data[..]), first, second)
    {
      data[first], data[second] := data[second], data[first];
    }

    method UpHeap(findex: nat, ghost n: nat)
      requires findex < n <= data.Length && OrderedAbove(data[..], n, findex)
      modifies data
      ensures Settled(old(data[..]), data[..], n) && data[..] == Raised(old(data[..]), findex)
    {
      ghost var was := data[..];
      if findex == 0 {
        SettledAbove(was, n, findex);
        return;
      }
      var parentIndex := Parent(findex);
      if data[parentIndex].key > data[findex].key {
        ExchangeUp(was, n, findex);
        hide OrderedAbove, Settled;
        Swap(findex, parentIndex);
        UpHeap(parentIndex, n);
        SettledAfterExchange(was, data[..], n, findex, parentIndex);
      } else {
        SettledAbove(was, n, findex);
      }
    }

    method DownHeap(findex: nat)
      requires size <= data.Length && OrderedBelow(data[..], size, findex)
      modifies data
      ensures HasSunk(old(data[..]), data[..], size, findex)
      decreases size - findex
    {
      hide OrderedBelow, HasSunk;
      var rightIndex := (findex + 1) * 2;
      var leftIndex := findex * 2 + 1;
      ghost var was := data[..];
      if rightIndex < size {
        var leftKey := data[leftIndex].key;
        var rightKey := data[rightIndex].key;
        var minKeyIndex := if leftKey < rightKey then leftIndex else rightIndex;
        if data[minKeyIndex].key < data[findex].key {
          SunkGoes(was, size, findex, minKeyIndex);
          Swap(findex, minKeyIndex);
          DownHeap(minKeyIndex);
          SunkOn(was, data[..], size, findex, minKeyIndex);
        } else {
          SunkStays(was, size, findex);
        }
      } else if leftIndex >= size {
        SunkStays(was, size, findex);
        return;
      } else {
        var leftKey := data[leftIndex].key;
        if leftKey < data[findex].key {
          SunkGoes(was, size, findex, leftIndex);
          Swap(findex, leftIndex);
          SunkStays(data[..], size, leftIndex);
          SunkOn(was, data[..], size, findex, leftIndex);
          return;
        }
        SunkStays(was, size, findex);
      }
    }

    method Expand()
      requires Valid()
      modifies this
      ensures Valid() && Pending() == old(Pending()) && Listing() == old(Listing()) && fresh(data)
      ensures size == old(size) < privateSize == 2 * old(privateSize) + 1
    {
      ghost var was := data[..];
      var newSize := privateSize * 2 + 1;
      var newData := new Event<T>[newSize];
      forall i | 0 <= i < privateSize {
        newData[i] := data[i];
      }
      assert newData[..][..|was|] == was;
      OrderedPrefix(was, newData[..], size);
      data := newData;
      privateSize := newSize;
    }

    method Insert(d: T, key: int)
      requires Valid()
      modifies this, data
      ensures Valid() && (data == old(data) || fresh(data))
      ensures Step(old(Pending()), Action.Insert(Event(key, d)), Pending())
      ensures Listing() == Pushed(old(Listing()), Event(key, d))
    {
      hide Pending, Step, Ordered, Listing;
      if size == privateSize {
        Expand();
      }
      Place(Event(key, d));
    }

    // The second half of an insertion: there is room.
    method Place(e: Event<T>)
      requires Valid() && size < privateSize
      modifies this`size, data
      ensures Valid() && data == old(data)
      ensures Step(old(Pending()), Action.Insert(e), Pending())
      ensures Listing() == Pushed(old(Listing()), e)
    {
      hide Ordered, OrderedAbove, Settled, Step, Raised, Pushed;
      ghost var was := data[..];
      var findex := size;
      data[findex] := e;
      ghost var mid := data[..];
      AppendLeaf(was, mid, findex);
      UpHeap(findex, findex + 1);
      InsertStep(was, mid, data[..], findex);
      size := size + 1;
    }

    method PopMinData() returns (d: T, key: int)
      requires Valid() && !IsEmpty()
      modifies this, data
      ensures Valid() && data == old(data)
      ensures Step(old(Pending()), Action.Pop(Event(key, d)), Pending())
      ensures Event(key, d) == old(Listing())[0] && Listing() == Rest(old(Listing()))
    {
      hide Ordered, OrderedBelow, HasSunk, Step, Rest;
      ghost var was := data[..];
      var lastIndex := size - 1;
      d := data[0].data;
      key := data[0].key;
      data[0] := data[lastIndex];
      size := size - 1;
      ghost var mid := data[..];
      RemoveRoot(was, mid, size);
      DownHeap(0);
      PopStep(was, mid, data[..], size);
    }
  }

  lemma OrderedPrefix<T>(s: seq<Event<T>>, t: seq<Event<T>>, n: nat)
    requires n <= |s| <= |t| && s == t[..|s|] && Ordered(s, n)
    ensures Ordered(t, n) && t[..n] == s[..n]
  {
  }

  lemma AppendLeaf<T>(was: seq<Event<T>>, mid: seq<Event<T>>, n: nat)
    requires n < |was| == |mid| && Ordered(was, n) && mid == was[n := mid[n]]
    ensures OrderedAbove(mid, n + 1, n)
  {
  }

  lemma InsertStep<T>(was: seq<Event<T>>, mid: seq<Event<T>>, now: seq<Event<T>>, n: nat)
    requires n < |was| == |mid| && mid == was[n := mid[n]]
    requires Settled(mid, now, n + 1) && now == Raised(mid, n)
    ensures Step(multiset(was[..n]), Action.Insert(mid[n]), multiset(now[..n + 1])) && Ordered(now, n + 1)
    ensures now[..n + 1] == Pushed(was[..n], mid[n])
  {
    hide Raised;
    assert mid[..n + 1] == was[..n] + [mid[n]];
    RaisedPrefix(mid, n + 1, n);
  }

  lemma RemoveRoot<T>(was: seq<Event<T>>, mid: seq<Event<T>>, n: nat)
    requires n < |was| && Ordered(was, n + 1) && mid == was[0 := was[n]]
    ensures OrderedBelow(mid, n, 0)
  {
  }

  lemma PopStep<T>(was: seq<Event<T>>, mid: seq<Event<T>>, now: seq<Event<T>>, n: nat)
    requires n < |was| && Ordered(was, n + 1) && mid == was[0 := was[n]]
    requires HasSunk(mid, now, n, 0)
    ensures Step(multiset(was[..n + 1]), Action.Pop(was[0]), multiset(now[..n])) && Ordered(now, n)
    ensures now[..n] == Rest(was[..n + 1])
  {
    hide *;
    SunkPrefix(mid, n, 0);
    HasSunkIs(mid, now, n);
    RestIs(was, mid, n);
    RootIsLeastOfAll(was, n + 1);
    RootTakenOut(was, mid, n);
    PopIs(multiset(was[..n + 1]), was[0], multiset(mid[..n]));
  }

  lemma HasSunkIs<T>(mid: seq<Event<T>>, now: seq<Event<T>>, n: nat)
    requires HasSunk(mid, now, n, 0)
    ensures n <= |now| == |mid| && now == Sunk(mid, n, 0) && Ordered(now, n) && multiset(mid[..n]) == multiset(now[..n])
  {
    hide Sunk, Ordered;
  }

  lemma RestIs<T>(was: seq<Event<T>>, mid: seq<Event<T>>, n: nat)
    requires n < |was| && mid == was[0 := was[n]]
    ensures Rest(was[..n + 1]) == Sunk(mid[..n], n, 0)
  {
    hide Sunk;
    assert mid[..n] == was[..n + 1][0 := was[n]][..n];
  }

  lemma PopIs<T>(before: multiset<Event<T>>, e: Event<T>, after: multiset<Event<T>>)
    requires e in before && (forall f :: f in before ==> e.key <= f.key) && after == before - multiset{e}
    ensures Step(before, Action.Pop(e), after)
  {
  }

  lemma RootTakenOut<T>(was: seq<T>, mid: seq<T>, n: nat)
    requires n < |was| && mid == was[0 := was[n]]
    ensures was[0] in multiset(was[..n + 1])
    ensures multiset(mid[..n]) == multiset(was[..n + 1]) - multiset{was[0]}
  {
    if n == 0 {
      assert was[..1] == [was[0]];
    } else {
      assert was[..n + 1] == [was[0]] + was[1..n] + [was[n]];
      assert mid[..n] == [was[n]] + was[1..n];
    }
  }

  // ---------- Whole runs ----------

  /** `states` are the pending events before and after each action of a run. */
  ghost predicate Run<T>(states: seq<multiset<Event<T>>>, acts: seq<Action<T>>) {
    && |states| == |acts| + 1
    && forall i :: 0 <= i < |acts| ==> Step(states[i], acts[i], states[i + 1])
  }

  ghost function Inserted<T>(acts: seq<Action<T>>): multiset<Event<T>> {
    if acts == [] then multiset{}
    else (if acts[0].Insert? then multiset{acts[0].e} else multiset{}) + Inserted(acts[1..])
  }

  ghost function Popped<T>(acts: seq<Action<T>>): seq<Event<T>> {
    if acts == [] then [] else (if acts[0].Pop? then [acts[0].e] else []) + Popped(acts[1..])
  }

  lemma RunTail<T>(states: seq<multiset<Event<T>>>, acts: seq<Action<T>>)
    requires Run(states, acts) && acts != []
    ensures Run(states[1..], acts[1..])
  {
    forall i | 0 <= i < |acts[1..]|
      ensures Step(states[1..][i], acts[1..][i], states[1..][i + 1])
    {
      assert Step(states[i + 1], acts[i + 1], states[i + 2]);
    }
  }

  /** No event is lost, made up or delivered twice. */
  lemma {:induction false} RunConserves<T>(states: seq<multiset<Event<T>>>, acts: seq<Action<T>>)
    requires Run(states, acts)
    ensures states[0] + Inserted(acts) == states[|acts|] + multiset(Popped(acts))
    decreases acts
  {
    if acts != [] {
      assert Step(states[0], acts[0], states[1]);
      RunTail(states, acts);
      var rest := acts[1..];
      RunConserves(states[1..], rest);
      assert states[1..][|rest|] == states[|acts|];
      var e := multiset{acts[0].e};
      if acts[0].Pop? {
        assert Popped(acts) == [acts[0].e] + Popped(rest);
        assert states[0] == states[1] + e;
        MoveAcross(states[1], e, Inserted(rest), states[|acts|], multiset(Popped(rest)));
      } else {
        assert Popped(acts) == Popped(rest);
        assert states[0] + (e + Inserted(rest)) == (states[0] + e) + Inserted(rest);
      }
    }
  }

  lemma MoveAcross<T>(a: multiset<T>, e: multiset<T>, i: multiset<T>, b: multiset<T>, p: multiset<T>)
    requires a + i == b + p
    ensures (a + e) + i == b + (e + p)
  {
    assert (a + e) + i == (a + i) + e;
    assert b + (e + p) == (b + p) + e;
  }

  /** No action schedules an event before the last one delivered (initially, before `now`). */
  ghost predicate Causal<T>(acts: seq<Action<T>>, now: int) {
    acts == [] ||
    if acts[0].Pop? then Causal(acts[1..], acts[0].e.key) else acts[0].e.key >= now && Causal(acts[1..], now)
  }

  /** Simulated time never runs backwards: under causal scheduling the popped keys never decrease. */
  lemma {:induction false} TimeIsMonotone<T>(states: seq<multiset<Event<T>>>, acts: seq<Action<T>>, now: int)
    requires Run(states, acts) && Causal(acts, now)
    requires forall e :: e in states[0] ==> e.key >= now
    ensures forall i :: 0 <= i < |Popped(acts)| ==> Popped(acts)[i].key >= now
    ensures forall i, j :: 0 <= i < j < |Popped(acts)| ==> Popped(acts)[i].key <= Popped(acts)[j].key
    decreases acts
  {
    if acts != [] {
      assert Step(states[0], acts[0], states[1]);
      RunTail(states, acts);
      TimeIsMonotone(states[1..], acts[1..], if acts[0].Pop? then acts[0].e.key else now);
    }
  }
}
