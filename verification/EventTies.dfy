/**
 In what order the heap delivers events with equal keys.  Nothing is promised about it, but what the
 simulator does depends on it.
 */
module EventTies {
  import opened Basics
  import opened EventHeap

  /** The array after these insertions into an empty heap. */
  function Heaped<T>(events: seq<Event<T>>): seq<Event<T>> {
    if events == [] then []
    else Pushed(Heaped(events[..|events| - 1]), events[|events| - 1])
  }

  /** The events in the order in which a heap is emptied. */
  function Delivered<T>(s: seq<Event<T>>): seq<Event<T>>
    decreases |s|
  {
    if s == [] then [] else [s[0]] + Delivered(Rest(s))
  }

  ghost predicate AllAt<T>(s: seq<Event<T>>, time: int) {
    forall i :: 0 <= i < |s| ==> s[i].key == time
  }

  // Nothing is exchanged for an equal key.
  lemma StaysPut<T>(s: seq<Event<T>>, e: Event<T>, time: int)
    requires AllAt(s, time) && e.key == time
    ensures Pushed(s, e) == s + [e]
    ensures s != [] ==> Rest(s) == s[0 := s[|s| - 1]][..|s| - 1] && AllAt(Rest(s), time)
  {
    if s != [] {
      var t := s[0 := s[|s| - 1]][..|s| - 1];
      assert forall i :: 0 <= i < |t| ==> t[i].key == time;
      assert Sunk(t, |t|, 0) == t;
    }
  }

  lemma {:induction false} HeapedInOrder<T>(events: seq<Event<T>>, time: int)
    requires AllAt(events, time)
    ensures Heaped(events) == events
  {
    if events != [] {
      var first, last := events[..|events| - 1], events[|events| - 1];
      HeapedInOrder(first, time);
      StaysPut(first, last, time);
      assert events == first + [last];
    }
  }

  lemma {:induction false} DeliveredBackwards<T>(s: seq<Event<T>>, time: int)
    requires s != [] && AllAt(s, time)
    ensures Delivered(s) == [s[0]] + Reversed(s[1..])
    decreases |s|
  {
    StaysPut(s, s[0], time);
    var rest := Rest(s);
    if |s| == 1 {
      assert Delivered(rest) == [] && s[1..] == [];
    } else {
      DeliveredBackwards(rest, time);
      var last, middle := s[|s| - 1], s[1..|s| - 1];
      assert rest[0] == last && rest[1..] == middle && s[1..] == middle + [last];
      ReversedAppend(middle, last);
    }
  }

  /** Of events for one time the first inserted is delivered first, and then the others, the last inserted first. */
  lemma Simultaneous<T>(events: seq<Event<T>>, time: int)
    requires events != [] && AllAt(events, time)
    ensures Delivered(Heaped(events)) == [events[0]] + Reversed(events[1..])
  {
    HeapedInOrder(events, time);
    DeliveredBackwards(events, time);
  }

  lemma {:induction false} AboveUntouched<T>(s: seq<Event<T>>, n: nat, f: nat, k: nat)
    requires k < f && f < n <= |s|
    ensures Sunk(s, n, f)[k] == s[k]
    decreases n - f
  {
    var left, right := 2 * f + 1, 2 * f + 2;
    if left < n {
      var c := if right < n && s[right].key <= s[left].key then right else left;
      if s[c].key < s[f].key {
        assert Exchanged(s, f, c)[k] == s[k];
        AboveUntouched(Exchanged(s, f, c), n, c, k);
      }
    }
  }

  /** What takes the place of an event that goes down: a child of lesser key, of two such with one key the right. */
  lemma TakesPlace<T>(s: seq<Event<T>>, n: nat, f: nat)
    requires f < n <= |s|
    ensures var event, left, right := s[f].key, 2 * f + 1, 2 * f + 2;
            Sunk(s, n, f)[f] ==
            if right < n && s[right].key < event && s[right].key <= s[left].key then s[right]
            else if left < n && s[left].key < event then s[left]
            else s[f]
  {
    var left, right := 2 * f + 1, 2 * f + 2;
    if left < n {
      var c := if right < n && s[right].key <= s[left].key then right else left;
      if s[c].key < s[f].key {
        AboveUntouched(Exchanged(s, f, c), n, c, f);
      }
    }
  }
}
