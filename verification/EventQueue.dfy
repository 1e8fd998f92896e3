/**
 The simulator's queue on top of the heap, and its clock.  The record of insertions and pops is a run
 in the sense of EventHeap.dfy; what is proved there of runs thus holds of the running queue.
 */
module EventQueue {
  import opened Basics
  import opened EventHeap

  lemma {:induction false} InsertedAppend<T>(acts: seq<Action<T>>, a: Action<T>)
    ensures Inserted(acts + [a]) == Inserted(acts) + if a.Insert? then multiset{a.e} else multiset{}
  {
    if acts == [] {
      assert [a][1..] == [];
    } else {
      assert (acts + [a])[0] == acts[0] && (acts + [a])[1..] == acts[1..] + [a];
      InsertedAppend(acts[1..], a);
    }
  }

  lemma {:induction false} PoppedAppend<T>(acts: seq<Action<T>>, a: Action<T>)
    ensures Popped(acts + [a]) == Popped(acts) + if a.Pop? then [a.e] else []
  {
    if acts == [] {
      assert [a][1..] == [];
    } else {
      assert (acts + [a])[0] == acts[0] && (acts + [a])[1..] == acts[1..] + [a];
      PoppedAppend(acts[1..], a);
    }
  }

  /** The time of the last event delivered, and at first 0. */
  ghost function Clock<T>(acts: seq<Action<T>>): int {
    var popped := Popped(acts);
    if popped == [] then 0 else popped[|popped| - 1].key
  }

  class Queue<T(0)> {
    const eventHeap: Heap<T>
    var simTicks: int

    ghost var acts: seq<Action<T>>
    ghost var states: seq<multiset<Event<T>>>

    // The record ends in what is pending now.
    ghost predicate Recorded()
      reads this, eventHeap, eventHeap.data
    {
      && eventHeap.Valid()
      && Run(states, acts) && states[0] == multiset{} && states[|acts|] == eventHeap.Pending()
    }

    ghost predicate Valid()
      reads this, eventHeap, eventHeap.data
    {
      Recorded() && simTicks == Clock(acts)
    }

    constructor ()
      ensures Valid() && acts == [] && simTicks == 0 && fresh(eventHeap) && fresh(eventHeap.data)
    {
      eventHeap := new Heap();
      simTicks := 0;
      new;
      acts, states := [], [multiset{}];
    }

    // Puts an action on record.
    ghost method Append(a: Action<T>, after: multiset<Event<T>>)
      requires Run(states, acts) && Step(states[|acts|], a, after)
      modifies this`acts, this`states
      ensures Run(states, acts) && acts == old(acts) + [a] && states == old(states) + [after]
      ensures |states| == |acts| + 1 && states[|acts|] == after && states[0] == old(states[0])
    {
      hide Step;
      forall i | 0 <= i < |acts| + 1
        ensures Step((states + [after])[i], (acts + [a])[i], (states + [after])[i + 1])
      {
        assert i < |acts| ==> Step(states[i], acts[i], states[i + 1]);
      }
      acts, states := acts + [a], states + [after];
    }

    /** Nothing inserted is lost, made up or delivered twice. */
    lemma Conserves()
      requires Valid()
      ensures Inserted(acts) == eventHeap.Pending() + multiset(Popped(acts))
    {
      RunConserves(states, acts);
    }

    method SimQueueInsert(time: int, event: T)
      requires Valid()
      modifies this`acts, this`states, eventHeap, eventHeap.data
      ensures Valid() && acts == old(acts) + [Action.Insert(Event(time, event))]
      ensures eventHeap.data == old(eventHeap.data) || fresh(eventHeap.data)
    {
      hide Run, Step, Heap.Valid, Heap.Pending;
      eventHeap.Insert(event, time);
      ClockStands(acts, Event(time, event));
      hide Clock;
      Append(Action.Insert(Event(time, event)), eventHeap.Pending());
    }

    /**
     Delivers the next event, if there is one, and sets the clock.  As long as no event is scheduled
     before the time it is scheduled at, the clock never runs backwards.
     */
    method SimRunNextEvent() returns (event: Option<Event<T>>)
      requires Valid()
      modifies this, eventHeap, eventHeap.data
      ensures Valid() && eventHeap.data == old(eventHeap.data)
      ensures event == None <==> old(eventHeap.Pending()) == multiset{}
      ensures event == None ==> acts == old(acts) && simTicks == old(simTicks)
      ensures event != None ==> acts == old(acts) + [Action.Pop(event.value)] && simTicks == event.value.key
      ensures Causal(acts, 0) ==> simTicks >= old(simTicks)
    {
      if eventHeap.IsEmpty() {
        return None;
      }
      assert |eventHeap.Pending()| > 0;
      hide Run, Heap.Valid, Heap.Pending, Clock, Causal, Recorded;
      ghost var was := acts;
      var e := SimQueuePop();
      simTicks := e.key;
      ClockMoves(was, e);
      Forward(was, e);
      event := Some(e);
    }

    method SimQueuePop() returns (e: Event<T>)
      requires Recorded() && !eventHeap.IsEmpty()
      modifies this`acts, this`states, eventHeap, eventHeap.data
      ensures Recorded() && acts == old(acts) + [Action.Pop(e)] && eventHeap.data == old(eventHeap.data)
    {
      hide Run, Step, Heap.Valid, Heap.Pending;
      var data, key := eventHeap.PopMinData();
      e := Event(key, data);
      Append(Action.Pop(e), eventHeap.Pending());
    }

    lemma Forward(was: seq<Action<T>>, e: Event<T>)
      requires Recorded() && acts == was + [Action.Pop(e)]
      ensures Causal(acts, 0) ==> Clock(was) <= e.key
    {
      TimeGoesOn(states, was, e);
    }

    /** The time of the next event, or -1. */
    method SimQueuePeekTime() returns (time: int)
      requires Valid()
      ensures eventHeap.Pending() == multiset{} ==> time == -1
      ensures eventHeap.Pending() != multiset{} ==>
        && (exists e :: e in eventHeap.Pending() && e.key == time)
        && forall e :: e in eventHeap.Pending() ==> time <= e.key
    {
      time := eventHeap.MinKey();
    }
  }

  lemma ClockStands<T>(acts: seq<Action<T>>, e: Event<T>)
    ensures Clock(acts + [Action.Insert(e)]) == Clock(acts)
  {
    PoppedAppend(acts, Action.Insert(e));
    assert Popped(acts) + [] == Popped(acts);
  }

  lemma ClockMoves<T>(acts: seq<Action<T>>, e: Event<T>)
    ensures Clock(acts + [Action.Pop(e)]) == e.key
  {
    PoppedAppend(acts, Action.Pop(e));
  }

  lemma TimeGoesOn<T>(states: seq<multiset<Event<T>>>, acts: seq<Action<T>>, e: Event<T>)
    requires Run(states, acts + [Action.Pop(e)]) && states[0] == multiset{}
    ensures Causal(acts + [Action.Pop(e)], 0) ==> Clock(acts) <= e.key
  {
    if Causal(acts + [Action.Pop(e)], 0) {
      hide Run;
      TimeIsMonotone(states, acts + [Action.Pop(e)], 0);
      PoppedAppend(acts, Action.Pop(e));
      var was, popped := Popped(acts), Popped(acts + [Action.Pop(e)]);
      assert popped == was + [e];
      if was != [] {
        assert popped[|was| - 1] == was[|was| - 1] && popped[|was|] == e;
      }
    }
  }
}
