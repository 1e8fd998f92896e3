/**
 The Oscilloscope application's record of the samples of one mote: a window of bounded size that
 slides along as messages come in.
 */
module SampleWindow {

  const NREADINGS := 10
  const INCREMENT := 100 * NREADINGS
  const MAX_SIZE := 100 * INCREMENT

  // ---------- The window as a value ----------

  /** The samples from number `lo` on; -1 stands for a missing one. */
  datatype Window = Nothing | Window(lo: int, samples: seq<int>)

  function At(w: Window, x: int): int {
    if w.Window? && w.lo <= x < w.lo + |w.samples| then w.samples[x - w.lo] else -1
  }

  function End(w: Window): int {
    if w == Nothing then 0 else w.lo + |w.samples|
  }

  /** Where the window starts once the samples from `start` on have been added. */
  function Low(w: Window, start: int): int {
    if w == Nothing || start < w.lo then start
    else if start + NREADINGS > w.lo + MAX_SIZE then start + INCREMENT - MAX_SIZE
    else w.lo
  }

  function Updated(w: Window, start: int, readings: seq<int>): (r: Window)
    requires |readings| == NREADINGS
    ensures r.Window? && r.lo + |r.samples| == start + NREADINGS
  {
    var lo := Low(w, start);
    Window(lo, seq(start - lo, i requires 0 <= i => At(w, lo + i)) + readings)
  }

  /**
   `r` is what `w` becomes when readings from `start` on are stored, however many they are: the window
   makes room for NREADINGS samples, and as many of those as there are readings are known.
   */
  ghost predicate Becomes(w: Window, start: int, readings: seq<int>, r: Window) {
    var lo := Low(w, start);
    && r.Window? && r.lo == lo && |r.samples| == start - lo + NREADINGS
    && (forall j :: 0 <= j < start - lo ==> r.samples[j] == At(w, lo + j))
    && forall j :: start - lo <= j < |r.samples| && j < start - lo + |readings| ==>
         r.samples[j] == readings[j - (start - lo)]
  }

  // The samples below, then as many readings as there is room for.
  ghost predicate Stored(below: seq<int>, readings: seq<int>, data: seq<int>) {
    && |below| <= |data| && data[..|below|] == below
    && forall j :: |below| <= j < |data| && j < |below| + |readings| ==> data[j] == readings[j - |below|]
  }

  lemma StoredBecomes(w: Window, start: int, readings: seq<int>, below: seq<int>, data: seq<int>, end: int)
    requires Stored(below, readings, data) && |below| == start - Low(w, start) && end == |below| + NREADINGS <= |data|
    requires Known(w, Low(w, start), below, start)
    ensures Becomes(w, start, readings, Window(Low(w, start), data[..end]))
  {
    assert forall j :: 0 <= j < |below| ==> data[j] == below[j];
  }

  // The array holds the samples of `w` numbered from `lo` up to `index`, as far as `w` goes.
  ghost predicate Held(w: Window, lo: int, data: seq<int>, index: int) {
    forall i :: 0 <= i < |data| && lo + i < index && i < End(w) - lo ==> data[i] == At(w, lo + i)
  }

  lemma LongerHeld(w: Window, lo: int, was: seq<int>, now: seq<int>, index: int)
    requires Held(w, lo, was, index) && End(w) <= lo + |was| && |was| <= |now| && now[..|was|] == was
    ensures Held(w, lo, now, index)
  {
    hide At;
    assert forall i :: 0 <= i < |was| ==> now[i] == was[i];
  }

  // The samples have moved down by `shift`, as far as they are still there.
  ghost predicate Slid(was: seq<int>, now: seq<int>, shift: int) {
    |now| == |was| && shift >= 0 && forall i :: 0 <= i < |now| && i + shift < |was| ==> now[i] == was[i + shift]
  }

  lemma SlidHeld(w: Window, lo: int, shift: int, was: seq<int>, now: seq<int>, index: int)
    requires Held(w, lo, was, index) && End(w) <= lo + |was| && Slid(was, now, shift)
    ensures Held(w, lo + shift, now, index)
  {
    hide At;
    forall i | 0 <= i < |now| && lo + shift + i < index && i < End(w) - (lo + shift)
      ensures now[i] == At(w, lo + shift + i)
    {
      assert now[i] == was[i + shift];
    }
  }

  // ... and where `w` has none, -1.
  ghost predicate Known(w: Window, lo: int, data: seq<int>, index: int) {
    index - lo <= |data| && forall i :: 0 <= i < index - lo ==> data[i] == At(w, lo + i)
  }

  // Samples from `end` on are marked as missing up to `index`; those before it are as they were.
  ghost predicate Marked(lo: int, held: seq<int>, data: seq<int>, end: int, index: int) {
    && |data| == |held|
    && forall i :: 0 <= i < |data| && lo + i < index ==> data[i] == if lo + i < end then held[i] else -1
  }

  lemma MarkedAt(w: Window, lo: int, held: seq<int>, data: seq<int>, end: int, index: int)
    requires Marked(lo, held, data, end, index) && end == End(w) && Held(w, lo, held, index) && index - lo <= |data|
    ensures Known(w, lo, data, index)
  {
  }

  lemma KnownPrefix(w: Window, lo: int, data: seq<int>, index: int)
    requires Known(w, lo, data, index) && lo <= index
    ensures Known(w, lo, data[..index - lo], index)
  {
  }

  lemma BecomesUpdated(w: Window, start: int, readings: seq<int>, r: Window)
    requires |readings| == NREADINGS && Becomes(w, start, readings, r)
    ensures r == Updated(w, start, readings)
  {
    assert r.samples == Updated(w, start, readings).samples;
  }

  // ---------- The program ----------

  class Node {
    const id: int
    var data: array?<int>
    var dataStart: int
    var dataEnd: int

    ghost predicate Valid()
      reads this, data
    {
      if data == null then dataStart == dataEnd == 0
      else
        && dataStart <= dataEnd <= dataStart + data.Length
        && 0 < data.Length <= MAX_SIZE && data.Length % INCREMENT == 0
    }

    ghost function Contents(): Window
      reads this, data
      requires Valid()
    {
      if data == null then Nothing else Window(dataStart, data[..dataEnd - dataStart])
    }

    constructor (id: int)
      ensures Valid() && Contents() == Nothing && this.id == id
    {
      this.id, data, dataStart, dataEnd := id, null, 0, 0;
    }

    // The first step of setEnd: start again, extend, or slide.  A new array always has room.
    method MakeRoom(newDataIndex: int, newEnd: int)
      requires Valid() && newEnd == newDataIndex + NREADINGS
      modifies this, data
      ensures data != null && (data == old(data) || fresh(data)) && dataEnd == old(dataEnd)
      ensures 0 < data.Length <= MAX_SIZE && data.Length % INCREMENT == 0
      ensures dataStart == Low(old(Contents()), newDataIndex)
      ensures newEnd <= dataStart + data.Length
      ensures Held(old(Contents()), dataStart, data[..], newDataIndex)
    {
      ghost var was := Contents();
      if data == null || newDataIndex < dataStart {
        dataStart := newDataIndex;
        data := new int[INCREMENT](_ => 0);
      } else {
        assert Held(was, dataStart, data[..], newDataIndex) && End(was) <= dataStart + data.Length;
        Fit(was, newDataIndex, newEnd);
      }
    }

    // Extends the array, and if that does not do, slides.
    method Fit(ghost was: Window, newDataIndex: int, newEnd: int)
      requires data != null && 0 < data.Length <= MAX_SIZE && data.Length % INCREMENT == 0
      requires newEnd == newDataIndex + NREADINGS && was.Window? && was.lo == dataStart <= newDataIndex
      requires Held(was, dataStart, data[..], newDataIndex) && End(was) <= dataStart + data.Length
      modifies this, data
      ensures data != null && (data == old(data) || fresh(data)) && dataEnd == old(dataEnd)
      ensures 0 < data.Length <= MAX_SIZE && data.Length % INCREMENT == 0
      ensures dataStart == Low(was, newDataIndex) && newEnd <= dataStart + data.Length
      ensures Held(was, dataStart, data[..], newDataIndex)
    {
      ghost var lo := dataStart;
      hide Held, Slid;
      if newEnd > dataStart + data.Length {
        if data.Length < MAX_SIZE {
          ghost var before := data[..];
          Extend(newEnd);
          LongerHeld(was, lo, before, data[..], newDataIndex);
        }
        if newEnd > dataStart + data.Length {
          ghost var before := data[..];
          Slide(newDataIndex);
          SlidHeld(was, lo, dataStart - lo, before, data[..], newDataIndex);
        }
      }
    }

    // A longer array with the same samples.
    method Extend(newEnd: int)
      requires data != null && 0 < data.Length < MAX_SIZE && data.Length % INCREMENT == 0
      requires newEnd > dataStart + data.Length
      modifies this
      ensures fresh(data) && dataStart == old(dataStart) && dataEnd == old(dataEnd)
      ensures 0 < data.Length <= MAX_SIZE && data.Length % INCREMENT == 0
      ensures newEnd > dataStart + data.Length ==> data.Length == MAX_SIZE
      ensures old(data.Length) <= data.Length && data[..old(data.Length)] == old(data[..])
    {
      var newLength := (newEnd - dataStart + INCREMENT - 1) / INCREMENT * INCREMENT;
      if newLength >= MAX_SIZE {
        newLength := MAX_SIZE;
      }
      var newData := new int[newLength](_ => 0);
      forall i | 0 <= i < data.Length {
        newData[i] := data[i];
      }
      data := newData;
    }

    // The oldest samples make way.
    method Slide(newDataIndex: int)
      requires data != null && data.Length == MAX_SIZE
      requires newDataIndex + NREADINGS > dataStart + data.Length
      modifies this, data
      ensures data == old(data) && dataEnd == old(dataEnd)
      ensures dataStart == newDataIndex + INCREMENT - MAX_SIZE
      ensures Slid(old(data[..]), data[..], dataStart - old(dataStart))
    {
      var newStart := newDataIndex + INCREMENT - data.Length;
      if dataStart + data.Length > newStart {
        MoveDown(data, newStart - dataStart);
      }
      dataStart := newStart;
    }

    static method MoveDown(data: array<int>, shift: nat)
      requires shift < data.Length
      modifies data
      ensures Slid(old(data[..]), data[..], shift)
    {
      forall i | 0 <= i < data.Length - shift {
        data[i] := data[i + shift];
      }
    }

    // The second step of setEnd: everything unknown up to `newDataIndex` becomes -1.
    method MarkMissing(newDataIndex: int)
      requires data != null && newDataIndex <= dataStart + data.Length
      modifies data
      ensures Marked(dataStart, old(data[..]), data[..], dataEnd, newDataIndex)
    {
      var i := if dataEnd < dataStart then dataStart else dataEnd;
      ghost var from := i;
      while i < newDataIndex
        invariant from <= i && (i <= newDataIndex || i == from)
        invariant forall j :: 0 <= j < data.Length && dataStart + j < i && dataStart + j < newDataIndex ==>
                    data[j] == if dataStart + j < dataEnd then old(data[j]) else -1
      {
        data[i - dataStart] := -1;
        i := i + 1;
      }
    }

    /** Room for the samples up to `newEnd`; what is missing below `newDataIndex` is marked. */
    method SetEnd(newDataIndex: int, newEnd: int)
      requires Valid() && newEnd == newDataIndex + NREADINGS
      modifies this, data
      ensures Valid() && data != null && (data == old(data) || fresh(data))
      ensures dataStart == Low(old(Contents()), newDataIndex) && dataEnd == newEnd
      ensures Known(old(Contents()), dataStart, data[..], newDataIndex)
    {
      ghost var was := Contents();
      assert dataEnd == End(was);
      hide At, Low, Contents, End, Marked, Held, Known;
      MakeRoom(newDataIndex, newEnd);
      ghost var held := data[..];
      MarkMissing(newDataIndex);
      MarkedAt(was, dataStart, held, data[..], dataEnd, newDataIndex);
      dataEnd := newEnd;
    }

    /**
     A message with the samples from `messageId * NREADINGS` on.  If it holds more readings than the
     array has room for, an exception ends the loop.
     */
    method Update(messageId: int, readings: seq<int>) returns (ok: bool)
      requires Valid()
      modifies this, data
      ensures Valid() && data != null && (data == old(data) || fresh(data))
      ensures Becomes(old(Contents()), messageId * NREADINGS, readings, Contents())
      ensures ok <==> messageId * NREADINGS - dataStart + |readings| <= data.Length
      ensures |readings| == NREADINGS ==> ok && Contents() == Updated(old(Contents()), messageId * NREADINGS, readings)
    {
      ghost var was := Contents();
      var start := messageId * NREADINGS;
      SetEnd(start, start + NREADINGS);
      KnownPrefix(was, dataStart, data[..], start);
      hide At, Low, Updated, Known, Stored, Becomes;
      var offset := start - dataStart;
      ghost var below := data[..offset];
      ok := Store(data, offset, readings);
      StoredBecomes(was, start, readings, below, data[..], dataEnd - dataStart);
      if |readings| == NREADINGS {
        BecomesUpdated(was, start, readings, Contents());
      }
    }

    // The loop of `update`, up to the end of the array.
    static method Store(data: array<int>, offset: int, readings: seq<int>) returns (ok: bool)
      requires 0 <= offset <= data.Length
      modifies data
      ensures ok <==> offset + |readings| <= data.Length
      ensures Stored(old(data[..offset]), readings, data[..])
    {
      for i := 0 to |readings|
        invariant offset + i <= data.Length
        invariant data[..offset] == old(data[..offset]) && data[offset..offset + i] == readings[..i]
      {
        if offset + i == data.Length {
          return false;
        }
        data[offset + i] := readings[i];
      }
      ok := true;
    }

    /** Sample `x`, or -1. */
    function GetData(x: int): (r: int)
      reads this, data
      requires Valid()
      ensures r == At(Contents(), x)
    {
      if x < dataStart || x >= dataEnd then -1 else data[x - dataStart]
    }

    /** The number of the last sample. */
    function MaxX(): (r: int)
      reads this, data
      requires Valid()
      ensures match Contents() case Nothing => r == -1 case Window(lo, samples) => r + 1 == lo + |samples|
    {
      dataEnd - 1
    }
  }

  // ---------- Runs ----------

  datatype Message = Message(id: int, readings: seq<int>)

  function Start(m: Message): int {
    m.id * NREADINGS
  }

  ghost predicate WellFormed(messages: seq<Message>) {
    forall m :: m in messages ==> |m.readings| == NREADINGS
  }

  /** The window after the messages: what `Node.Update` makes of them one by one. */
  ghost function After(messages: seq<Message>): Window
    requires WellFormed(messages)
  {
    if messages == [] then Nothing
    else
      var last := messages[|messages| - 1];
      Updated(After(messages[..|messages| - 1]), Start(last), last.readings)
  }

  /** What was said last about sample `x`: by the last message that does not start above it. */
  ghost function Latest(messages: seq<Message>, x: int): int
    requires WellFormed(messages)
  {
    if messages == [] then -1
    else
      var last := messages[|messages| - 1];
      if x < Start(last) then Latest(messages[..|messages| - 1], x)
      else if x < Start(last) + NREADINGS then last.readings[x - Start(last)]
      else -1
  }

  /** Inside the window a sample is what the messages said last about it; gaps and the rest are -1. */
  lemma {:induction false} SampleIsLatest(messages: seq<Message>, x: int)
    requires WellFormed(messages)
    ensures var w := After(messages);
            At(w, x) == if w.Window? && w.lo <= x then Latest(messages, x) else -1
  {
    if messages != [] {
      SampleIsLatest(messages[..|messages| - 1], x);
    }
  }

  lemma WindowIsBounded(messages: seq<Message>)
    requires WellFormed(messages)
    ensures var w := After(messages); w.Window? ==> NREADINGS <= |w.samples| <= MAX_SIZE
  {
  }

  /**
   What one message does to every sample: its own readings are stored, later samples are gone, and of the
   earlier ones exactly those more than 99000 below it are dropped when it does not fit.
   */
  lemma UpdatedAt(w: Window, start: int, readings: seq<int>, x: int)
    requires |readings| == 10
    ensures var r := Updated(w, start, readings);
            && End(r) == start + 10
            && At(r, x) == if start <= x < start + 10 then readings[x - start]
                           else if x > start || (DoesNotFit(w, start) && start - x > 99000) then -1
                           else At(w, x)
  {
  }

  // More than 100000 samples would lie between the first one and the end of the message.
  predicate DoesNotFit(w: Window, start: int) {
    w.Window? && start + 10 > w.lo + 100000
  }

  // Message `j` starts below the window it finds.
  ghost predicate Restarts(messages: seq<Message>, j: nat)
    requires WellFormed(messages) && j < |messages|
  {
    After(messages[..j]) == Nothing || messages[j].id * 10 < After(messages[..j]).lo
  }

  // Message `j` does not fit, and sample `x` is more than 99000 below it.
  ghost predicate Drops(messages: seq<Message>, j: nat, x: int)
    requires WellFormed(messages) && j < |messages|
  {
    DoesNotFit(After(messages[..j]), messages[j].id * 10) && messages[j].id * 10 - x > 99000
  }

  lemma AfterNext(messages: seq<Message>, n: nat)
    requires WellFormed(messages) && 0 < n <= |messages|
    ensures WellFormed(messages[..n]) && WellFormed(messages[..n - 1])
    ensures After(messages[..n]).Window?
    ensures After(messages[..n]).lo == Low(After(messages[..n - 1]), Start(messages[n - 1]))
  {
    assert messages[..n][..n - 1] == messages[..n - 1];
    hide At;
  }

  /**
   As long as no message restarts the window, a sample leaves it exactly if a message does not fit and is
   more than 99000 above the sample.
   */
  lemma {:induction false} Retained(messages: seq<Message>, i: nat, n: nat, x: int)
    requires WellFormed(messages) && i <= n <= |messages|
    requires forall j :: i <= j < n ==> !Restarts(messages, j)
    requires After(messages[..i]).Window? && After(messages[..i]).lo <= x
    ensures var w := After(messages[..n]);
            w.Window? && (w.lo <= x <==> forall j :: i <= j < n ==> !Drops(messages, j, x))
  {
    hide *;
    if i < n {
      assert !Restarts(messages, n - 1);
      AfterNext(messages, n);
      Retained(messages, i, n - 1, x);
      LowAbove(messages, n - 1, x);
    }
  }

  lemma LowAbove(messages: seq<Message>, j: nat, x: int)
    requires WellFormed(messages) && j < |messages| && !Restarts(messages, j)
    ensures var w := After(messages[..j]);
            w.Window? && (Low(w, Start(messages[j])) <= x <==> w.lo <= x && !Drops(messages, j, x))
  {
    hide After;
  }
}
