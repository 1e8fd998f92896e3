/**
 Silences anywhere in a stream of frames: a read gives the next frame with its bytes intact or, at a
 silence, nothing; and a read that gives nothing costs one frame at most.
 */
module SilentStream {
  import opened Basics
  import opened Crc
  import opened Hdlc
  import opened HdlcStream

  /** The bytes of a stream without its silences. */
  function Heard(evs: seq<Event>): seq<byte> {
    if evs == [] then []
    else if evs[0].Silence? then Heard(evs[1..])
    else [evs[0].b] + Heard(evs[1..])
  }

  /** The stream holds frames for these bodies, perhaps behind the rest of a frame whose beginning is gone. */
  ghost predicate Carries(evs: seq<Event>, bodies: seq<seq<byte>>) {
    Heard(evs) == Frames(bodies) || exists tail :: BehindTail(tail, evs, bodies)
  }

  ghost predicate BehindTail(tail: seq<byte>, evs: seq<Event>, bodies: seq<seq<byte>>) {
    FLAG !in tail && Heard(evs) == tail + [FLAG] + Frames(bodies)
  }

  lemma {:induction false} HeardConcat(a: seq<Event>, b: seq<Event>)
    ensures Heard(a + b) == Heard(a) + Heard(b)
  {
    if a == [] {
      assert a + b == b;
    } else {
      assert (a + b)[1..] == a[1..] + b;
      HeardConcat(a[1..], b);
    }
  }

  lemma {:induction false} HeardBytes(bs: seq<byte>)
    ensures Heard(AsEvents(bs)) == bs
  {
    if bs != [] {
      assert AsEvents(bs)[1..] == AsEvents(bs[1..]);
      HeardBytes(bs[1..]);
    }
  }

  lemma {:induction false} FramesAppend(bodies: seq<seq<byte>>, body: seq<byte>)
    ensures Frames(bodies + [body]) == Frames(bodies) + Frame(body)
  {
    hide Frame;
    if bodies == [] {
      assert [body][1..] == [];
    } else {
      assert (bodies + [body])[1..] == bodies[1..] + [body];
      FramesAppend(bodies[1..], body);
    }
  }

  /** A frame written at the end is carried behind the others. */
  lemma CarriesMore(evs: seq<Event>, bodies: seq<seq<byte>>, body: seq<byte>)
    requires Carries(evs, bodies)
    ensures Carries(evs + AsEvents(Frame(body)), bodies + [body])
  {
    hide Heard, Frames, Frame, AsEvents;
    var more := evs + AsEvents(Frame(body));
    HeardConcat(evs, AsEvents(Frame(body)));
    HeardBytes(Frame(body));
    FramesAppend(bodies, body);
    if tail :| BehindTail(tail, evs, bodies) {
      assert Heard(more) == tail + [FLAG] + Frames(bodies + [body]);
      assert BehindTail(tail, more, bodies + [body]);
    }
  }

  /** The stream with a silence put in. */
  function Paused(evs: seq<Event>, at: nat): seq<Event>
    requires at <= |evs|
  {
    evs[..at] + [Silence] + evs[at..]
  }

  lemma PausedCarries(evs: seq<Event>, at: nat, bodies: seq<seq<byte>>)
    requires at <= |evs| && Carries(evs, bodies)
    ensures Carries(Paused(evs, at), bodies)
  {
    hide Heard, Frames;
    HeardConcat(evs[..at], [Silence]);
    HeardConcat(evs[..at] + [Silence], evs[at..]);
    HeardConcat(evs[..at], evs[at..]);
    assert evs[..at] + evs[at..] == evs;
    OneSilence();
    assert Heard(Paused(evs, at)) == Heard(evs);
    if tail :| BehindTail(tail, evs, bodies) {
      assert BehindTail(tail, Paused(evs, at), bodies);
    }
  }

  lemma OneSilence()
    ensures Heard([Silence]) == []
  {
    assert [Silence][1..] == [];
  }

  // ---------- The three loops among silences ----------

  lemma HeardHead(evs: seq<Event>, d: byte, more: seq<byte>)
    requires Heard(evs) == [d] + more
    ensures evs != []
    ensures if evs[0].Silence? then Heard(evs[1..]) == Heard(evs) else evs[0].b == d && Heard(evs[1..]) == more
  {
    if evs[0].Byte? {
      assert Heard(evs) == [evs[0].b] + Heard(evs[1..]);
      assert ([d] + more)[1..] == more;
    }
  }

  lemma TailHead(tail: seq<byte>, after: seq<byte>)
    ensures tail + [FLAG] + after == if tail == [] then [FLAG] + after else [tail[0]] + (tail[1..] + [FLAG] + after)
    ensures tail + [FLAG] == if tail == [] then [FLAG] else [tail[0]] + (tail[1..] + [FLAG])
    ensures FLAG !in tail && tail != [] ==> tail[0] != FLAG && FLAG !in tail[1..]
  {
  }

  // The loop ends at the flag, or at a silence with `tail'` and the flag still to come.
  lemma {:induction false} SkipToFlagHeard(evs: seq<Event>, tail: seq<byte>, after: seq<byte>)
    returns (tail': seq<byte>)
    requires FLAG !in tail && Heard(evs) == tail + [FLAG] + after
    ensures var o := SkipToFlag(evs);
            if o.result.Some? then o.result.value == FLAG && Heard(o.rest) == after
            else |tail'| <= |tail| && FLAG !in tail' && Heard(o.rest) == tail' + [FLAG] + after
  {
    hide Heard;
    tail' := tail;
    TailHead(tail, after);
    if tail == [] {
      HeardHead(evs, FLAG, after);
    } else {
      HeardHead(evs, tail[0], tail[1..] + [FLAG] + after);
      if evs[0].Byte? {
        tail' := SkipToFlagHeard(evs[1..], tail[1..], after);
      }
    }
  }

  // The loop ends at `d`, or at a silence with perhaps a flag and `d` still to come.
  lemma {:induction false} SkipFlagsHeard(evs: seq<Event>, flag: bool, d: byte, after: seq<byte>) returns (flag': bool)
    requires d != FLAG && Heard(evs) == if flag then [FLAG] + ([d] + after) else [d] + after
    ensures var o := SkipFlags(evs);
            if o.result.Some? then o.result.value == d && Heard(o.rest) == after
            else (flag' ==> flag) && Heard(o.rest) == if flag' then [FLAG] + ([d] + after) else [d] + after
  {
    hide Heard;
    flag' := flag;
    if flag {
      HeardHead(evs, FLAG, [d] + after);
      if evs[0].Byte? {
        flag' := SkipFlagsHeard(evs[1..], false, d, after);
      }
    } else {
      HeardHead(evs, d, after);
    }
  }

  // The loop takes `tail` and the flag, or stops at a silence with `tail'` and the flag still to come.
  lemma {:induction false} TakeToFlagHeard(evs: seq<Event>, tail: seq<byte>, after: seq<byte>)
    returns (tail': seq<byte>)
    requires FLAG !in tail && Heard(evs) == tail + [FLAG] + after
    ensures var o := TakeToFlag(evs);
            if o.result.Some? then o.result.value == tail + [FLAG] && Heard(o.rest) == after
            else FLAG !in tail' && Heard(o.rest) == tail' + [FLAG] + after
  {
    hide Heard;
    tail' := tail;
    TailHead(tail, after);
    if tail == [] {
      HeardHead(evs, FLAG, after);
    } else {
      HeardHead(evs, tail[0], tail[1..] + [FLAG] + after);
      if evs[0].Byte? {
        tail' := TakeToFlagHeard(evs[1..], tail[1..], after);
      }
    }
  }

  // ---------- One read ----------

  // Nothing but silences and a flag: the read finds no frame.
  lemma {:induction false} NothingHeard(evs: seq<Event>)
    requires Heard(evs) == []
    ensures SkipToFlag(evs).result.None? && Heard(SkipToFlag(evs).rest) == []
    ensures SkipFlags(evs).result.None? && Heard(SkipFlags(evs).rest) == []
  {
  }

  // What a read makes of a stream once the opening flag, or one before it, has been passed.
  ghost predicate AfterOpening(o: Outcome<Received>, bodies: seq<seq<byte>>) {
    if o.result.Some? then bodies != [] && o.result.value == Received(bodies[0], true) && Carries(o.rest, bodies[1..])
    else Carries(o.rest, bodies) || (bodies != [] && Carries(o.rest, bodies[1..]))
  }

  // What `read` does behind the first flag it sees.
  function ReadOn(evs: seq<Event>): Outcome<Received> {
    var first := SkipFlags(evs);
    if first.result.None? then Outcome(None, first.rest)
    else
      var others := TakeToFlag(first.rest);
      if others.result.None? then Outcome(None, others.rest)
      else Outcome(Some(Interpret([FLAG, first.result.value] + others.result.value)), others.rest)
  }

  lemma ReadIsReadOn(evs: seq<Event>)
    ensures var opening := SkipToFlag(evs);
            Read(evs) == if opening.result.None? then Outcome(None, opening.rest) else ReadOn(opening.rest)
  {
    hide Interpret, SkipFlags, TakeToFlag, SkipToFlag;
  }

  lemma FrameShape(inside: seq<byte>, others: seq<byte>)
    requires inside != [] && FLAG !in inside
    ensures inside[0] != FLAG && FLAG !in inside[1..]
    ensures [FLAG] + inside + [FLAG] + others == [FLAG] + (inside + [FLAG] + others)
    ensures inside + [FLAG] + others == [inside[0]] + (inside[1..] + [FLAG] + others)
    ensures [FLAG, inside[0]] + (inside[1..] + [FLAG]) == [FLAG] + inside + [FLAG]
  {
  }

  // The bytes of the first frame behind its opening flag.
  lemma FirstFrame(bodies: seq<seq<byte>>) returns (inside: seq<byte>)
    requires bodies != []
    ensures inside != [] && inside[0] != FLAG && FLAG !in inside && FLAG !in inside[1..]
    ensures Frames(bodies) == [FLAG] + (inside + [FLAG] + Frames(bodies[1..]))
    ensures inside + [FLAG] + Frames(bodies[1..]) == [inside[0]] + (inside[1..] + [FLAG] + Frames(bodies[1..]))
    ensures Interpret([FLAG, inside[0]] + (inside[1..] + [FLAG])) == Received(bodies[0], true)
  {
    var crc := Crc16(0, bodies[0]);
    assert Frames(bodies) == FrameWithTrailer(bodies[0], crc) + Frames(bodies[1..]);
    hide *;
    inside := Inside(bodies[0], crc);
    InsideProperties(bodies[0], crc);
    InterpretFrameWithTrailer(bodies[0], crc);
    FrameShape(inside, Frames(bodies[1..]));
  }

  lemma ReadOnFrame(evs: seq<Event>, flag: bool, bodies: seq<seq<byte>>, inside: seq<byte>)
    requires bodies != [] && inside != [] && inside[0] != FLAG && FLAG !in inside && FLAG !in inside[1..]
    requires Interpret([FLAG, inside[0]] + (inside[1..] + [FLAG])) == Received(bodies[0], true)
    requires Frames(bodies) == [FLAG] + (inside + [FLAG] + Frames(bodies[1..]))
    requires var rest := [inside[0]] + (inside[1..] + [FLAG] + Frames(bodies[1..]));
             && inside + [FLAG] + Frames(bodies[1..]) == rest
             && Heard(evs) == if flag then [FLAG] + rest else rest
    ensures AfterOpening(ReadOn(evs), bodies)
  {
    hide Heard, Frames, Interpret, SkipFlags, TakeToFlag;
    var others := Frames(bodies[1..]);
    var flag' := SkipFlagsHeard(evs, flag, inside[0], inside[1..] + [FLAG] + others);
    var first := SkipFlags(evs);
    if first.result.None? {
      assert flag' || BehindTail(inside, first.rest, bodies[1..]);
    } else {
      var tail' := TakeToFlagHeard(first.rest, inside[1..], others);
      var taken := TakeToFlag(first.rest);
      assert taken.result.Some? || BehindTail(tail', taken.rest, bodies[1..]);
    }
  }

  /**
   Silences anywhere: a read gives the next frame, with equal CRCs, or nothing; if nothing, then at
   most the next frame is lost.
   */
  lemma ReadCarries(evs: seq<Event>, bodies: seq<seq<byte>>)
    requires Carries(evs, bodies)
    ensures AfterOpening(Read(evs), bodies)
  {
    hide Heard, Frames, SkipToFlag, SkipFlags, TakeToFlag, Read;
    ReadIsReadOn(evs);
    var opening := SkipToFlag(evs);
    if Heard(evs) == Frames(bodies) {
      if bodies == [] {
        NoFrames();
        NothingHeard(evs);
      } else {
        var inside := FirstFrame(bodies);
        assert [] + [FLAG] + (inside + [FLAG] + Frames(bodies[1..])) == Frames(bodies);
        var tail' := SkipToFlagHeard(evs, [], inside + [FLAG] + Frames(bodies[1..]));
        if opening.result.None? {
          assert tail' == [] && Heard(opening.rest) == Frames(bodies);
        } else {
          ReadOnFrame(opening.rest, false, bodies, inside);
        }
      }
    } else {
      var tail :| BehindTail(tail, evs, bodies);
      var tail' := SkipToFlagHeard(evs, tail, Frames(bodies));
      if opening.result.None? {
        assert BehindTail(tail', opening.rest, bodies);
      } else if bodies == [] {
        NoFrames();
        NothingHeard(opening.rest);
        assert ReadOn(opening.rest) == Outcome(None, SkipFlags(opening.rest).rest);
      } else {
        var inside := FirstFrame(bodies);
        ReadOnFrame(opening.rest, true, bodies, inside);
      }
    }
  }

  lemma NoFrames()
    ensures Frames([]) == []
  {
  }

  /** The results are the bodies in order, but for those lost at reads that gave nothing; `left` are to come. */
  ghost predicate InOrderWithGaps(results: seq<Option<Received>>, bodies: seq<seq<byte>>, left: seq<seq<byte>>) {
    if results == [] then left == bodies
    else if results[0].Some? then
      bodies != [] && results[0].value == Received(bodies[0], true) && InOrderWithGaps(results[1..], bodies[1..], left)
    else
      InOrderWithGaps(results[1..], bodies, left) || (bodies != [] && InOrderWithGaps(results[1..], bodies[1..], left))
  }

  /** Any number of reads. */
  lemma {:induction false} ReadsCarry(n: nat, evs: seq<Event>, bodies: seq<seq<byte>>) returns (left: seq<seq<byte>>)
    requires Carries(evs, bodies)
    ensures InOrderWithGaps(Reads(n, evs).0, bodies, left) && Carries(Reads(n, evs).1, left)
  {
    if n == 0 {
      left := bodies;
    } else {
      hide Carries, Read;
      ReadCarries(evs, bodies);
      var o := Read(evs);
      var same := o.result.None? && Carries(o.rest, bodies);
      left := ReadsCarry(n - 1, o.rest, if same then bodies else bodies[1..]);
      assert Reads(n, evs).0[1..] == Reads(n - 1, o.rest).0;
    }
  }
}
