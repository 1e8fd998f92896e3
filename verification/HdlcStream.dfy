/**
 What repeated reads make of a stream: frames written back to back are read back one by one and in
 order, after the tail of a lost frame and, at the cost of at most one frame, after any garbage.
 */
module HdlcStream {
  import opened Basics
  import opened Crc
  import opened Hdlc

  function AsEvents(bs: seq<byte>): (evs: seq<Event>)
    ensures |evs| == |bs|
  {
    seq(|bs|, i requires 0 <= i < |bs| => Byte(bs[i]))
  }

  /** The bytes of several `WritePacket` calls. */
  function Frames(bodies: seq<seq<byte>>): seq<byte> {
    if bodies == [] then [] else Frame(bodies[0]) + Frames(bodies[1..])
  }

  /** The results of `n` reads, and what is left of the script. */
  function Reads(n: nat, evs: seq<Event>): (r: (seq<Option<Received>>, seq<Event>))
    ensures |r.0| == n
  {
    if n == 0 then ([], evs)
    else
      var o := Read(evs);
      var (more, rest) := Reads(n - 1, o.rest);
      ([o.result] + more, rest)
  }

  /** `evs` is `rest`, perhaps behind what is left of a frame whose beginning was lost. */
  ghost predicate OnTrack(evs: seq<Event>, rest: seq<Event>) {
    evs == rest || exists tail: seq<byte> :: LostTail(tail, evs, rest)
  }

  predicate LostTail(tail: seq<byte>, evs: seq<Event>, rest: seq<Event>) {
    FLAG !in tail && evs == AsEvents(tail + [FLAG]) + rest
  }

  // ---------- The three loops on known bytes ----------

  predicate AllData(evs: seq<Event>) {
    forall e :: e in evs ==> e.Byte? && e.b != FLAG
  }

  predicate AllFlags(evs: seq<Event>) {
    forall e :: e in evs ==> e == Byte(FLAG)
  }

  lemma {:induction false} SkipToFlagData(g: seq<Event>, s: seq<Event>)
    requires AllData(g)
    ensures SkipToFlag(g + s) == SkipToFlag(s)
  {
    if g == [] {
      assert g + s == s;
    } else {
      assert g[0] in g && forall e :: e in g[1..] ==> e in g;
      assert (g + s)[1..] == g[1..] + s;
      SkipToFlagData(g[1..], s);
    }
  }

  lemma {:induction false} SkipFlagsFlags(g: seq<Event>, s: seq<Event>)
    requires AllFlags(g)
    ensures SkipFlags(g + s) == SkipFlags(s)
  {
    if g == [] {
      assert g + s == s;
    } else {
      assert g[0] in g && forall e :: e in g[1..] ==> e in g;
      assert (g + s)[1..] == g[1..] + s;
      SkipFlagsFlags(g[1..], s);
    }
  }

  lemma {:induction false} TakeToFlagData(g: seq<byte>, s: seq<Event>)
    requires FLAG !in g
    ensures TakeToFlag(AsEvents(g) + [Byte(FLAG)] + s) == Outcome(Some(g + [FLAG]), s)
  {
    var evs := AsEvents(g) + [Byte(FLAG)] + s;
    if g == [] {
      assert evs[1..] == s;
      assert g + [FLAG] == [FLAG];
    } else {
      assert g[0] in g;
      assert evs[1..] == AsEvents(g[1..]) + [Byte(FLAG)] + s;
      TakeToFlagData(g[1..], s);
      assert g + [FLAG] == [g[0]] + (g[1..] + [FLAG]);
    }
  }

  // ---------- ... and inside garbage ----------

  lemma {:induction false} SkipToFlagStops(g: seq<Event>, s: seq<Event>)
    requires !AllData(g)
    ensures SkipToFlag(g + s) == Outcome(SkipToFlag(g).result, SkipToFlag(g).rest + s)
  {
    assert (g + s)[1..] == g[1..] + s && g == [g[0]] + g[1..];
    if g[0].Byte? && g[0].b != FLAG {
      SkipToFlagStops(g[1..], s);
    }
  }

  lemma {:induction false} SkipFlagsStops(g: seq<Event>, s: seq<Event>)
    requires !AllFlags(g)
    ensures SkipFlags(g + s) == Outcome(SkipFlags(g).result, SkipFlags(g).rest + s)
  {
    assert (g + s)[1..] == g[1..] + s && g == [g[0]] + g[1..];
    if g[0] == Byte(FLAG) {
      SkipFlagsStops(g[1..], s);
    }
  }

  lemma {:induction false} TakeToFlagStops(g: seq<Event>, s: seq<Event>)
    requires !AllData(g)
    ensures TakeToFlag(g + s) == Outcome(TakeToFlag(g).result, TakeToFlag(g).rest + s)
  {
    assert (g + s)[1..] == g[1..] + s && g == [g[0]] + g[1..];
    if g[0].Byte? && g[0].b != FLAG {
      TakeToFlagStops(g[1..], s);
    }
  }

  lemma {:induction false} TakeToFlagAcross(g: seq<Event>, s: seq<Event>)
    requires AllData(g)
    ensures TakeToFlag(g + [Byte(FLAG)] + s).result.Some?
    ensures TakeToFlag(g + [Byte(FLAG)] + s).rest == s
  {
    var evs := g + [Byte(FLAG)] + s;
    if g == [] {
      assert evs[1..] == s;
    } else {
      assert g[0] in g && forall e :: e in g[1..] ==> e in g;
      assert evs[1..] == g[1..] + [Byte(FLAG)] + s;
      TakeToFlagAcross(g[1..], s);
    }
  }

  // ---------- One frame ----------

  // The escaped part of a frame with any trailer.
  function Inside(body: seq<byte>, crc: bv16): seq<byte> {
    Escape(body + [LowByte(crc), TopByte(crc)])
  }

  lemma InsideProperties(body: seq<byte>, crc: bv16)
    ensures Inside(body, crc) != [] && FLAG !in Inside(body, crc)
    ensures FrameWithTrailer(body, crc) == [FLAG] + Inside(body, crc) + [FLAG]
  {
    EscapeHasNoFlag(body + [LowByte(crc), TopByte(crc)]);
  }

  lemma InsideEvents(inside: seq<byte>, s: seq<Event>)
    requires inside != []
    ensures var evs := AsEvents(inside + [FLAG]) + s;
            evs[0] == Byte(inside[0]) && evs[1..] == AsEvents(inside[1..]) + [Byte(FLAG)] + s
  {
    assert AsEvents(inside + [FLAG]) == [Byte(inside[0])] + (AsEvents(inside[1..]) + [Byte(FLAG)]);
  }

  // What the second and third loops make of flags and then the inside of a frame.
  lemma ReadInside(flags: seq<Event>, body: seq<byte>, crc: bv16, s: seq<Event>)
    requires AllFlags(flags)
    ensures var inside := Inside(body, crc);
            var first := SkipFlags(flags + (AsEvents(inside + [FLAG]) + s));
            && first.result == Some(inside[0])
            && TakeToFlag(first.rest) == Outcome(Some(inside[1..] + [FLAG]), s)
            && Interpret([FLAG, inside[0]] + (inside[1..] + [FLAG])) == Received(body, Crc16(0, body) == crc)
  {
    InsideProperties(body, crc);
    InterpretFrameWithTrailer(body, crc);
    var inside := Inside(body, crc);
    hide Inside, FrameWithTrailer, Interpret, Crc16;
    var data := AsEvents(inside[1..]) + [Byte(FLAG)] + s;
    var fromFirst := AsEvents(inside + [FLAG]) + s;
    assert [FLAG, inside[0]] + (inside[1..] + [FLAG]) == FrameWithTrailer(body, crc);
    InsideEvents(inside, s);
    assert inside[0] in inside;
    hide AsEvents;
    SkipFlagsFlags(flags, fromFirst);
    TakeToFlagData(inside[1..], s);
  }

  lemma FrameEvents(body: seq<byte>, crc: bv16, s: seq<Event>)
    ensures AsEvents(FrameWithTrailer(body, crc)) + s == [Byte(FLAG)] + (AsEvents(Inside(body, crc) + [FLAG]) + s)
  {
    InsideProperties(body, crc);
    hide Inside, FrameWithTrailer;
  }

  /** A frame with any trailer is read as its body, and the comparison says whether the trailer is its CRC. */
  lemma ReadFrameWithTrailer(body: seq<byte>, crc: bv16, s: seq<Event>)
    ensures Read(AsEvents(FrameWithTrailer(body, crc)) + s) == Outcome(Some(Received(body, Crc16(0, body) == crc)), s)
  {
    var inside := AsEvents(Inside(body, crc) + [FLAG]) + s;
    FrameEvents(body, crc, s);
    assert ([Byte(FLAG)] + inside)[1..] == inside;
    assert [] + inside == inside;
    ReadInside([], body, crc, s);
  }

  lemma ReadFrame(body: seq<byte>, s: seq<Event>)
    ensures Read(AsEvents(Frame(body)) + s) == Outcome(Some(Received(body, true)), s)
  {
    ReadFrameWithTrailer(body, Crc16(0, body), s);
  }

  lemma ReadFrameOnTrack(evs: seq<Event>, body: seq<byte>, s: seq<Event>)
    requires OnTrack(evs, AsEvents(Frame(body)) + s)
    ensures Read(evs) == Outcome(Some(Received(body, true)), s)
  {
    var rest := AsEvents(Frame(body)) + s;
    if evs == rest {
      ReadFrame(body, s);
    } else {
      var tail: seq<byte> :| LostTail(tail, evs, rest);
      var lost := AsEvents(tail);
      assert evs == lost + ([Byte(FLAG)] + rest);
      SkipToFlagData(lost, [Byte(FLAG)] + rest);
      assert ([Byte(FLAG)] + rest)[1..] == rest;
      FrameEvents(body, Crc16(0, body), s);
      ReadInside([Byte(FLAG)], body, Crc16(0, body), s);
    }
  }

  // ---------- Many frames ----------

  function AllReceived(bodies: seq<seq<byte>>): (r: seq<Option<Received>>)
    ensures |r| == |bodies|
  {
    seq(|bodies|, i requires 0 <= i < |bodies| => Some(Received(bodies[i], true)))
  }

  lemma FramesHead(bodies: seq<seq<byte>>, s: seq<Event>)
    requires bodies != []
    ensures AsEvents(Frames(bodies)) + s == AsEvents(Frame(bodies[0])) + (AsEvents(Frames(bodies[1..])) + s)
    ensures AllReceived(bodies) == [Some(Received(bodies[0], true))] + AllReceived(bodies[1..])
  {
    hide *;
    FramesCons(bodies);
    EventsConcat(Frame(bodies[0]), Frames(bodies[1..]), s);
    AllReceivedCons(bodies);
  }

  lemma FramesCons(bodies: seq<seq<byte>>)
    requires bodies != []
    ensures Frames(bodies) == Frame(bodies[0]) + Frames(bodies[1..])
  {
    hide Frame;
  }

  lemma AllReceivedCons(bodies: seq<seq<byte>>)
    requires bodies != []
    ensures AllReceived(bodies) == [Some(Received(bodies[0], true))] + AllReceived(bodies[1..])
  {
  }

  lemma EventsConcat(a: seq<byte>, b: seq<byte>, s: seq<Event>)
    ensures AsEvents(a + b) + s == AsEvents(a) + (AsEvents(b) + s)
  {
  }

  lemma ReadsHead(n: nat, evs: seq<Event>)
    requires n > 0
    ensures Reads(n, evs).0 == [Read(evs).result] + Reads(n - 1, Read(evs).rest).0
    ensures Reads(n, evs).1 == Reads(n - 1, Read(evs).rest).1
  {
    hide Read;
  }

  lemma NoReads(bodies: seq<seq<byte>>, s: seq<Event>)
    requires bodies == []
    ensures Reads(|bodies|, s) == ([], s) && AllReceived(bodies) == []
    ensures AsEvents(Frames(bodies)) + s == s
  {
  }

  /** n frames, after the tail of a lost one or none, are n packets, in order and with good CRCs. */
  lemma {:induction false} FramesAreRead(evs: seq<Event>, bodies: seq<seq<byte>>, s: seq<Event>)
    requires OnTrack(evs, AsEvents(Frames(bodies)) + s)
    ensures Reads(|bodies|, evs).0 == AllReceived(bodies)
    ensures bodies != [] ==> Reads(|bodies|, evs).1 == s
    decreases bodies
  {
    hide *;
    if bodies == [] {
      NoReads(bodies, evs);
    } else {
      var others := AsEvents(Frames(bodies[1..])) + s;
      FramesHead(bodies, s);
      ReadFrameOnTrack(evs, bodies[0], others);
      ReadsHead(|bodies|, evs);
      NowOnTrack(others);
      FramesAreRead(others, bodies[1..], s);
      if bodies[1..] == [] {
        NoReads(bodies[1..], s);
      }
    }
  }

  lemma NowOnTrack(evs: seq<Event>)
    ensures OnTrack(evs, evs)
  {
  }

  // ---------- Resynchronisation ----------

  // Behind the opening flag of a frame the rest of it is a lost tail.
  lemma AcrossFrame(g: seq<Event>, body: seq<byte>, s: seq<Event>) returns (after: seq<Event>)
    ensures g + (AsEvents(Frame(body)) + s) == g + [Byte(FLAG)] + after && OnTrack(after, s)
  {
    InsideProperties(body, Crc16(0, body));
    FrameEvents(body, Crc16(0, body), s);
    var inside := Inside(body, Crc16(0, body));
    hide Inside, FrameWithTrailer, Crc16, AsEvents;
    after := AsEvents(inside + [FLAG]) + s;
    assert LostTail(inside, after, s);
    assert g + ([Byte(FLAG)] + after) == g + [Byte(FLAG)] + after;
  }

  lemma GarbageAfterFlag(g1: seq<Event>, body: seq<byte>, s: seq<Event>) returns (g': seq<Event>)
    requires !AllFlags(g1)
    ensures var first := SkipFlags(g1 + (AsEvents(Frame(body)) + s));
            var rest := if first.result.None? then first.rest else TakeToFlag(first.rest).rest;
            OnTrack(rest, s) || (|g'| <= |g1| && rest == g' + (AsEvents(Frame(body)) + s))
  {
    hide *;
    var frame := AsEvents(Frame(body)) + s;
    SkipFlagsStops(g1, frame);
    var g2 := SkipFlags(g1).rest;
    g' := g2;
    if SkipFlags(g1).result.Some? {
      if AllData(g2) {
        var after := AcrossFrame(g2, body, s);
        TakeToFlagAcross(g2, after);
      } else {
        TakeToFlagStops(g2, frame);
        g' := TakeToFlag(g2).rest;
      }
    }
  }

  // `read` on a stream is one of these.
  lemma ReadCases(evs: seq<Event>)
    ensures var opening := SkipToFlag(evs);
            var first := SkipFlags(opening.rest);
            Read(evs).rest ==
            if opening.result.None? then opening.rest
            else if first.result.None? then first.rest
            else TakeToFlag(first.rest).rest
  {
    hide SkipToFlag, SkipFlags, TakeToFlag, Interpret;
  }

  lemma FlagsThenFrame(flags: seq<Event>, body: seq<byte>, s: seq<Event>)
    requires AllFlags(flags)
    ensures var first := SkipFlags(flags + (AsEvents(Frame(body)) + s));
            first.result.Some? && TakeToFlag(first.rest).rest == s
  {
    var crc := Crc16(0, body);
    FrameEvents(body, crc, s);
    var inside := AsEvents(Inside(body, crc) + [FLAG]) + s;
    assert AllFlags(flags + [Byte(FLAG)]);
    assert flags + ([Byte(FLAG)] + inside) == (flags + [Byte(FLAG)]) + inside;
    ReadInside(flags + [Byte(FLAG)], body, crc, s);
    hide *;
  }

  // One read that starts in garbage either leaves less garbage, or consumes it all and the first
  // frame with it, whole or in part.
  lemma ReadFromGarbage(g: seq<Event>, body: seq<byte>, s: seq<Event>) returns (g': seq<Event>)
    requires g != []
    ensures var rest := Read(g + (AsEvents(Frame(body)) + s)).rest;
            OnTrack(rest, s) || (|g'| < |g| && rest == g' + (AsEvents(Frame(body)) + s))
  {
    hide *;
    var frame := AsEvents(Frame(body)) + s;
    g' := [];
    NowOnTrack(s);
    ReadCases(g + frame);
    if AllData(g) {
      SkipToFlagData(g, frame);
      ReadCases(frame);
      ReadFrame(body, s);
    } else {
      SkipToFlagStops(g, frame);
      var g1 := SkipToFlag(g).rest;
      if SkipToFlag(g).result.None? {
        g' := g1;
      } else if AllFlags(g1) {
        FlagsThenFrame(g1, body, s);
      } else {
        g' := GarbageAfterFlag(g1, body, s);
      }
    }
  }

  /** Whatever bytes and silences come first, some number of reads leads to a frame boundary. */
  lemma {:induction false} Resynchronises(g: seq<Event>, body: seq<byte>, s: seq<Event>) returns (k: nat)
    ensures k <= |g| + 1
    ensures OnTrack(Reads(k, g + (AsEvents(Frame(body)) + s)).1, s)
    decreases |g|
  {
    var frame := AsEvents(Frame(body)) + s;
    var evs := g + frame;
    var rest := Read(evs).rest;
    if g == [] {
      assert evs == frame;
      ReadFrame(body, s);
      k := 1;
    } else {
      var g' := ReadFromGarbage(g, body, s);
      if OnTrack(rest, s) {
        k := 1;
      } else {
        var j := Resynchronises(g', body, s);
        k := j + 1;
      }
    }
    assert Reads(1, evs).1 == rest;
  }

  lemma {:induction false} ReadsAdd(j: nat, n: nat, evs: seq<Event>)
    ensures Reads(j + n, evs).0 == Reads(j, evs).0 + Reads(n, Reads(j, evs).1).0
    ensures Reads(j + n, evs).1 == Reads(n, Reads(j, evs).1).1
  {
    hide Read;
    if j > 0 {
      ReadsAdd(j - 1, n, Read(evs).rest);
    }
  }

  /**
   After any garbage at all, at most the first frame is lost: at most |g| + 1 reads later, every
   other frame is read, in order and with a good CRC.
   */
  lemma AtMostOneFrameLost(g: seq<Event>, bodies: seq<seq<byte>>, s: seq<Event>) returns (k: nat)
    requires bodies != []
    ensures k <= |g| + 1
    ensures var n := |bodies| - 1;
            Reads(k + n, g + AsEvents(Frames(bodies)) + s).0[k..] == AllReceived(bodies[1..])
  {
    hide Read, Frame, OnTrack;
    var n := |bodies| - 1;
    var others := AsEvents(Frames(bodies[1..])) + s;
    var evs := g + AsEvents(Frames(bodies)) + s;
    assert evs == g + (AsEvents(Frame(bodies[0])) + others);
    k := Resynchronises(g, bodies[0], others);
    FramesAreRead(Reads(k, evs).1, bodies[1..], s);
    ReadsAdd(k, n, evs);
  }
}
