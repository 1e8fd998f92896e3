/**
 The acknowledged sender over bytes: both lines are streams of bytes and silences, the host and the
 far end read them with `Read`, and what goes wrong happens to the streams.

 Every such run is, frame by frame, a run of StopAndWait.dfy, so what that file proves of all runs
 holds here, of the bodies the far end has read off the line.
 */
module WireRuns {
  import opened Basics
  import opened Crc
  import opened Hdlc
  import opened HdlcStream
  import opened SilentStream
  import opened StopAndWait

  /** `accepted`: the bodies of the data frames the far end has read. */
  datatype Wire = Wire(
    messages: seq<seq<byte>>,
    busy: bool,
    toMote: seq<Event>,
    toHost: seq<Event>,
    accepted: seq<seq<byte>>)

  /**
   `Send` and `FarRead` write a frame that may not make it onto the line; `HostRead` and `FarRead` are
   whole reads, which may end at a silence; a pause puts a silence anywhere into a line.
   */
  datatype Move =
    | Write(message: seq<byte>)
    | Resend(reaches: bool)
    | HostRead
    | FarRead(reaches: bool)
    | Other(body: seq<byte>)
    | PauseToMote(at: nat)
    | PauseToHost(at: nat)

  function Put(line: seq<Event>, body: seq<byte>, reaches: bool): seq<Event> {
    if reaches then line + AsEvents(Frame(body)) else line
  }

  function AckFor(body: seq<byte>): seq<byte> {
    [SERIAL_PROTO_ACK, if |body| > 1 then body[1] else 0]
  }

  function After(w: Wire, m: Move): Option<Wire> {
    match m
    case Write(message) =>
      if w.busy then None else Some(w.(messages := w.messages + [message], busy := true))
    case Resend(reaches) =>
      if !w.busy || w.messages == [] then None
      else
        var n := |w.messages|;
        Some(w.(toMote := Put(w.toMote, DataBody(Seqno(n), w.messages[n - 1]), reaches)))
    case HostRead =>
      var o := Read(w.toHost);
      var mine := o.result.Some? && Protocol(o.result.value.payload) == SERIAL_PROTO_ACK
                  && AckSeqno(o.result.value.payload) == Seqno(|w.messages|);
      Some(w.(toHost := o.rest, busy := w.busy && !mine))
    case FarRead(reaches) =>
      var o := Read(w.toMote);
      if o.result.None? then Some(w.(toMote := o.rest))
      else
        var body := o.result.value.payload;
        Some(w.(toMote := o.rest, accepted := w.accepted + [body], toHost := Put(w.toHost, AckFor(body), reaches)))
    case Other(body) =>
      if Protocol(body) == SERIAL_PROTO_ACK then None else Some(w.(toHost := Put(w.toHost, body, true)))
    case PauseToMote(at) =>
      if at <= |w.toMote| then Some(w.(toMote := Paused(w.toMote, at))) else None
    case PauseToHost(at) =>
      if at <= |w.toHost| then Some(w.(toHost := Paused(w.toHost, at))) else None
  }

  /** Nothing written yet; each line is silent but perhaps for the rest of a frame whose beginning is gone. */
  ghost predicate Start(w: Wire) {
    w.messages == [] && !w.busy && w.accepted == [] && Carries(w.toMote, []) && Carries(w.toHost, [])
  }

  ghost predicate WirePath(wires: seq<Wire>, moves: seq<Move>) {
    && |wires| == |moves| + 1
    && forall i :: 0 <= i < |moves| ==> After(wires[i], moves[i]) == Some(wires[i + 1])
  }

  ghost predicate WireRun(wires: seq<Wire>, moves: seq<Move>) {
    WirePath(wires, moves) && Start(wires[0])
  }

  // ---------- What frames a wire state stands for ----------

  function SentBodies(frames: seq<Sent>): (r: seq<seq<byte>>)
    ensures |r| == |frames|
  {
    seq(|frames|, i requires 0 <= i < |frames| => frames[i].body)
  }

  function BackBodies(frames: seq<Back>): (r: seq<seq<byte>>)
    ensures |r| == |frames|
  {
    seq(|frames|, i requires 0 <= i < |frames| => frames[i].body)
  }

  ghost predicate Represents(w: Wire, s: State) {
    && w.messages == s.messages && w.busy == s.busy
    && Carries(w.toMote, SentBodies(s.toMote))
    && Carries(w.toHost, BackBodies(s.toHost))
    && w.accepted == SentBodies(s.accepted)
  }

  lemma SentAppend(frames: seq<Sent>, f: Sent)
    ensures SentBodies(frames + [f]) == SentBodies(frames) + [f.body]
    ensures frames != [] ==> SentBodies(frames[1..]) == SentBodies(frames)[1..]
  {
  }

  lemma BackAppend(frames: seq<Back>, f: Back)
    ensures BackBodies(frames + [f]) == BackBodies(frames) + [f.body]
    ensures frames != [] ==> BackBodies(frames[1..]) == BackBodies(frames)[1..]
  {
  }

  lemma HeadLost<T>(s: seq<T>)
    requires s != []
    ensures Without(s, 0) == s[1..]
  {
  }

  // ---------- Every move is at most two steps ----------

  /** `t` is reached from `s` by these actions. */
  ghost predicate Reached(s: State, acts: seq<Action>, t: State)
    decreases |acts|
  {
    if acts == [] then t == s
    else Next(s, acts[0]).Some? && Reached(Next(s, acts[0]).value, acts[1..], t)
  }

  lemma OneStep(s: State, a: Action, t: State)
    requires Next(s, a) == Some(t)
    ensures Reached(s, [a], t)
  {
    assert [a][1..] == [];
  }

  lemma TwoSteps(s: State, a: Action, t: State, b: Action, u: State)
    requires Next(s, a) == Some(t) && Next(t, b) == Some(u)
    ensures Reached(s, [a, b], u)
  {
    hide Next;
    assert [a, b][1..] == [b];
    OneStep(t, b, u);
  }

  lemma StartRepresents(w: Wire)
    requires Start(w)
    ensures Represents(w, Initial)
  {
  }

  lemma WriteStep(w: Wire, s: State, message: seq<byte>, v: Wire) returns (acts: seq<Action>, t: State)
    requires Represents(w, s) && After(w, Write(message)) == Some(v)
    ensures Reached(s, acts, t) && Represents(v, t)
  {
    hide Carries;
    t := Next(s, Begin(message)).value;
    acts := [Begin(message)];
    OneStep(s, Begin(message), t);
  }

  lemma ResendStep(w: Wire, s: State, reaches: bool, v: Wire) returns (acts: seq<Action>, t: State)
    requires Represents(w, s) && After(w, Resend(reaches)) == Some(v)
    ensures Reached(s, acts, t) && Represents(v, t)
  {
    hide Carries, Frame, Reached;
    if reaches {
      var n := |s.messages|;
      var f := Sent(n, DataBody(Seqno(n), s.messages[n - 1]));
      t := Next(s, Send).value;
      acts := [Send];
      OneStep(s, Send, t);
      SentAppend(s.toMote, f);
      CarriesMore(w.toMote, SentBodies(s.toMote), f.body);
    } else {
      t := s;
      acts := [];
      assert Reached(s, [], s) by { NoSteps(s); }
    }
  }

  lemma NoSteps(s: State)
    ensures Reached(s, [], s)
  {
  }

  lemma HostReadStep(w: Wire, s: State, v: Wire) returns (acts: seq<Action>, t: State)
    requires Represents(w, s) && After(w, HostRead) == Some(v)
    ensures Reached(s, acts, t) && Represents(v, t)
  {
    hide Carries, Read, Reached;
    var bodies := BackBodies(s.toHost);
    ReadCarries(w.toHost, bodies);
    BackAppend(s.toHost, Back(0, []));
    var o := Read(w.toHost);
    if o.result.Some? {
      t := Next(s, Deliver).value;
      acts := [Deliver];
      OneStep(s, Deliver, t);
    } else if Carries(o.rest, bodies) {
      t, acts := s, [];
      NoSteps(s);
    } else {
      t := Next(s, LoseBack(0)).value;
      acts := [LoseBack(0)];
      HeadLost(s.toHost);
      OneStep(s, LoseBack(0), t);
    }
  }

  lemma FarReadStep(w: Wire, s: State, reaches: bool, v: Wire) returns (acts: seq<Action>, t: State)
    requires Represents(w, s) && After(w, FarRead(reaches)) == Some(v)
    ensures Reached(s, acts, t) && Represents(v, t)
  {
    hide Carries, Read, Reached, Frame;
    var bodies := SentBodies(s.toMote);
    ReadCarries(w.toMote, bodies);
    SentAppend(s.toMote, Sent(0, []));
    var o := Read(w.toMote);
    if o.result.Some? {
      acts, t := AcceptStep(w, s, reaches, v);
    } else if Carries(o.rest, bodies) {
      t, acts := s, [];
      NoSteps(s);
    } else {
      t := Next(s, LoseData(0)).value;
      acts := [LoseData(0)];
      HeadLost(s.toMote);
      OneStep(s, LoseData(0), t);
    }
  }

  lemma AcceptStep(w: Wire, s: State, reaches: bool, v: Wire) returns (acts: seq<Action>, t: State)
    requires Represents(w, s) && After(w, FarRead(reaches)) == Some(v)
    requires Read(w.toMote).result.Some? && AfterOpening(Read(w.toMote), SentBodies(s.toMote))
    ensures Reached(s, acts, t) && Represents(v, t)
  {
    hide Carries, Read, Reached, Frame;
    var f := s.toMote[0];
    var ack := Back(f.idx, AckFor(f.body));
    var u := Next(s, Accept).value;
    SentAppend(s.toMote, f);
    SentAppend(s.accepted, f);
    BackAppend(s.toHost, ack);
    if reaches {
      t, acts := u, [Accept];
      OneStep(s, Accept, t);
      CarriesMore(w.toHost, BackBodies(s.toHost), ack.body);
    } else {
      var at := |s.toHost|;
      t, acts := Next(u, LoseBack(at)).value, [Accept, LoseBack(at)];
      assert Without(u.toHost, at) == s.toHost;
      TwoSteps(s, Accept, u, LoseBack(at), t);
    }
  }

  lemma OtherStep(w: Wire, s: State, body: seq<byte>, v: Wire) returns (acts: seq<Action>, t: State)
    requires Represents(w, s) && After(w, Other(body)) == Some(v)
    ensures Reached(s, acts, t) && Represents(v, t)
  {
    hide Carries, Frame, Reached;
    t := Next(s, Chatter(body)).value;
    acts := [Chatter(body)];
    OneStep(s, Chatter(body), t);
    BackAppend(s.toHost, Back(0, body));
    CarriesMore(w.toHost, BackBodies(s.toHost), body);
  }

  lemma PauseStep(w: Wire, s: State, m: Move, v: Wire)
    requires Represents(w, s) && After(w, m) == Some(v) && (m.PauseToMote? || m.PauseToHost?)
    ensures Represents(v, s)
  {
    hide Carries;
    if m.PauseToMote? {
      PausedCarries(w.toMote, m.at, SentBodies(s.toMote));
    } else {
      PausedCarries(w.toHost, m.at, BackBodies(s.toHost));
    }
  }

  /** One move over bytes is no step, one step or two steps over frames. */
  lemma MoveSimulates(w: Wire, s: State, m: Move, v: Wire) returns (acts: seq<Action>, t: State)
    requires Represents(w, s) && After(w, m) == Some(v)
    ensures Reached(s, acts, t) && Represents(v, t)
  {
    hide *;
    match m
    case Write(message) => acts, t := WriteStep(w, s, message, v);
    case Resend(reaches) => acts, t := ResendStep(w, s, reaches, v);
    case HostRead => acts, t := HostReadStep(w, s, v);
    case FarRead(reaches) => acts, t := FarReadStep(w, s, reaches, v);
    case Other(body) => acts, t := OtherStep(w, s, body, v);
    case _ =>
      PauseStep(w, s, m, v);
      acts, t := [], s;
      NoSteps(s);
  }

  // ---------- Whole runs ----------

  // Goes on with a run.
  lemma {:induction false} RunOn(states: seq<State>, acts: seq<Action>, more: seq<Action>, t: State)
    returns (longer: seq<State>)
    requires Run(states, acts) && Reached(states[|acts|], more, t)
    ensures Run(longer, acts + more) && longer[|acts + more|] == t
    decreases |more|
  {
    hide Next;
    if more == [] {
      longer := states;
      assert acts + more == acts;
    } else {
      var u := Next(states[|acts|], more[0]).value;
      longer := RunOn(states + [u], acts + [more[0]], more[1..], t);
      assert acts + [more[0]] + more[1..] == acts + more;
    }
  }

  /** Every run over bytes stands for a run over frames: after each move, a state of such a run represents the wire. */
  lemma {:induction false} WireRunIsRun(wires: seq<Wire>, moves: seq<Move>, n: nat)
    returns (states: seq<State>, acts: seq<Action>)
    requires WireRun(wires, moves) && n <= |moves|
    ensures Run(states, acts) && Represents(wires[n], states[|acts|])
  {
    if n == 0 {
      states, acts := [Initial], [];
      StartRepresents(wires[0]);
    } else {
      hide After, Represents, Reached, Run;
      var before, done := WireRunIsRun(wires, moves, n - 1);
      assert After(wires[n - 1], moves[n - 1]) == Some(wires[n - 1 + 1]);
      var more, t := MoveSimulates(wires[n - 1], before[|done|], moves[n - 1], wires[n]);
      states := RunOn(before, done, more, t);
      acts := done + more;
    }
  }

  /** What the far end is left with when it drops a body whose sequence number equals that of the one before. */
  function WithoutRepeats(bodies: seq<seq<byte>>): seq<seq<byte>> {
    if bodies == [] then []
    else
      var body, before := bodies[|bodies| - 1], bodies[..|bodies| - 1];
      if before != [] && AckSeqno(before[|before| - 1]) == AckSeqno(body) then WithoutRepeats(before)
      else WithoutRepeats(before) + [if |body| >= 3 then body[3..] else []]
  }

  lemma {:induction false} WithoutRepeatsIsDistinct(frames: seq<Sent>)
    ensures WithoutRepeats(SentBodies(frames)) == Distinct(frames)
  {
    if frames != [] {
      var before := frames[..|frames| - 1];
      assert SentBodies(frames)[..|frames| - 1] == SentBodies(before);
      WithoutRepeatsIsDistinct(before);
    }
  }

  /** What the far end has got of the messages written. */
  ghost predicate ExactlyOnce(w: Wire) {
    var got, k := WithoutRepeats(w.accepted), |w.messages|;
    if w.busy then k > 0 && (got == w.messages || got == w.messages[..k - 1])
    else
      && got == w.messages
      && (k > 0 ==> w.accepted != [] && w.accepted[|w.accepted| - 1] == DataBody(Seqno(k), w.messages[k - 1]))
  }

  /**
   Over bytes and silences: whenever no write is in progress, what the far end has read off the line,
   less repeated sequence numbers, is exactly the messages written, each once and in order, and the
   last body it read is that of the last message; during a write at most the last message is missing.
   */
  lemma BytesExactlyOnceInOrder(wires: seq<Wire>, moves: seq<Move>, n: nat)
    requires WireRun(wires, moves) && n <= |moves|
    ensures |wires| == |moves| + 1 && ExactlyOnce(wires[n])
  {
    hide ExactlyOnce, Represents, Run, Inv, After;
    var states, acts := WireRunIsRun(wires, moves, n);
    RunHasLast(states, acts);
    InvAlways(states, acts, |acts|);
    RepresentedOnce(wires[n], states[|acts|]);
  }

  lemma RepresentedOnce(w: Wire, s: State)
    requires Represents(w, s) && Inv(s)
    ensures ExactlyOnce(w)
  {
    hide Distinct, DataInOrder, AcksInOrder, Carries, WithoutRepeats;
    WithoutRepeatsIsDistinct(s.accepted);
    assert s.messages[..|s.messages|] == s.messages;
    if !s.busy && s.messages != [] {
      assert Genuine(s.messages, s.accepted[|s.accepted| - 1]);
    }
  }

  lemma RunHasLast(states: seq<State>, acts: seq<Action>)
    requires Run(states, acts)
    ensures |states| == |acts| + 1
  {
  }

  // ---------- A way out ----------

  predicate Undisturbed(m: Move) {
    m == Resend(true) || m == FarRead(true) || m == HostRead
  }

  lemma {:induction false} ReachedKeepsInv(s: State, acts: seq<Action>, t: State)
    requires Inv(s) && Reached(s, acts, t)
    ensures Inv(t)
    decreases |acts|
  {
    hide Inv, Next;
    if acts != [] {
      StepKeepsInv(s, acts[0], Next(s, acts[0]).value);
      ReachedKeepsInv(Next(s, acts[0]).value, acts[1..], t);
    }
  }

  lemma WirePathCons(w: Wire, m: Move, wires: seq<Wire>, moves: seq<Move>)
    requires WirePath(wires, moves) && After(w, m) == Some(wires[0])
    ensures WirePath([w] + wires, [m] + moves)
  {
    hide After;
    forall i | 0 <= i < |moves| + 1
      ensures After(([w] + wires)[i], ([m] + moves)[i]) == Some(([w] + wires)[i + 1])
    {
      assert i > 0 ==> After(wires[i - 1], moves[i - 1]) == Some(wires[i]);
    }
  }

  // Both lines are empty: send, read there, read here.
  lemma FromEmptyLines(w: Wire) returns (wires: seq<Wire>, moves: seq<Move>)
    requires w.busy && w.messages != [] && w.toMote == [] && w.toHost == []
    ensures WirePath(wires, moves) && wires[0] == w
    ensures forall i :: 0 <= i < |moves| ==> Undisturbed(moves[i])
    ensures !wires[|moves|].busy && wires[|moves|].messages == w.messages
  {
    hide Read, Frame, AsEvents;
    var k := |w.messages|;
    var body := DataBody(Seqno(k), w.messages[k - 1]);
    var sent := w.(toMote := AsEvents(Frame(body)));
    var read := sent.(toMote := [], accepted := w.accepted + [body], toHost := AsEvents(Frame(AckFor(body))));
    var done := read.(toHost := [], busy := false);
    ReadAlone(body);
    ReadAlone(AckFor(body));
    assert [] + AsEvents(Frame(body)) == AsEvents(Frame(body));
    assert [] + AsEvents(Frame(AckFor(body))) == AsEvents(Frame(AckFor(body)));
    assert After(w, Resend(true)) == Some(sent);
    assert After(sent, FarRead(true)) == Some(read);
    assert After(read, HostRead) == Some(done);
    wires, moves := [w, sent, read, done], [Resend(true), FarRead(true), HostRead];
  }

  lemma ReadAlone(body: seq<byte>)
    ensures Read(AsEvents(Frame(body))) == Outcome(Some(Received(body, true)), [])
  {
    hide Read, Frame;
    ReadFrame(body, []);
    assert AsEvents(Frame(body)) + [] == AsEvents(Frame(body));
  }

  lemma {:induction false} ClearLines(w: Wire, s: State) returns (wires: seq<Wire>, moves: seq<Move>)
    requires Represents(w, s) && Inv(s) && w.busy
    ensures WirePath(wires, moves) && wires[0] == w
    ensures forall i :: 0 <= i < |moves| ==> Undisturbed(moves[i])
    ensures !wires[|moves|].busy && wires[|moves|].messages == w.messages
    decreases |w.toMote|, |w.toHost|
  {
    hide Inv, Carries, Read, Frame, Reached, Next;
    BusyHasMessage(s);
    if w.toMote == [] && w.toHost == [] {
      wires, moves := FromEmptyLines(w);
    } else {
      var m := if w.toHost != [] then HostRead else FarRead(true);
      var v := After(w, m).value;
      hide Represents;
      var acts, t := MoveSimulates(w, s, m, v);
      ReachedKeepsInv(s, acts, t);
      wires, moves := [v], [];
      if v.busy {
        wires, moves := ClearLines(v, t);
      }
      hide After;
      WirePathCons(w, m, wires, moves);
      wires, moves := [w] + wires, [m] + moves;
    }
  }

  /** From every state of every run, whatever is on the lines, a write completes once nothing disturbs it. */
  lemma WriteCanComplete(wires: seq<Wire>, moves: seq<Move>, n: nat) returns (more: seq<Wire>, undisturbed: seq<Move>)
    requires WireRun(wires, moves) && n <= |moves| && wires[n].busy
    ensures WirePath(more, undisturbed) && more[0] == wires[n]
    ensures forall i :: 0 <= i < |undisturbed| ==> Undisturbed(undisturbed[i])
    ensures !more[|undisturbed|].busy && more[|undisturbed|].messages == wires[n].messages
  {
    hide Represents, Run;
    var states, acts := WireRunIsRun(wires, moves, n);
    RunHasLast(states, acts);
    InvAlways(states, acts, |acts|);
    more, undisturbed := ClearLines(wires[n], states[|acts|]);
  }
}
