/**
 The acknowledged sender: one message at a time, resent until the acknowledgement with its 8-bit
 sequence number comes back.

 `State` holds the sender's side, the frames under way and the far end.  A step is a move of the
 sender or of its environment: links that deliver in order but may drop any frame, a far end that
 accepts the data frames it receives and answers each with an acknowledgement carrying the frame's
 sequence number, other traffic towards the host, and silences at any time.  The number `idx` of
 the message a frame belongs to is not on the wire: it is there to say what the protocol is for.
 */
module StopAndWait {
  import opened Basics
  import opened Crc
  import opened Hdlc

  const SERIAL_PROTO_ACK: byte := 67

  datatype Sent = Sent(idx: nat, body: seq<byte>)
  datatype Back = Back(idx: nat, body: seq<byte>)

  /** `messages` are all messages ever given to the blocking `AM.write`; `busy`: it has not returned. */
  datatype State = State(
    messages: seq<seq<byte>>,
    busy: bool,
    toMote: seq<Sent>,
    toHost: seq<Back>,
    accepted: seq<Sent>)

  datatype Action =
    | Begin(message: seq<byte>)
    | Send
    | Deliver
    | LoseData(at: nat)
    | LoseBack(at: nat)
    | Accept
    | Chatter(body: seq<byte>)

  const Initial := State([], false, [], [], [])

  // ---------- Frames ----------

  /** The sequence number of the n-th message: a byte counter that wraps at 256. */
  function Seqno(n: nat): byte {
    if n == 0 then 0 else Seqno(n - 1) + 1
  }

  // `AckFrame` takes the first byte as protocol and the second as seqno; missing bytes read as 0.
  function Protocol(body: seq<byte>): byte {
    if |body| > 0 then body[0] else 0
  }

  function AckSeqno(body: seq<byte>): byte {
    if |body| > 1 then body[1] else 0
  }

  predicate IsAck(b: Back) {
    Protocol(b.body) == SERIAL_PROTO_ACK
  }

  // ---------- Steps ----------

  function Without<T>(s: seq<T>, at: nat): seq<T>
    requires at < |s|
  {
    s[..at] + s[at + 1..]
  }

  function Next(s: State, a: Action): Option<State> {
    match a
    case Begin(message) =>
      if s.busy then None else Some(s.(messages := s.messages + [message], busy := true))
    case Send =>
      if !s.busy || s.messages == [] then None
      else
        var n := |s.messages|;
        Some(s.(toMote := s.toMote + [Sent(n, DataBody(Seqno(n), s.messages[n - 1]))]))
    case Deliver =>
      if s.toHost == [] then None
      else
        var f := s.toHost[0];
        var mine := s.busy && IsAck(f) && AckSeqno(f.body) == Seqno(|s.messages|);
        Some(s.(toHost := s.toHost[1..], busy := s.busy && !mine))
    case LoseData(at) =>
      if at < |s.toMote| then Some(s.(toMote := Without(s.toMote, at))) else None
    case LoseBack(at) =>
      if at < |s.toHost| then Some(s.(toHost := Without(s.toHost, at))) else None
    case Accept =>
      if s.toMote == [] then None
      else
        var f := s.toMote[0];
        var ack := Back(f.idx, [SERIAL_PROTO_ACK, if |f.body| > 1 then f.body[1] else 0]);
        Some(s.(toMote := s.toMote[1..], accepted := s.accepted + [f], toHost := s.toHost + [ack]))
    case Chatter(body) =>
      if Protocol(body) == SERIAL_PROTO_ACK then None else Some(s.(toHost := s.toHost + [Back(0, body)]))
  }

  ghost predicate Path(states: seq<State>, acts: seq<Action>) {
    && |states| == |acts| + 1
    && forall i :: 0 <= i < |acts| ==> Next(states[i], acts[i]) == Some(states[i + 1])
  }

  ghost predicate Run(states: seq<State>, acts: seq<Action>) {
    Path(states, acts) && states[0] == Initial
  }

  // ---------- The invariant ----------

  // The number of the last message the far end has accepted.
  function LastAccepted(s: State): nat {
    if s.accepted == [] then 0 else s.accepted[|s.accepted| - 1].idx
  }

  // The lowest number an acknowledgement under way can have.
  function Floor(s: State): int {
    if s.busy then |s.messages| - 1 else |s.messages|
  }

  ghost predicate Genuine(messages: seq<seq<byte>>, f: Sent) {
    && 1 <= f.idx <= |messages|
    && f.body == DataBody(Seqno(f.idx), messages[f.idx - 1])
  }

  ghost predicate GenuineAck(f: Back) {
    f.body == [SERIAL_PROTO_ACK, Seqno(f.idx)]
  }

  // Data frames under way: genuine, in order, none older than what was last accepted.
  ghost predicate DataInOrder(messages: seq<seq<byte>>, last: nat, toMote: seq<Sent>) {
    && (forall i :: 0 <= i < |toMote| ==> Genuine(messages, toMote[i]) && toMote[i].idx >= last)
    && (forall i, j :: 0 <= i < j < |toMote| ==> toMote[i].idx <= toMote[j].idx)
  }

  // Acknowledgements under way: genuine, in order, from `floor` to `last`.
  ghost predicate AcksInOrder(floor: int, last: nat, toHost: seq<Back>) {
    && (forall i :: 0 <= i < |toHost| && IsAck(toHost[i]) ==> GenuineAck(toHost[i]) && floor <= toHost[i].idx <= last)
    && (forall i, j :: 0 <= i < j < |toHost| && IsAck(toHost[i]) && IsAck(toHost[j]) ==> toHost[i].idx <= toHost[j].idx)
  }

  ghost predicate AllGenuine(messages: seq<seq<byte>>, frames: seq<Sent>) {
    forall i :: 0 <= i < |frames| ==> Genuine(messages, frames[i])
  }

  ghost predicate Inv(s: State) {
    && (s.busy ==> s.messages != [])
    && Floor(s) <= LastAccepted(s) <= |s.messages|
    && DataInOrder(s.messages, LastAccepted(s), s.toMote)
    && AcksInOrder(Floor(s), LastAccepted(s), s.toHost)
    && AllGenuine(s.messages, s.accepted)
    && Delivered(s) == s.messages[..LastAccepted(s)]
  }

  /** What the far end is left with when it drops a frame whose seqno equals that of the one before. */
  function Distinct(frames: seq<Sent>): seq<seq<byte>> {
    if frames == [] then []
    else
      var f, before := frames[|frames| - 1], frames[..|frames| - 1];
      if before != [] && SeqnoOf(before[|before| - 1]) == SeqnoOf(f) then Distinct(before)
      else Distinct(before) + [PayloadOf(f)]
  }

  function SeqnoOf(f: Sent): byte {
    if |f.body| > 1 then f.body[1] else 0
  }

  function PayloadOf(f: Sent): seq<byte> {
    if |f.body| >= 3 then f.body[3..] else []
  }

  function Delivered(s: State): seq<seq<byte>> {
    Distinct(s.accepted)
  }

  lemma SeqnoTellsNeighbours(m: nat, n: nat)
    requires m <= n <= m + 1
    ensures Seqno(m) == Seqno(n) <==> m == n
  {
  }

  // ---------- Every step keeps the invariant ----------

  lemma MoreMessages(messages: seq<seq<byte>>, message: seq<byte>, last: nat, toMote: seq<Sent>, accepted: seq<Sent>)
    requires DataInOrder(messages, last, toMote) && AllGenuine(messages, accepted)
    ensures DataInOrder(messages + [message], last, toMote) && AllGenuine(messages + [message], accepted)
  {
    forall f | Genuine(messages, f)
      ensures Genuine(messages + [message], f)
    {
    }
  }

  lemma InvBegin(s: State, t: State, message: seq<byte>)
    requires Inv(s) && Next(s, Begin(message)) == Some(t)
    ensures Inv(t)
  {
    hide DataInOrder, AcksInOrder, AllGenuine, Distinct;
    MoreMessages(s.messages, message, LastAccepted(s), s.toMote, s.accepted);
    assert t.messages[..LastAccepted(t)] == s.messages[..LastAccepted(s)];
  }

  lemma DataSent(messages: seq<seq<byte>>, last: nat, toMote: seq<Sent>, f: Sent)
    requires DataInOrder(messages, last, toMote) && last <= |messages|
    requires Genuine(messages, f) && f.idx == |messages|
    ensures DataInOrder(messages, last, toMote + [f])
  {
    assert forall i :: 0 <= i < |toMote| ==> Genuine(messages, toMote[i]);
  }

  lemma InvSend(s: State, t: State)
    requires Inv(s) && Next(s, Send) == Some(t)
    ensures Inv(t)
  {
    hide DataInOrder, AcksInOrder, AllGenuine, Distinct;
    DataSent(s.messages, LastAccepted(s), s.toMote, t.toMote[|s.toMote|]);
  }

  lemma DataLost(messages: seq<seq<byte>>, last: nat, toMote: seq<Sent>, at: nat)
    requires at < |toMote| && DataInOrder(messages, last, toMote)
    ensures DataInOrder(messages, last, Without(toMote, at))
  {
  }

  lemma InvLoseData(s: State, t: State, at: nat)
    requires Inv(s) && Next(s, LoseData(at)) == Some(t)
    ensures Inv(t)
  {
    hide DataInOrder, AcksInOrder, AllGenuine, Distinct;
    DataLost(s.messages, LastAccepted(s), s.toMote, at);
  }

  lemma BackLost(floor: int, last: nat, toHost: seq<Back>, at: nat)
    requires at < |toHost| && AcksInOrder(floor, last, toHost)
    ensures AcksInOrder(floor, last, Without(toHost, at))
  {
  }

  lemma InvLoseBack(s: State, t: State, at: nat)
    requires Inv(s) && Next(s, LoseBack(at)) == Some(t)
    ensures Inv(t)
  {
    hide DataInOrder, AcksInOrder, AllGenuine, Distinct;
    BackLost(Floor(s), LastAccepted(s), s.toHost, at);
  }

  lemma BackSent(floor: int, last: nat, last': nat, toHost: seq<Back>, f: Back)
    requires AcksInOrder(floor, last, toHost) && last <= last'
    requires IsAck(f) ==> GenuineAck(f) && floor <= f.idx == last'
    ensures AcksInOrder(floor, last', toHost + [f])
  {
  }

  lemma InvChatter(s: State, t: State, body: seq<byte>)
    requires Inv(s) && Next(s, Chatter(body)) == Some(t)
    ensures Inv(t)
  {
    hide DataInOrder, AcksInOrder, AllGenuine, Distinct;
    BackSent(Floor(s), LastAccepted(s), LastAccepted(s), s.toHost, Back(0, body));
  }

  // The acknowledgement the sender waits for can only be for the current message.
  lemma MatchingAckIsCurrent(s: State)
    requires Inv(s) && s.busy && s.toHost != [] && IsAck(s.toHost[0])
    requires AckSeqno(s.toHost[0].body) == Seqno(|s.messages|)
    ensures s.toHost[0].idx == |s.messages| == LastAccepted(s)
  {
    hide DataInOrder, AllGenuine, Distinct;
    assert GenuineAck(s.toHost[0]);
    SeqnoTellsNeighbours(s.toHost[0].idx, |s.messages|);
  }

  lemma BackTaken(floor: int, last: nat, toHost: seq<Back>)
    requires toHost != [] && AcksInOrder(floor, last, toHost)
    ensures AcksInOrder(floor, last, toHost[1..])
    ensures IsAck(toHost[0]) ==> AcksInOrder(toHost[0].idx, last, toHost[1..])
  {
  }

  lemma InvDeliver(s: State, t: State)
    requires Inv(s) && Next(s, Deliver) == Some(t)
    ensures Inv(t)
  {
    BackTaken(Floor(s), LastAccepted(s), s.toHost);
    if s.busy && IsAck(s.toHost[0]) && AckSeqno(s.toHost[0].body) == Seqno(|s.messages|) {
      MatchingAckIsCurrent(s);
    }
    hide DataInOrder, AcksInOrder, AllGenuine, Distinct;
  }

  // What the far end accepts is the last message again or the next one.
  lemma AcceptDistinct(s: State, t: State)
    requires Inv(s) && Next(s, Accept) == Some(t)
    ensures LastAccepted(t) == s.toMote[0].idx
    ensures Delivered(t) == t.messages[..LastAccepted(t)]
  {
    var f := s.toMote[0];
    assert Genuine(s.messages, f);
    assert t.accepted[..|t.accepted| - 1] == s.accepted;
    var n := LastAccepted(s);
    SeqnoTellsNeighbours(n, f.idx);
    assert PayloadOf(f) == s.messages[f.idx - 1];
    if s.accepted != [] {
      assert Genuine(s.messages, s.accepted[|s.accepted| - 1]);
    }
    if f.idx == n + 1 {
      assert s.messages[..n + 1] == s.messages[..n] + [s.messages[n]];
    }
  }

  lemma DataTaken(messages: seq<seq<byte>>, last: nat, toMote: seq<Sent>)
    requires toMote != [] && DataInOrder(messages, last, toMote)
    ensures Genuine(messages, toMote[0]) && toMote[0].idx >= last
    ensures DataInOrder(messages, toMote[0].idx, toMote[1..])
  {
  }

  lemma InvAccept(s: State, t: State)
    requires Inv(s) && Next(s, Accept) == Some(t)
    ensures Inv(t)
  {
    AcceptDistinct(s, t);
    hide Distinct;
    DataTaken(s.messages, LastAccepted(s), s.toMote);
    var f := s.toMote[0];
    BackSent(Floor(s), LastAccepted(s), f.idx, s.toHost, t.toHost[|s.toHost|]);
    assert AllGenuine(t.messages, t.accepted);
    hide DataInOrder, AcksInOrder, AllGenuine;
  }

  lemma StepKeepsInv(s: State, a: Action, t: State)
    requires Inv(s) && Next(s, a) == Some(t)
    ensures Inv(t)
  {
    hide Inv, Next;
    match a
    case Begin(message) => InvBegin(s, t, message);
    case Send => InvSend(s, t);
    case Deliver => InvDeliver(s, t);
    case LoseData(at) => InvLoseData(s, t, at);
    case LoseBack(at) => InvLoseBack(s, t, at);
    case Accept => InvAccept(s, t);
    case Chatter(body) => InvChatter(s, t, body);
  }

  // ---------- Whole runs ----------

  lemma {:induction false} InvAlways(states: seq<State>, acts: seq<Action>, n: nat)
    requires Run(states, acts) && n < |states|
    ensures Inv(states[n])
  {
    if n > 0 {
      InvAlways(states, acts, n - 1);
      hide Inv, Next;
      assert Next(states[n - 1], acts[n - 1]) == Some(states[n - 1 + 1]);
      StepKeepsInv(states[n - 1], acts[n - 1], states[n]);
    }
  }

  /** Every frame and acknowledgement under way belongs to the current message or the one before it. */
  lemma OnlyNeighboursUnderWay(states: seq<State>, acts: seq<Action>, n: nat)
    requires Run(states, acts) && n < |states|
    ensures var s := states[n];
            && (forall i :: 0 <= i < |s.toMote| ==> |s.messages| - 1 <= s.toMote[i].idx <= |s.messages|)
            && (forall i :: 0 <= i < |s.toHost| && IsAck(s.toHost[i]) ==>
                  |s.messages| - 1 <= s.toHost[i].idx <= |s.messages|)
  {
    InvAlways(states, acts, n);
    var s := states[n];
    forall i | 0 <= i < |s.toMote|
      ensures |s.messages| - 1 <= s.toMote[i].idx <= |s.messages|
    {
      assert Genuine(s.messages, s.toMote[i]);
    }
  }

  /**
   Whenever no write is in progress, the far end, dropping repeats of the sequence number, holds
   exactly the messages written, each once and in order; during a write, at most the last is missing.
   */
  lemma ExactlyOnceInOrder(states: seq<State>, acts: seq<Action>, n: nat)
    requires Run(states, acts) && n < |states|
    ensures var s := states[n];
            && (!s.busy ==> Delivered(s) == s.messages)
            && (s.busy ==> s.messages != []
                           && (Delivered(s) == s.messages || Delivered(s) == s.messages[..|s.messages| - 1]))
  {
    InvAlways(states, acts, n);
    hide Distinct;
    var s := states[n];
    assert s.messages[..|s.messages|] == s.messages;
  }

  /** A write returns only after the far end has accepted its message. */
  lemma ReturnedMeansAccepted(states: seq<State>, acts: seq<Action>, n: nat)
    requires Run(states, acts) && n < |acts|
    requires states[n].busy && !states[n + 1].busy
    ensures var s := states[n];
            && acts[n] == Deliver
            && s.messages != [] && s.accepted != []
            && var last := s.accepted[|s.accepted| - 1];
               last.idx == |s.messages| && PayloadOf(last) == s.messages[|s.messages| - 1]
  {
    InvAlways(states, acts, n);
    hide Distinct;
    var s := states[n];
    assert Next(s, acts[n]) == Some(states[n + 1]);
    MatchingAckIsCurrent(s);
    assert Genuine(s.messages, s.accepted[|s.accepted| - 1]);
  }

  predicate Lossless(a: Action) {
    a.Send? || a.Accept? || a.Deliver?
  }

  lemma PathCons(s: State, a: Action, states: seq<State>, acts: seq<Action>)
    requires Path(states, acts) && Next(s, a) == Some(states[0])
    ensures Path([s] + states, [a] + acts)
  {
    forall i | 0 <= i < |acts| + 1
      ensures Next(([s] + states)[i], ([a] + acts)[i]) == Some(([s] + states)[i + 1])
    {
      assert i > 0 ==> Next(states[i - 1], acts[i - 1]) == Some(states[i]);
    }
  }

  /** A write never gets stuck: from any state, a stretch without losses completes it. */
  lemma {:induction false} CanComplete(s: State) returns (states: seq<State>, acts: seq<Action>)
    requires Inv(s) && s.busy
    ensures Path(states, acts) && states[0] == s
    ensures forall i :: 0 <= i < |acts| ==> Lossless(acts[i])
    ensures !states[|acts|].busy && states[|acts|].messages == s.messages
    decreases |s.toHost| + 2 * |s.toMote|, s.toHost == [] && s.toMote == []
  {
    hide Inv;
    var a := if s.toHost != [] then Deliver else if s.toMote != [] then Accept else Send;
    var t := Next(s, a);
    BusyHasMessage(s);
    StepKeepsInv(s, a, t.value);
    var more: seq<State>, rest: seq<Action> := [t.value], [];
    if t.value.busy {
      if a == Send {
        more, rest := AnswerArrives(t.value);
      } else {
        more, rest := CanComplete(t.value);
      }
    }
    hide Next;
    PathCons(s, a, more, rest);
    states, acts := [s] + more, [a] + rest;
  }

  lemma BusyHasMessage(s: State)
    requires Inv(s)
    ensures s.busy ==> s.messages != []
  {
  }

  // The only frame under way is the current one: it is accepted and its answer ends the write.
  lemma AnswerArrives(s: State) returns (states: seq<State>, acts: seq<Action>)
    requires s.busy && s.messages != [] && s.toHost == [] && |s.toMote| == 1
    requires s.toMote[0].body == DataBody(Seqno(|s.messages|), s.messages[|s.messages| - 1])
    ensures Path(states, acts) && states[0] == s
    ensures forall i :: 0 <= i < |acts| ==> Lossless(acts[i])
    ensures !states[|acts|].busy && states[|acts|].messages == s.messages
  {
    var t := Next(s, Accept).value;
    var u := Next(t, Deliver).value;
    states, acts := [s, t, u], [Accept, Deliver];
  }
}
