/**
 The blocking write as a program: the retry loops of `SimpleAM.write` and `AM.write`, and the link
 they send on and read from.

 Every method keeps a run of the state machine of StopAndWait.dfy.  A log records what the program did
 and what it waited for, in order, and `Following` says of each entry what has to come next.
 */
module AckedWrite {
  import opened Basics
  import opened Crc
  import opened Hdlc
  import opened StopAndWait

  /**
   What the surroundings do while the host waits: a step of their own, the arrival of the next
   frame at the host, or a silence that lasts until the read times out.
   */
  datatype Happening = Surroundings(a: Action) | Arrival | Silent

  datatype ReadResult = Packet(body: seq<byte>) | TimedOut | StillWaiting

  /** Steps of the far end, of the links and of other senders. */
  predicate OfOthers(a: Action) {
    a.LoseData? || a.LoseBack? || a.Accept? || a.Chatter?
  }

  // ---------- The log ----------

  /** A happening the host waited for, a step of the run, or the arrival of a packet at the host. */
  datatype Item = Used(h: Happening) | Did(a: Action) | Took(body: seq<byte>)

  /** `st` is the state right after the item. */
  datatype Entry = Entry(item: Item, st: State)

  /** The state the entry says is the one its item leads to. */
  predicate Recorded(before: State, e: Entry) {
    match e.item
    case Used(_) => e.st == before
    case Did(a) => a != Deliver && Next(before, a) == Some(e.st)
    case Took(body) => before.toHost != [] && body == before.toHost[0].body && Next(before, Deliver) == Some(e.st)
  }

  function StateBefore(log: seq<Entry>, i: nat): State
    requires i <= |log|
  {
    if i == 0 then Initial else log[i - 1].st
  }

  ghost predicate Linked(log: seq<Entry>) {
    forall i :: 0 <= i < |log| ==> Recorded(StateBefore(log, i), log[i])
  }

  function Action1(e: Entry): seq<Action> {
    match e.item
    case Used(_) => []
    case Did(a) => [a]
    case Took(_) => [Deliver]
  }

  function Happening1(e: Entry): seq<Happening> {
    if e.item.Used? then [e.item.h] else []
  }

  function Actions(log: seq<Entry>): seq<Action> {
    if log == [] then [] else Action1(log[0]) + Actions(log[1..])
  }

  function Happenings(log: seq<Entry>): seq<Happening> {
    if log == [] then [] else Happening1(log[0]) + Happenings(log[1..])
  }

  lemma {:induction false} PartsConcat(a: seq<Entry>, b: seq<Entry>)
    ensures Actions(a + b) == Actions(a) + Actions(b)
    ensures Happenings(a + b) == Happenings(a) + Happenings(b)
  {
    hide Action1, Happening1;
    if a == [] {
      assert a + b == b;
    } else {
      assert (a + b)[1..] == a[1..] + b;
      PartsConcat(a[1..], b);
    }
  }

  lemma OneMore(log: seq<Entry>, e: Entry)
    ensures Actions(log + [e]) == Actions(log) + Action1(e)
    ensures Happenings(log + [e]) == Happenings(log) + Happening1(e)
  {
    hide Action1, Happening1;
    PartsConcat(log, [e]);
    assert [e][1..] == [];
  }

  // ---------- What comes next ----------

  datatype Rule = Must(item: Item) | Wait | Done

  /** An acknowledgement, and of the n-th message: a missing sequence number reads as 0. */
  predicate IsAckBody(body: seq<byte>) {
    |body| > 0 && body[0] == 67
  }

  predicate Acknowledges(body: seq<byte>, n: nat) {
    IsAckBody(body) && (if |body| > 1 then body[1] as int else 0) == n % 256
  }

  /**
   What comes next in a write: a message is sent when it has been given to `write`, after every
   timeout and after an acknowledgement of another message, and at no other time; otherwise the
   host waits for what happens, until the acknowledgement of its message arrives.
   */
  function Following(e: Entry): Rule {
    match e.item
    case Used(Silent) => Must(Did(Send))
    case Used(Arrival) => if e.st.toHost != [] then Must(Took(e.st.toHost[0].body)) else Wait
    case Used(Surroundings(a)) => if OfOthers(a) && Next(e.st, a).Some? then Must(Did(a)) else Wait
    case Did(a) => if a.Begin? then Must(Did(Send)) else Wait
    case Took(body) =>
      if !IsAckBody(body) then Wait else if Acknowledges(body, |e.st.messages|) then Done else Must(Did(Send))
  }

  predicate Allowed(e: Entry, f: Entry) {
    match Following(e)
    case Must(item) => f.item == item
    case Wait => f.item.Used?
    case Done => false
  }

  predicate AsAsked(log: seq<Entry>, i: nat) {
    0 < i < |log| && Allowed(log[i - 1], log[i])
  }

  /** From `k` on every entry is what the one before it asks for. */
  ghost predicate Continues(log: seq<Entry>, k: nat) {
    forall i :: k <= i < |log| ==> AsAsked(log, i)
  }

  function Last(log: seq<Entry>): Entry
    requires log != []
  {
    log[|log| - 1]
  }

  lemma ContinuesOn(log: seq<Entry>, k: nat, e: Entry)
    requires k <= |log| && log != [] && Continues(log, k) && Allowed(Last(log), e)
    ensures Continues(log + [e], k)
  {
    hide Allowed;
    forall i | k <= i < |log + [e]|
      ensures AsAsked(log + [e], i)
    {
      assert i < |log| ==> AsAsked(log, i);
    }
  }

  /** The sequence number on the wire is the number of the message modulo 256. */
  lemma {:induction false} SeqnoIs(n: nat)
    ensures Seqno(n) as int == n % 256
  {
    if n > 0 {
      SeqnoIs(n - 1);
      NextSeqno(Seqno(n - 1), n - 1);
    }
  }

  lemma NextSeqno(b: byte, n: nat)
    requires b as int == n % 256
    ensures (b + 1) as int == (n + 1) % 256
  {
    NextModulo(n);
    Wraps(b);
  }

  lemma NothingAdded(b: byte)
    ensures b + 0 == b
  {
  }

  lemma NextModulo(n: nat)
    ensures (n + 1) % 256 == if n % 256 == 255 then 0 else n % 256 + 1
  {
  }

  lemma Wraps(b: byte)
    ensures (b + 1) as int == if b as int == 255 then 0 else b as int + 1
  {
    if b == 255 {
    } else {
      NotLast(b);
      NoWrap(b);
    }
  }

  lemma NotLast(b: byte)
    requires b != 255
    ensures b as int < 255
  {
  }

  lemma NoWrap(b: byte)
    requires b as int < 255
    ensures (b + 1) as int == b as int + 1
  {
  }

  lemma AcknowledgesIff(body: seq<byte>, n: nat)
    ensures Acknowledges(body, n) <==> Protocol(body) == SERIAL_PROTO_ACK && AckSeqno(body) == Seqno(n)
    ensures IsAckBody(body) <==> Protocol(body) == SERIAL_PROTO_ACK
  {
    SeqnoIs(n);
    hide Seqno;
    SameByte(AckSeqno(body), Seqno(n));
  }

  lemma SameByte(a: byte, b: byte)
    ensures a as int == b as int ==> a == b
  {
  }

  // ---------- Sends and timeouts ----------

  predicate IsStranger(e: Entry) {
    e.item.Took? && IsAckBody(e.item.body) && !Acknowledges(e.item.body, |e.st.messages|)
  }

  function Sends(log: seq<Entry>): nat {
    if log == [] then 0 else (if log[0].item == Did(Send) then 1 else 0) + Sends(log[1..])
  }

  /** Reads that timed out. */
  function Timeouts(log: seq<Entry>): nat {
    if log == [] then 0 else (if log[0].item == Used(Silent) then 1 else 0) + Timeouts(log[1..])
  }

  /** Acknowledgements of messages other than the current one. */
  function Strangers(log: seq<Entry>): nat {
    if log == [] then 0 else (if IsStranger(log[0]) then 1 else 0) + Strangers(log[1..])
  }

  predicate AsksForSend(e: Entry) {
    Following(e) == Must(Did(Send))
  }

  lemma SendsAreAsked(e: Entry, f: Entry)
    requires Allowed(e, f)
    ensures f.item == Did(Send) <==> AsksForSend(e)
    ensures AsksForSend(f) <==> f.item == Used(Silent) || IsStranger(f)
  {
    hide Next;
  }

  /**
   A frame is sent for each timeout and each acknowledgement of another message, and never besides: of
   all those in the log only the last entry may still be waiting for its frame.
   */
  lemma {:induction false} OneSendEach(log: seq<Entry>, k: nat)
    requires 0 < k <= |log| && Continues(log, k)
    ensures Sends(log[k..]) + (if AsksForSend(Last(log)) then 1 else 0) ==
            (if AsksForSend(log[k - 1]) then 1 else 0) + Timeouts(log[k..]) + Strangers(log[k..])
    decreases |log| - k
  {
    if k == |log| {
      assert log[k..] == [];
    } else {
      assert AsAsked(log, k);
      SendsAreAsked(log[k - 1], log[k]);
      OneSendEach(log, k + 1);
      assert log[k..][0] == log[k] && log[k..][1..] == log[k + 1..];
      hide AsksForSend, Following, IsStranger, Allowed;
    }
  }

  /** `log` goes on from `was` as its entries ask for. */
  ghost predicate Extends(log: seq<Entry>, was: seq<Entry>) {
    was != [] && was <= log && Continues(log, |was|)
  }

  lemma ExtendsItself(log: seq<Entry>)
    requires log != []
    ensures Extends(log, log)
  {
  }

  lemma ExtendsOn(log: seq<Entry>, was: seq<Entry>, e: Entry)
    requires Extends(log, was) && Allowed(Last(log), e)
    ensures Extends(log + [e], was) && Last(log + [e]) == e
  {
    hide Allowed;
    ContinuesOn(log, |was|, e);
  }

  lemma ExtendsAcross(log: seq<Entry>, mid: seq<Entry>, was: seq<Entry>)
    requires Extends(mid, was) && Extends(log, mid)
    ensures Extends(log, was)
  {
    hide Allowed;
    forall i | |was| <= i < |log|
      ensures AsAsked(log, i)
    {
      assert i < |mid| ==> AsAsked(mid, i);
    }
  }

  // ---------- The log is determined ----------

  /** A write ends by the acknowledgement of its message, or still waits when nothing more happens. */
  ghost predicate Ended(log: seq<Entry>, left: seq<Happening>) {
    log != [] && (Following(Last(log)) == Done || (Following(Last(log)) == Wait && left == []))
  }

  lemma HeadOfTail<T>(s: seq<T>, k: nat)
    requires k < |s|
    ensures s[k..] == [s[k]] + s[k + 1..] && s[k..][0] == s[k] && s[k..][1..] == s[k + 1..]
  {
  }

  lemma SameItem(e: Entry, f: Entry, g: Entry)
    requires Allowed(e, f) && Allowed(e, g)
    ensures |Happening1(f)| == |Happening1(g)| && (Happening1(f) == Happening1(g) ==> f.item == g.item)
  {
    hide Next;
  }

  lemma SameState(before: State, f: Entry, g: Entry)
    requires Recorded(before, f) && Recorded(before, g) && f.item == g.item
    ensures f == g
  {
    hide Next;
  }

  lemma FrontsAgree<T>(h: seq<T>, x: seq<T>, s: seq<T>, i: seq<T>, y: seq<T>, t: seq<T>)
    requires |h| == |i| && (h + x) + s == (i + y) + t
    ensures h == i && x + s == y + t
  {
    assert (h + x) + s == h + (x + s) && (i + y) + t == i + (y + t);
    assert h == (h + (x + s))[..|h|] && i == (i + (y + t))[..|i|];
    assert x + s == (h + (x + s))[|h|..] && y + t == (i + (y + t))[|i|..];
  }

  lemma EntryAt(log: seq<Entry>, k: nat)
    requires 0 < k < |log| && Linked(log) && Continues(log, k)
    ensures Allowed(log[k - 1], log[k]) && Recorded(log[k - 1].st, log[k])
    ensures Happenings(log[k..]) == Happening1(log[k]) + Happenings(log[k + 1..])
  {
    HeadOfTail(log, k);
    assert AsAsked(log, k) && Recorded(StateBefore(log, k), log[k]);
  }

  // Two logs that agree before `k` and wait for the same happenings agree at `k`.
  lemma SameEntry(a: seq<Entry>, b: seq<Entry>, k: nat, left: seq<Happening>, left': seq<Happening>)
    requires 0 < k < |a| && k < |b| && a[k - 1] == b[k - 1]
    requires Linked(a) && Linked(b) && Continues(a, k) && Continues(b, k)
    requires Happenings(a[k..]) + left == Happenings(b[k..]) + left'
    ensures a[k] == b[k]
    ensures Happenings(a[k + 1..]) + left == Happenings(b[k + 1..]) + left'
  {
    hide *;
    EntryAt(a, k);
    EntryAt(b, k);
    SameItem(a[k - 1], a[k], b[k]);
    FrontsAgree(Happening1(a[k]), Happenings(a[k + 1..]), left, Happening1(b[k]), Happenings(b[k + 1..]), left');
    SameState(a[k - 1].st, a[k], b[k]);
  }

  // Where a write ends nothing may follow, and where it waits only a happening may.
  lemma WhatFollows(e: Entry, f: Entry)
    requires Allowed(e, f)
    ensures Following(e) != Done && (Following(e) == Wait ==> Happening1(f) != [])
  {
  }

  // A log that has ended does not go on where another with the same happenings has not.
  lemma EndsAlike(a: seq<Entry>, b: seq<Entry>, k: nat, left: seq<Happening>, left': seq<Happening>)
    requires 0 < k == |a| <= |b| && a[k - 1] == b[k - 1] && Linked(b) && Continues(b, k) && Ended(a, left)
    requires Happenings(b[k..]) + left' == left
    ensures |b| == k && left == left'
  {
    NothingAfter(b, left');
    hide Linked, Continues, Happenings, Allowed, Following;
    if |b| > k {
      EntryAt(b, k);
      WhatFollows(b[k - 1], b[k]);
    }
  }

  /** What a write does, and what it leaves of the script, follows from where it starts and what happens. */
  lemma {:induction false} LogIsDetermined(a: seq<Entry>, b: seq<Entry>, k: nat,
                                           left: seq<Happening>, left': seq<Happening>)
    requires 0 < k <= |a| && k <= |b| && a[..k] == b[..k]
    requires Linked(a) && Linked(b) && Continues(a, k) && Continues(b, k)
    requires Happenings(a[k..]) + left == Happenings(b[k..]) + left' && Ended(a, left) && Ended(b, left')
    ensures a == b && left == left'
    decreases |a| - k
  {
    hide Linked, Ended, Happenings, Allowed;
    assert a[k - 1] == a[..k][k - 1] == b[..k][k - 1] == b[k - 1];
    NothingAfter(a, left);
    NothingAfter(b, left');
    if |a| == k {
      EndsAlike(a, b, k, left, left');
      assert a[..k] == a && b[..k] == b;
    } else if |b| == k {
      EndsAlike(b, a, k, left', left);
    } else {
      SameEntry(a, b, k, left, left');
      assert a[..k + 1] == a[..k] + [a[k]] && b[..k + 1] == b[..k] + [b[k]];
      LogIsDetermined(a, b, k + 1, left, left');
    }
  }

  lemma NothingAfter(log: seq<Entry>, left: seq<Happening>)
    ensures Happenings(log[|log|..]) + left == left
  {
    assert log[|log|..] == [];
  }

  lemma FollowingKnown(e: Entry)
    ensures e.item == Used(Silent) ==> Following(e) == Must(Did(Send))
    ensures e.item == Used(Arrival) ==>
              Following(e) == if e.st.toHost != [] then Must(Took(e.st.toHost[0].body)) else Wait
    ensures e.item.Used? && e.item.h.Surroundings? ==>
              var a := e.item.h.a;
              Following(e) == if OfOthers(a) && Next(e.st, a).Some? then Must(Did(a)) else Wait
    ensures e.item.Did? ==> Following(e) == if e.item.a.Begin? then Must(Did(Send)) else Wait
    ensures e.item.Took? && !IsAckBody(e.item.body) ==> Following(e) == Wait
    ensures e.item.Took? && Acknowledges(e.item.body, |e.st.messages|) ==> Following(e) == Done
    ensures IsStranger(e) ==> Following(e) == Must(Did(Send))
    ensures OfOthers(Accept)
  {
    hide Next;
  }

  // ---------- The shortest way ----------

  // The entry at `k` exists, and is the one asked for.
  lemma GoesOn(log: seq<Entry>, k: nat, left: seq<Happening>)
    requires 0 < k <= |log| && Linked(log) && Continues(log, k) && Ended(log, left)
    requires Following(log[k - 1]) != Done && (Following(log[k - 1]) == Wait ==> Happenings(log[k..]) + left != [])
    ensures k < |log| && Allowed(log[k - 1], log[k]) && Recorded(log[k - 1].st, log[k])
    ensures Happenings(log[k..]) == Happening1(log[k]) + Happenings(log[k + 1..])
  {
    NothingAfter(log, left);
    hide Linked, Continues, Happenings, Allowed, Following;
    if k < |log| {
      EntryAt(log, k);
    }
  }

  lemma ContinuesLater(log: seq<Entry>, k: nat)
    requires Continues(log, k)
    ensures Continues(log, k + 1)
  {
  }

  lemma GoesOnBy(log: seq<Entry>, k: nat, left: seq<Happening>, item: Item)
    requires 0 < k <= |log| && Linked(log) && Continues(log, k) && Ended(log, left)
    requires Following(log[k - 1]) == Must(item) && !item.Used?
    ensures k < |log| && log[k].item == item
    ensures Next(log[k - 1].st, if item.Did? then item.a else Deliver) == Some(log[k].st)
    ensures Happenings(log[k + 1..]) + left == Happenings(log[k..]) + left && Continues(log, k + 1)
  {
    ContinuesLater(log, k);
    hide Linked, Continues, Happenings, Ended, Following, Next;
    GoesOn(log, k, left);
    assert [] + Happenings(log[k + 1..]) == Happenings(log[k + 1..]);
  }

  lemma WaitsFor(log: seq<Entry>, k: nat, left: seq<Happening>, h: Happening, more: seq<Happening>)
    requires 0 < k <= |log| && Linked(log) && Continues(log, k) && Ended(log, left)
    requires Following(log[k - 1]) == Wait && Happenings(log[k..]) + left == [h] + more
    ensures k < |log| && log[k].item == Used(h) && log[k].st == log[k - 1].st
    ensures Happenings(log[k + 1..]) + left == more && Continues(log, k + 1)
  {
    ContinuesLater(log, k);
    hide Linked, Continues, Happenings, Ended, Following, Next;
    GoesOn(log, k, left);
    FrontsAgree(Happening1(log[k]), Happenings(log[k + 1..]), left, [h], more, []);
    assert more + [] == more;
  }

  // The states on the way.
  lemma RoundTripStates(s: State)
    requires s.busy && s.messages != [] && s.toMote == [] && s.toHost == []
    ensures var n := |s.messages|;
            var f := Sent(n, DataBody(Seqno(n), s.messages[n - 1]));
            var sent := s.(toMote := [f]);
            var ack := [67, Seqno(n)];
            var answered := sent.(toMote := [], accepted := s.accepted + [f], toHost := [Back(n, ack)]);
            && Next(s, Send) == Some(sent) && Next(sent, Accept) == Some(answered)
            && Acknowledges(ack, n)
  {
    var n := |s.messages|;
    var f := Sent(n, DataBody(Seqno(n), s.messages[n - 1]));
    SeqnoIs(n);
    assert [] + [f] == [f] && [f][1..] == [];
    assert [] + [Back(n, [67, Seqno(n)])] == [Back(n, [67, Seqno(n)])];
  }

  lemma KeepsMessages(s: State, t: State)
    requires Next(s, Deliver) == Some(t)
    ensures t.messages == s.messages
  {
  }

  lemma SentAndAccepted(log: seq<Entry>, k: nat, more: seq<Happening>, left: seq<Happening>,
                        sent: State, answered: State)
    requires 0 < k <= |log| && Linked(log) && Continues(log, k) && Ended(log, left)
    requires log[k - 1].item.Did? && log[k - 1].item.a.Begin?
    requires Next(log[k - 1].st, Send) == Some(sent) && Next(sent, Accept) == Some(answered)
    requires Happenings(log[k..]) + left == [Surroundings(Accept)] + more
    ensures k + 2 < |log| && log[k + 2].item == Did(Accept) && log[k + 2].st == answered
    ensures Happenings(log[k + 3..]) + left == more && Continues(log, k + 3)
  {
    hide *;
    FollowingKnown(log[k - 1]);
    GoesOnBy(log, k, left, Did(Send));
    FollowingKnown(log[k]);
    WaitsFor(log, k + 1, left, Surroundings(Accept), more);
    FollowingKnown(log[k + 1]);
    GoesOnBy(log, k + 2, left, Did(Accept));
  }

  /** On silent links, an answer that comes at once ends the write, and nothing more of the script is used. */
  lemma AnsweredAtOnce(log: seq<Entry>, k: nat, more: seq<Happening>, left: seq<Happening>)
    requires 0 < k <= |log| && Linked(log) && Continues(log, k) && Ended(log, left)
    requires log[k - 1].item.Did? && log[k - 1].item.a.Begin?
    requires var s := log[k - 1].st; s.busy && s.messages != [] && s.toMote == [] && s.toHost == []
    requires Happenings(log[k..]) + left == [Surroundings(Accept), Arrival] + more
    ensures |log| == k + 5 && left == more && Following(Last(log)) == Done
    ensures AckBytes(Last(log).item, |log[k - 1].st.messages| % 256)
  {
    hide *;
    var s := log[k - 1].st;
    var n := |s.messages|;
    SeqnoIs(n);
    RoundTripStates(s);
    var f := Sent(n, DataBody(Seqno(n), s.messages[n - 1]));
    var sent := s.(toMote := [f]);
    var answered := sent.(toMote := [], accepted := s.accepted + [f], toHost := [Back(n, [67, Seqno(n)])]);
    assert [Surroundings(Accept), Arrival] + more == [Surroundings(Accept)] + ([Arrival] + more);
    SentAndAccepted(log, k, [Arrival] + more, left, sent, answered);
    FollowingKnown(log[k + 2]);
    WaitsFor(log, k + 3, left, Arrival, more);
    FollowingKnown(log[k + 3]);
    GoesOnBy(log, k + 4, left, Took([67, Seqno(n)]));
    KeepsMessages(log[k + 3].st, log[k + 4].st);
    FollowingKnown(log[k + 4]);
    EndsHere(log, k + 5, left);
    LastAt(log, k + 4);
    AckOf(Last(log).item, n);
  }

  lemma AckOf(item: Item, n: nat)
    requires item == Took([67, Seqno(n)])
    ensures AckBytes(item, n % 256)
  {
    SeqnoIs(n);
    hide Seqno;
  }

  lemma LastAt(log: seq<Entry>, k: nat)
    requires |log| == k + 1
    ensures Last(log) == log[k]
  {
  }

  lemma EndsHere(log: seq<Entry>, k: nat, left: seq<Happening>)
    requires 0 < k <= |log| && Linked(log) && Continues(log, k) && Following(log[k - 1]) == Done
    ensures |log| == k && Happenings(log[k..]) + left == left
  {
    NothingAfter(log, left);
    hide Linked, Continues, Happenings, Following, Allowed;
    if k < |log| {
      EntryAt(log, k);
      WhatFollows(log[k - 1], log[k]);
    }
  }

  // ---------- The link ----------

  /** The last entry of the log after a read. */
  predicate Shows(e: Entry, r: ReadResult) {
    match r
    case Packet(body) => e.item == Took(body)
    case TimedOut => e.item == Used(Silent)
    case StillWaiting => Following(e) == Wait
  }

  lemma MayFollow(e: Entry, f: Entry)
    requires Following(e) == Must(f.item) || (Following(e) == Wait && f.item.Used?)
    ensures Allowed(e, f)
  {
    hide Following;
  }

  lemma HeardNext(log: seq<Entry>, was: seq<Entry>, h: Happening, s: State)
    requires log != [] && Extends(log, was) && Following(Last(log)) == Wait
    ensures var e := Entry(Used(h), s);
            && Extends(log + [e], was) && Last(log + [e]) == e
            && (h == Silent ==> Shows(e, TimedOut))
            && (h == Arrival ==> Following(e) == if s.toHost != [] then Must(Took(s.toHost[0].body)) else Wait)
            && (h.Surroundings? ==>
                  Following(e) == if OfOthers(h.a) && Next(s, h.a).Some? then Must(Did(h.a)) else Wait)
  {
    var e := Entry(Used(h), s);
    assert h == Silent ==> Shows(e, TimedOut);
    hide *;
    FollowingKnown(e);
    MayFollow(Last(log), e);
    ExtendsOn(log, was, e);
  }

  lemma Handed(s: State)
    requires s.busy && s.toHost != []
    ensures Next(s, Deliver).Some?
    ensures var t := Next(s, Deliver).value;
            t.messages == s.messages && (t.busy <==> !Acknowledges(s.toHost[0].body, |s.messages|))
  {
    AcknowledgesIff(s.toHost[0].body, |s.messages|);
    hide Seqno, Acknowledges, IsAckBody, Protocol, AckSeqno;
  }

  lemma OthersMoved(s: State, a: Action)
    requires OfOthers(a) && Next(s, a).Some?
    ensures var t := Next(s, a).value; t.messages == s.messages && t.busy == s.busy && a != Deliver
  {
  }

  lemma TookNext(log: seq<Entry>, was: seq<Entry>, s: State)
    requires s.busy && s.toHost != [] && log != []
    requires Extends(log, was) && Following(Last(log)) == Must(Took(s.toHost[0].body))
    ensures Next(s, Deliver).Some?
    ensures var t, r := Next(s, Deliver).value, Packet(s.toHost[0].body);
            var e := Entry(Took(r.body), t);
            && Extends(log + [e], was) && Last(log + [e]) == e && Shows(e, r)
            && t.messages == s.messages && (t.busy <==> !Acknowledges(r.body, |t.messages|))
  {
    Handed(s);
    var e := Entry(Took(s.toHost[0].body), Next(s, Deliver).value);
    assert Shows(e, Packet(s.toHost[0].body));
    hide *;
    MayFollow(Last(log), e);
    ExtendsOn(log, was, e);
  }

  lemma OthersNext(log: seq<Entry>, was: seq<Entry>, s: State, a: Action)
    requires OfOthers(a) && Next(s, a).Some? && log != []
    requires Extends(log, was) && Following(Last(log)) == Must(Did(a))
    ensures var t := Next(s, a).value;
            var e := Entry(Did(a), t);
            && Extends(log + [e], was) && Last(log + [e]) == e && Following(e) == Wait
            && t.messages == s.messages && t.busy == s.busy && a != Deliver
  {
    var e := Entry(Did(a), Next(s, a).value);
    assert !a.Begin?;
    OthersMoved(s, a);
    hide *;
    FollowingKnown(e);
    MayFollow(Last(log), e);
    ExtendsOn(log, was, e);
  }

  // What the program knows of a packet when it has looked at it.
  predicate Told(e: Entry, r: ReadResult, n: nat) {
    Following(e) ==
    match r
    case TimedOut => Must(Did(Send))
    case StillWaiting => Wait
    case Packet(body) =>
      if Protocol(body) != SERIAL_PROTO_ACK then Wait
      else if AckSeqno(body) == Seqno(n) then Done
      else Must(Did(Send))
  }

  lemma Looked(e: Entry, r: ReadResult, n: nat)
    requires Shows(e, r) && n == |e.st.messages|
    ensures Told(e, r, n)
    ensures r.Packet? ==>
              (Acknowledges(r.body, n) <==> Protocol(r.body) == SERIAL_PROTO_ACK && AckSeqno(r.body) == Seqno(n))
  {
    if r.Packet? {
      AcknowledgesIff(r.body, n);
    }
    hide Seqno, Protocol, AckSeqno, Acknowledges, IsAckBody, Next;
  }

  lemma LinkedOn(log: seq<Entry>, e: Entry)
    requires Linked(log) && Recorded(StateBefore(log, |log|), e)
    ensures Linked(log + [e]) && StateBefore(log + [e], |log| + 1) == e.st
  {
    hide Recorded;
    forall i | 0 <= i < |log + [e]|
      ensures Recorded(StateBefore(log + [e], i), (log + [e])[i])
    {
      assert StateBefore(log + [e], i) == StateBefore(log, i);
      assert i < |log| ==> Recorded(StateBefore(log, i), log[i]);
    }
  }

  lemma StepLogged(log: seq<Entry>, s: State, a: Action, item: Item, t: State)
    requires Linked(log) && StateBefore(log, |log|) == s && Next(s, a) == Some(t)
    requires item == if a == Deliver then Took(s.toHost[0].body) else Did(a)
    ensures var longer := log + [Entry(item, t)];
            && Linked(longer) && StateBefore(longer, |longer|) == t
            && Actions(longer) == Actions(log) + [a] && Happenings(longer) == Happenings(log)
  {
    LinkedOn(log, Entry(item, t));
    OneMore(log, Entry(item, t));
    hide Next, Linked, Recorded, StateBefore;
    assert Happenings(log) + [] == Happenings(log);
  }

  lemma WaitLogged(log: seq<Entry>, s: State, h: Happening)
    requires Linked(log) && StateBefore(log, |log|) == s
    ensures var longer := log + [Entry(Used(h), s)];
            && Linked(longer) && StateBefore(longer, |longer|) == s
            && Actions(longer) == Actions(log) && Happenings(longer) == Happenings(log) + [h]
  {
    LinkedOn(log, Entry(Used(h), s));
    OneMore(log, Entry(Used(h), s));
    hide Next, Linked, Recorded, StateBefore;
    assert Actions(log) + [] == Actions(log);
  }

  lemma OneTaken<T>(a: seq<T>, b: seq<T>)
    requires b != []
    ensures (a + [b[0]]) + b[1..] == a + b
  {
  }

  predicate IsLast(messages: seq<seq<byte>>, message: seq<byte>) {
    messages != [] && messages[|messages| - 1] == message
  }

  lemma BeginIs(s: State, message: seq<byte>)
    requires !s.busy
    ensures var n := |s.messages|;
            && Next(s, Begin(message)) == Some(s.(messages := s.messages + [message], busy := true))
            && Seqno(|s.messages + [message]|) == Seqno(n) + 1 && IsLast(s.messages + [message], message)
  {
  }

  lemma SendIs(s: State, payload: seq<byte>)
    requires s.busy && IsLast(s.messages, payload)
    ensures var n := |s.messages|;
            Next(s, Send) == Some(s.(toMote := s.toMote + [Sent(n, DataBody(Seqno(n), payload))]))
  {
    hide Seqno;
  }

  lemma PathOn(states: seq<State>, acts: seq<Action>, a: Action, t: State)
    requires Run(states, acts) && Next(states[|acts|], a) == Some(t)
    ensures Run(states + [t], acts + [a]) && (states + [t])[|acts| + 1] == t
  {
    hide Next;
    var longer, more := states + [t], acts + [a];
    forall i | 0 <= i < |more|
      ensures Next(longer[i], more[i]) == Some(longer[i + 1])
    {
      assert i < |acts| ==> Next(states[i], acts[i]) == Some(states[i + 1]);
    }
  }

  /** The framed link and what is beyond it.  `states` and `acts` record the run, `log` the program's part in it. */
  class Network {
    var st: State
    var script: seq<Happening>
    ghost const given: seq<Happening>
    ghost var states: seq<State>
    ghost var acts: seq<Action>
    ghost var log: seq<Entry>

    ghost predicate Valid()
      reads this
    {
      && Run(states, acts) && states[|acts|] == st
      && Linked(log) && StateBefore(log, |log|) == st && Actions(log) == acts
      && Happenings(log) + script == given
    }

    // A read has just ended with this result.
    ghost predicate Ends(r: ReadResult)
      reads this
    {
      && Valid() && log != [] && Shows(Last(log), r) && Last(log).st == st
      && (r == StillWaiting ==> script == [])
      && (st.busy <==> !(r.Packet? && Acknowledges(r.body, |st.messages|)))
    }

    constructor (script: seq<Happening>)
      ensures Valid() && st == Initial && this.script == script && log == []
    {
      st := Initial;
      this.script := script;
      given := script;
      states, acts, log := [Initial], [], [];
      new;
      assert Happenings([]) + script == script;
    }

    lemma Parts()
      requires Valid()
      ensures Run(states, acts) && |states| == |acts| + 1 && states[|acts|] == st
      ensures Linked(log) && StateBefore(log, |log|) == st && Actions(log) == acts && Happenings(log) + script == given
    {
    }

    lemma Whole()
      requires Run(states, acts) && |states| == |acts| + 1 && states[|acts|] == st
      requires Linked(log) && StateBefore(log, |log|) == st && Actions(log) == acts && Happenings(log) + script == given
      ensures Valid()
    {
    }

    // A step of the run; `item` is what the log calls it.
    method Do(a: Action, ghost item: Item)
      requires Valid() && Next(st, a).Some?
      requires item == if a == Deliver then Took(st.toHost[0].body) else Did(a)
      modifies this`st, this`states, this`acts, this`log
      ensures Valid() && Next(old(st), a) == Some(st) && log == old(log) + [Entry(item, st)]
      ensures acts == old(acts) + [a] && states == old(states) + [st]
    {
      Parts();
      StepLogged(log, st, a, item, Next(st, a).value);
      hide *;
      var t := Next(st, a).value;
      PathOn(states, acts, a, t);
      st := t;
      states, acts, log := states + [t], acts + [a], log + [Entry(item, t)];
      Whole();
    }

    // The next happening.
    method Await() returns (h: Happening)
      requires Valid() && script != []
      modifies this`script, this`log
      ensures Valid() && h == old(script)[0] && script == old(script)[1..] && log == old(log) + [Entry(Used(h), st)]
    {
      Parts();
      hide *;
      h := script[0];
      WaitLogged(log, st, h);
      OneTaken(Happenings(log), script);
      script := script[1..];
      log := log + [Entry(Used(h), st)];
      Whole();
    }

    // History only: a new message is now being written.
    method BeginWrite(message: seq<byte>)
      requires Valid() && !st.busy
      modifies this`st, this`states, this`acts, this`log
      ensures Valid() && st == old(st).(messages := old(st.messages) + [message], busy := true)
      ensures log == old(log) + [Entry(Did(Begin(message)), st)]
      ensures Seqno(|st.messages|) == Seqno(|old(st.messages)|) + 1 && IsLast(st.messages, message)
    {
      BeginIs(st, message);
      hide *;
      Do(Begin(message), Did(Begin(message)));
    }

    method HdlcWrite(payload: seq<byte>, seqno: byte)
      requires Valid() && st.busy && IsLast(st.messages, payload) && seqno == Seqno(|st.messages|)
      modifies this`st, this`states, this`acts, this`log
      ensures Valid() && st == old(st).(toMote := st.toMote) && log == old(log) + [Entry(Did(Send), st)]
      ensures st.toMote == old(st.toMote) + [Sent(|st.messages|, DataBody(seqno, payload))]
    {
      SendIs(st, payload);
      hide *;
      Do(Send, Did(Send));
    }

    /**
     Waits for a packet; the surroundings go on meanwhile.  The packet is the oldest one under way,
     its arrival the only move of the host, and everything waited for is in the log.
     */
    method HdlcRead() returns (r: ReadResult)
      requires Valid() && st.busy && log != [] && Following(Last(log)) == Wait
      modifies this
      ensures Ends(r) && st.messages == old(st.messages)
      ensures Extends(log, old(log))
      ensures |script| <= |old(script)| && (|script| < |old(script)| || r == StillWaiting)
    {
      assert Last(log).st == st;
      hide *;
      ExtendsItself(log);
      while script != []
        invariant Valid() && st.busy && st.messages == old(st.messages) && |script| <= |old(script)|
        invariant log != [] && Extends(log, old(log)) && Following(Last(log)) == Wait && Last(log).st == st
        decreases |script|
      {
        ghost var was := log;
        var h := Await();
        HeardNext(was, old(log), h, st);
        match h
        case Silent =>
          Ended(TimedOut);
          return TimedOut;
        case Arrival =>
          if st.toHost != [] {
            r := Packet(st.toHost[0].body);
            TookNext(log, old(log), st);
            Do(Deliver, Took(st.toHost[0].body));
            Ended(r);
            return;
          }
        case Surroundings(a) =>
          if OfOthers(a) && Next(st, a).Some? {
            OthersNext(log, old(log), st, a);
            Do(a, Did(a));
          }
      }
      r := StillWaiting;
      Ended(r);
    }

    lemma Ended(r: ReadResult)
      requires Valid() && log != [] && Last(log).st == st
      requires if r == StillWaiting then script == [] && Following(Last(log)) == Wait else Shows(Last(log), r)
      requires st.busy <==> !(r.Packet? && Acknowledges(r.body, |st.messages|))
      ensures Ends(r)
    {
    }

    // What the result of a read tells about the log.
    lemma Tells(r: ReadResult)
      requires Ends(r)
      ensures Valid() && log != [] && Last(log).st == st && (r == StillWaiting ==> script == [])
      ensures Told(Last(log), r, |st.messages|)
      ensures st.busy <==>
              !(r.Packet? && Protocol(r.body) == SERIAL_PROTO_ACK && AckSeqno(r.body) == Seqno(|st.messages|))
    {
      Looked(Last(log), r, |st.messages|);
    }
  }

  // ---------- The write ----------

  lemma SentNext(log: seq<Entry>, e: Entry)
    requires log != [] && Following(Last(log)) == Must(Did(Send)) && e.item == Did(Send)
    ensures Extends(log + [e], log) && Last(log + [e]) == e && Following(e) == Wait
  {
    hide *;
    ExtendsItself(log);
    FollowingKnown(e);
    MayFollow(Last(log), e);
    ExtendsOn(log, log, e);
  }

  /** A write of this message is in progress. */
  ghost predicate Writing(st: State, log: seq<Entry>, seqno: byte, message: seq<byte>) {
    IsLast(st.messages, message) && seqno == Seqno(|st.messages|) && log != [] && Last(log).st == st
  }

  /** ... and it is to be sent, for the first time or again. */
  ghost predicate SendDue(st: State, log: seq<Entry>, seqno: byte, message: seq<byte>) {
    Writing(st, log, seqno, message) && st.busy && Following(Last(log)) == Must(Did(Send))
  }

  predicate NoOther(f: ReadResult) {
    f.Packet? ==> Protocol(f.body) == SERIAL_PROTO_ACK
  }

  lemma DueIs(st: State, log: seq<Entry>, seqno: byte, message: seq<byte>)
    requires SendDue(st, log, seqno, message)
    ensures st.busy && IsLast(st.messages, message) && seqno == Seqno(|st.messages|)
    ensures log != [] && Following(Last(log)) == Must(Did(Send)) && Writing(st, log, seqno, message)
  {
  }

  // The message and its number stay while the write goes on.
  lemma StillWriting(st: State, log: seq<Entry>, seqno: byte, message: seq<byte>, t: State, longer: seq<Entry>)
    requires Writing(st, log, seqno, message) && t.messages == st.messages && longer != [] && Last(longer).st == t
    ensures Writing(t, longer, seqno, message)
  {
  }

  /** A turn of sending and reading has ended with `f`. */
  ghost predicate Turned(st: State, log: seq<Entry>, seqno: byte, message: seq<byte>, f: ReadResult) {
    && Writing(st, log, seqno, message) && Told(Last(log), f, |st.messages|) && NoOther(f)
    && (st.busy <==> !(f.Packet? && AckSeqno(f.body) == seqno))
  }

  lemma TurnedIf(st: State, log: seq<Entry>, seqno: byte, message: seq<byte>, f: ReadResult)
    requires Writing(st, log, seqno, message) && Told(Last(log), f, |st.messages|)
    requires f.Packet? ==> Protocol(f.body) == SERIAL_PROTO_ACK
    requires st.busy <==>
             !(f.Packet? && Protocol(f.body) == SERIAL_PROTO_ACK && AckSeqno(f.body) == Seqno(|st.messages|))
    ensures Turned(st, log, seqno, message, f)
  {
    hide Told, Seqno, Protocol, AckSeqno;
  }

  lemma TimedOutAgain(st: State, log: seq<Entry>, seqno: byte, message: seq<byte>)
    requires Turned(st, log, seqno, message, TimedOut)
    ensures SendDue(st, log, seqno, message)
  {
    hide Following, Seqno;
  }

  /** The outcome of the outer loop: the acknowledgement was the right one, or not, or none has come. */
  ghost predicate Answered(st: State, log: seq<Entry>, seqno: byte, message: seq<byte>,
                           was: seq<Entry>, r: Option<bool>)
  {
    && Writing(st, log, seqno, message) && Extends(log, was)
    && Following(Last(log)) == (if r.None? then Wait else if r.value then Done else Must(Did(Send)))
    && (r == Some(true) <==> !st.busy)
  }

  lemma Finished(st: State, log: seq<Entry>, seqno: byte, message: seq<byte>, was: seq<Entry>, f: ReadResult)
    requires Turned(st, log, seqno, message, f) && f != TimedOut && Extends(log, was)
    ensures Answered(st, log, seqno, message, was, if f == StillWaiting then None else Some(AckSeqno(f.body) == seqno))
  {
    hide Extends, Following, Seqno, Protocol, AckSeqno;
  }

  lemma AnsweredIs(st: State, log: seq<Entry>, seqno: byte, message: seq<byte>, was: seq<Entry>, r: Option<bool>)
    requires Answered(st, log, seqno, message, was, r)
    ensures IsLast(st.messages, message) && seqno == Seqno(|st.messages|) && log != [] && Extends(log, was)
    ensures (r == Some(true) <==> !st.busy) && (r == Some(false) ==> SendDue(st, log, seqno, message))
    ensures Following(Last(log)) == if r.None? then Wait else if r.value then Done else Must(Did(Send))
  {
    hide Following, Seqno, Extends;
  }

  /** The log goes on with the message given to `write`, in the state that was. */
  ghost predicate GivenIn(log: seq<Entry>, was: seq<Entry>, st: State, message: seq<byte>) {
    log == was + [Entry(Did(Begin(message)), st.(messages := st.messages + [message], busy := true))]
  }

  lemma NowGiven(was: seq<Entry>, st: State, message: seq<byte>)
    ensures var e := Entry(Did(Begin(message)), st.(messages := st.messages + [message], busy := true));
            GivenIn(was + [e], was, st, message) && Last(was + [e]) == e
  {
  }

  lemma OtherIs(e: Entry, f: ReadResult, n: nat)
    requires Told(e, f, n) && f.Packet? && Protocol(f.body) != SERIAL_PROTO_ACK
    ensures Following(e) == Wait
  {
    hide Following, Seqno, Protocol, AckSeqno;
  }

  lemma EndedIf(log: seq<Entry>, script: seq<Happening>, done: bool)
    requires log != [] && Following(Last(log)) == if done then Done else Wait
    requires !done ==> script == []
    ensures Ended(log, script)
  {
    hide Following;
  }

  // The message has just been given to `write`.
  lemma Given(st: State, log: seq<Entry>, seqno: byte, message: seq<byte>)
    requires log != [] && Last(log) == Entry(Did(Begin(message)), st)
    requires IsLast(st.messages, message) && seqno == Seqno(|st.messages|) && st.busy
    ensures SendDue(st, log, seqno, message)
  {
    FollowingKnown(Last(log));
    hide Following, Seqno;
  }

  lemma AllDelivered(states: seq<State>, acts: seq<Action>, st: State)
    requires Run(states, acts) && |states| == |acts| + 1 && states[|acts|] == st && !st.busy
    ensures Delivered(st) == st.messages
  {
    hide Run, Delivered;
    ExactlyOnceInOrder(states, acts, |acts|);
  }

  lemma GivenIs(begun: seq<Entry>, was: seq<Entry>, st: State, message: seq<byte>)
    requires GivenIn(begun, was, st, message)
    ensures begun != [] && begun[|begun| - 1].item == Did(Begin(message)) && AsksForSend(begun[|begun| - 1])
    ensures var s := begun[|begun| - 1].st;
            && s.busy && s.messages != [] && |s.messages| == |st.messages| + 1
            && s.toMote == st.toMote && s.toHost == st.toHost
    ensures Happenings(begun) == Happenings(was)
  {
    OneMore(was, begun[|was|]);
    assert Happenings(was) + [] == Happenings(was);
  }

  lemma HappeningsSince(log: seq<Entry>, begun: seq<Entry>, script: seq<Happening>, script': seq<Happening>)
    requires begun <= log && Happenings(log) + script' == Happenings(begun) + script
    ensures Happenings(log[|begun|..]) + script' == script
  {
    var more := log[|begun|..];
    assert log == begun + more;
    PartsConcat(begun, more);
    hide Happenings;
    FrontsAgree(Happenings(begun), Happenings(more), script', Happenings(begun), script, []);
    assert script + [] == script;
  }

  /**
   What a write has done between `begun` and `log`: it has used up that much of the script, has sent one
   frame and another for each timeout and each acknowledgement of another message, and if its first
   frame was answered at once, that has ended it.
   */
  ghost predicate Kept(log: seq<Entry>, begun: seq<Entry>, st: State, script: seq<Happening>, script': seq<Happening>) {
    && begun <= log && log != []
    && Happenings(log[|begun|..]) + script' == script
    && Sends(log[|begun|..]) == 1 + Timeouts(log[|begun|..]) + Strangers(log[|begun|..])
    && (AtOnce(st, script) ==> AnswerTaken(log, st, script, script'))
  }

  /** Nothing is under way, and the first happenings are that the far end takes a frame and its answer arrives. */
  predicate AtOnce(st: State, script: seq<Happening>) {
    st.toMote == [] && st.toHost == [] && [Surroundings(Accept), Arrival] <= script
  }

  /** The write has returned with that answer, and used no more of the script. */
  predicate AnswerTaken(log: seq<Entry>, st: State, script: seq<Happening>, script': seq<Happening>)
    requires log != [] && AtOnce(st, script)
  {
    Following(Last(log)) == Done && script' == script[2..] && AckBytes(Last(log).item, (|st.messages| + 1) % 256)
  }

  /** The arrival of an acknowledgement with this sequence number. */
  predicate AckBytes(item: Item, n: nat) {
    item.Took? && |item.body| == 2 && item.body[0] == 67 && item.body[1] as int == n
  }

  lemma ExtendsIs(log: seq<Entry>, was: seq<Entry>)
    requires Extends(log, was)
    ensures was <= log && Continues(log, |was|) && 0 < |was| <= |log| && log[|was| - 1] == was[|was| - 1]
  {
    hide Continues;
  }

  lemma EndedIs(log: seq<Entry>, left: seq<Happening>)
    requires Ended(log, left)
    ensures log != [] && !AsksForSend(Last(log))
  {
    hide Following;
  }

  lemma TakenAtOnce(log: seq<Entry>, begun: seq<Entry>, was: seq<Entry>, st: State, message: seq<byte>,
                    script: seq<Happening>, script': seq<Happening>)
    requires GivenIn(begun, was, st, message) && Extends(log, begun) && Linked(log) && Ended(log, script')
    requires AtOnce(st, script) && Happenings(log[|begun|..]) + script' == script
    ensures log != [] && AnswerTaken(log, st, script, script')
  {
    hide *;
    var more := AtOnceIs(st, script);
    GivenIs(begun, was, st, message);
    ExtendsIs(log, begun);
    AnsweredAtOnce(log, |begun|, more, script');
    TakenIf(log, st, script, script');
  }

  lemma AtOnceIs(st: State, script: seq<Happening>) returns (more: seq<Happening>)
    requires AtOnce(st, script)
    ensures st.toMote == [] && st.toHost == [] && |script| >= 2 && more == script[2..]
    ensures script == [Surroundings(Accept), Arrival] + more
  {
    more := script[2..];
  }

  lemma TakenIf(log: seq<Entry>, st: State, script: seq<Happening>, script': seq<Happening>)
    requires log != [] && Following(Last(log)) == Done && AtOnce(st, script) && |script| >= 2 && script' == script[2..]
    requires AckBytes(Last(log).item, (|st.messages| + 1) % 256)
    ensures AnswerTaken(log, st, script, script')
  {
    hide Following, AckBytes;
  }

  // The end of a write, seen from its beginning.
  lemma WriteDone(log: seq<Entry>, begun: seq<Entry>, was: seq<Entry>, st: State, message: seq<byte>,
                  script: seq<Happening>, script': seq<Happening>)
    requires GivenIn(begun, was, st, message) && Extends(log, begun) && Linked(log)
    requires Happenings(log) + script' == Happenings(was) + script && Ended(log, script')
    ensures Kept(log, begun, st, script, script')
  {
    hide GivenIn, Happenings, Following, Linked, Continues, Ended, AsksForSend, Extends, AckBytes, AtOnce, AnswerTaken,
         Sends, Timeouts, Strangers;
    GivenIs(begun, was, st, message);
    ExtendsIs(log, begun);
    EndedIs(log, script');
    HappeningsSince(log, begun, script, script');
    OneSendEach(log, |begun|);
    if AtOnce(st, script) {
      TakenAtOnce(log, begun, was, st, message, script, script');
    }
  }

  class AM {
    const net: Network
    var seqno: byte

    ghost predicate Valid()
      reads this, net
    {
      net.Valid() && seqno == Seqno(|net.st.messages|)
    }

    constructor (net: Network)
      requires net.Valid() && net.st == Initial
      ensures Valid() && this.net == net
    {
      this.net := net;
      seqno := 0;
    }

    // The inner loop: hands packets that are no acknowledgement to the hook until one is, or none comes.
    method SkipOthers(first: seq<byte>) returns (f: ReadResult)
      requires net.Ends(Packet(first))
      modifies net
      ensures net.Ends(f) && net.st.messages == old(net.st.messages) && Extends(net.log, old(net.log))
      ensures f.Packet? ==> Protocol(f.body) == SERIAL_PROTO_ACK
      ensures |net.script| <= |old(net.script)|
    {
      net.Tells(Packet(first));
      hide Following, Extends, Told, Network.Ends, Continues, Seqno, AckSeqno, Protocol;
      f := Packet(first);
      ExtendsItself(net.log);
      while f.Packet? && Protocol(f.body) != SERIAL_PROTO_ACK
        invariant net.Ends(f) && net.st.messages == old(net.st.messages) && |net.script| <= |old(net.script)|
        invariant Extends(net.log, old(net.log))
        decreases |net.script|, f.Packet?
      {
        ghost var was := net.log;
        net.Tells(f);
        OtherIs(Last(net.log), f, |net.st.messages|);
        f := net.HdlcRead();
        ExtendsAcross(net.log, was, old(net.log));
      }
    }

    // One turn: sends, and reads until an acknowledgement or a timeout.
    method Turn(message: seq<byte>, ghost was: seq<Entry>) returns (f: ReadResult)
      requires net.Valid() && SendDue(net.st, net.log, seqno, message) && Extends(net.log, was)
      modifies net
      ensures net.Valid() && Turned(net.st, net.log, seqno, message, f) && Extends(net.log, was)
      ensures net.st.messages == old(net.st.messages)
      ensures if f == StillWaiting then net.script == [] else |net.script| < |old(net.script)|
    {
      hide *;
      ghost var due, before := net.st, net.log;
      DueIs(net.st, net.log, seqno, message);
      net.HdlcWrite(message, seqno);
      ghost var sent := net.log;
      SentNext(before, Entry(Did(Send), net.st));
      ExtendsAcross(sent, before, was);
      f := net.HdlcRead();
      ExtendsAcross(net.log, sent, was);
      if f.Packet? {
        ghost var heard := net.log;
        f := SkipOthers(f.body);
        ExtendsAcross(net.log, heard, was);
      }
      net.Tells(f);
      StillWriting(due, before, seqno, message, net.st, net.log);
      TurnedIf(net.st, net.log, seqno, message, f);
    }

    // The outer loop: sends, and sends again after every silence, until an acknowledgement comes.
    method SendUntilAnswered(message: seq<byte>) returns (r: Option<bool>)
      requires net.Valid() && SendDue(net.st, net.log, seqno, message)
      modifies net
      ensures net.Valid() && Answered(net.st, net.log, seqno, message, old(net.log), r)
      ensures net.st.messages == old(net.st.messages)
      ensures if r.None? then net.script == [] else |net.script| < |old(net.script)|
    {
      hide *;
      ghost var was := net.log;
      DueIs(net.st, net.log, seqno, message);
      ExtendsItself(was);
      var f := Turn(message, was);
      while f == TimedOut
        invariant net.Valid() && Turned(net.st, net.log, seqno, message, f) && Extends(net.log, was)
        invariant net.st.messages == old(net.st.messages)
        invariant if f == StillWaiting then net.script == [] else |net.script| < |old(net.script)|
        decreases |net.script|, f == TimedOut
      {
        TimedOutAgain(net.st, net.log, seqno, message);
        f := Turn(message, was);
      }
      Finished(net.st, net.log, seqno, message, was, f);
      r := if f == StillWaiting then None else Some(AckSeqno(f.body) == seqno);
    }

    method GiveMessage(message: seq<byte>)
      requires net.Valid() && !net.st.busy && seqno == Seqno(|net.st.messages|) + 1
      modifies net
      ensures net.Valid() && SendDue(net.st, net.log, seqno, message) && net.script == old(net.script)
      ensures net.st.messages == old(net.st.messages) + [message]
      ensures GivenIn(net.log, old(net.log), old(net.st), message)
    {
      hide *;
      ghost var was, log := net.st, net.log;
      net.BeginWrite(message);
      NowGiven(log, was, message);
      Given(net.st, net.log, seqno, message);
    }

    /**
     `SimpleAM.write`, blocking and without a timeout argument.  None: the script ran out while it
     was still waiting.  `begun` is the log with the message given to `write`.
     */
    method SimpleWrite(message: seq<byte>, inc: byte) returns (r: Option<bool>, ghost begun: seq<Entry>)
      requires Valid()
      requires if inc == 1 then !net.st.busy else inc == 0 && SendDue(net.st, net.log, seqno, message)
      modifies this`seqno, net
      ensures Valid()
      ensures net.st.messages == if inc == 1 then old(net.st.messages) + [message] else old(net.st.messages)
      ensures if inc == 1 then GivenIn(begun, old(net.log), old(net.st), message) else begun == old(net.log)
      ensures Answered(net.st, net.log, seqno, message, begun, r)
      ensures if r.None? then net.script == [] else |net.script| < |old(net.script)|
    {
      Opened();
      hide *;
      begun := Begin(message, inc);
      r := SendUntilAnswered(message);
      AnsweredIs(net.st, net.log, seqno, message, begun, r);
      Closed();
    }

    // The first line of the source, and what it stands for: a message is given to `write`, or is sent again.
    method Begin(message: seq<byte>, inc: byte) returns (ghost begun: seq<Entry>)
      requires net.Valid() && seqno == Seqno(|net.st.messages|)
      requires if inc == 1 then !net.st.busy else inc == 0 && SendDue(net.st, net.log, seqno, message)
      modifies this`seqno, net
      ensures net.Valid() && SendDue(net.st, net.log, seqno, message) && seqno == old(seqno) + inc
      ensures net.script == old(net.script) && begun == net.log
      ensures if inc == 1 then
                && net.st.messages == old(net.st.messages) + [message]
                && GivenIn(net.log, old(net.log), old(net.st), message)
              else net.st.messages == old(net.st.messages) && net.log == old(net.log)
    {
      hide *;
      NothingAdded(seqno);
      seqno := seqno + inc;
      if inc == 1 {
        GiveMessage(message);
      }
      begun := net.log;
    }

    lemma Opened()
      requires Valid()
      ensures net.Valid() && seqno == Seqno(|net.st.messages|) && Happenings(net.log) + net.script == net.given
    {
    }

    lemma Closed()
      requires net.Valid() && seqno == Seqno(|net.st.messages|)
      ensures Valid()
    {
    }

    /**
     `AM.write` without a timeout argument.  It does what `Following` asks for until the acknowledgement
     of the message arrives, and then the far end, dropping repeated sequence numbers, holds exactly the
     messages written so far, this one included.  `begun` is the log with the message given to `write`.
     */
    method Write(message: seq<byte>) returns (returned: bool, ghost begun: seq<Entry>)
      requires Valid() && !net.st.busy
      modifies this`seqno, net
      ensures Valid() && net.st.messages == old(net.st.messages) + [message]
      ensures GivenIn(begun, old(net.log), old(net.st), message)
      ensures Extends(net.log, begun) && Ended(net.log, net.script)
      ensures Kept(net.log, begun, old(net.st), old(net.script), net.script)
      ensures (returned <==> !net.st.busy) && (returned <==> Following(Last(net.log)) == Done)
      ensures returned ==> Delivered(net.st) == old(net.st.messages) + [message]
      ensures !returned ==> net.script == []
    {
      ghost var was, st, script := net.log, net.st, net.script;
      Opened();
      hide *;
      var r;
      r, begun := SimpleWrite(message, 1);
      ghost var mid, ms := begun, net.st.messages;
      AnsweredIs(net.st, net.log, seqno, message, mid, r);
      while r == Some(false)
        invariant Valid() && net.st.messages == ms && (r.None? ==> net.script == [])
        invariant Answered(net.st, net.log, seqno, message, mid, r) && Extends(net.log, begun)
        decreases |net.script|, r.Some?
      {
        mid := net.log;
        AnsweredIs(net.st, net.log, seqno, message, mid, r);
        r, mid := SimpleWrite(message, 0);
        AnsweredIs(net.st, net.log, seqno, message, mid, r);
        ExtendsAcross(net.log, mid, begun);
      }
      AnsweredIs(net.st, net.log, seqno, message, mid, r);
      returned := r.Some?;
      EndedIf(net.log, net.script, returned);
      Opened();
      Conclude(message, begun, was, st, script);
    }

    // What `Write` promises, from what its loop leaves behind.
    lemma Conclude(message: seq<byte>, begun: seq<Entry>, was: seq<Entry>, st: State, script: seq<Happening>)
      requires net.Valid() && Ended(net.log, net.script)
      requires Happenings(was) + script == net.given && GivenIn(begun, was, st, message) && Extends(net.log, begun)
      ensures Kept(net.log, begun, st, script, net.script)
      ensures !net.st.busy ==> Delivered(net.st) == net.st.messages
    {
      hide *;
      net.Parts();
      WriteDone(net.log, begun, was, st, message, script, net.script);
      if !net.st.busy {
        AllDelivered(net.states, net.acts, net.st);
      }
    }
  }
}
