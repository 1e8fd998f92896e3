/**
 What `read` notices when a frame arrives damaged: bytes of the body or of the trailer changed, none
 lost, before stuffing.  The low byte of the CRC is sent first, so the trailer does not continue the
 body as a polynomial, and what holds of messages does not hold across the boundary.
 */
module FrameDamage {
  import opened Basics
  import opened Word16
  import opened Crc
  import opened CrcPolynomial
  import opened Hdlc
  import opened HdlcStream

  function XorByte(a: byte, b: byte): byte { a ^ b }

  /** The bits in which two messages of the same length differ. */
  function Difference(a: seq<byte>, b: seq<byte>): seq<byte>
    requires |a| == |b|
  {
    if a == [] then [] else [XorByte(a[0], b[0])] + Difference(a[1..], b[1..])
  }

  lemma HighByteLinear(a: byte, b: byte)
    ensures HighByte(XorByte(a, b)) == Xor(HighByte(a), HighByte(b))
  {
  }

  lemma CrcByteLinear(s: bv16, t: bv16, a: byte, b: byte)
    ensures CrcByte(Xor(s, t), XorByte(a, b)) == Xor(CrcByte(s, a), CrcByte(t, b))
  {
    hide Xor, HighByte, XorByte, Steps;
    HighByteLinear(a, b);
    XorExchange(s, t, HighByte(a), HighByte(b));
    StepsLinear(8, Xor(s, HighByte(a)), Xor(t, HighByte(b)));
  }

  /** The CRC of a difference is the difference of the CRCs. */
  lemma {:induction false} CrcLinear(s: bv16, t: bv16, a: seq<byte>, b: seq<byte>)
    requires |a| == |b|
    ensures Crc16(Xor(s, t), Difference(a, b)) == Xor(Crc16(s, a), Crc16(t, b))
    decreases a
  {
    hide Xor, XorByte, CrcByte;
    if a != [] {
      CrcByteLinear(s, t, a[0], b[0]);
      CrcLinear(CrcByte(s, a[0]), CrcByte(t, b[0]), a[1..], b[1..]);
      assert Difference(a, b)[1..] == Difference(a[1..], b[1..]);
    }
  }

  /**
   A damaged frame is handed over.  The CRCs compare equal, and the damage goes unnoticed, if and only
   if the CRC of the damage to the body is the damage to the trailer.
   */
  lemma UnnoticedIff(sent: seq<byte>, body: seq<byte>, trailer: bv16, s: seq<Event>)
    requires |body| == |sent|
    ensures Read(AsEvents(FrameWithTrailer(body, trailer)) + s) ==
            Outcome(Some(Received(body, Crc16(0, Difference(sent, body)) == Xor(Crc16(0, sent), trailer))), s)
  {
    hide Xor, Read, FrameWithTrailer, Crc16;
    ReadFrameWithTrailer(body, trailer, s);
    CrcLinear(0, 0, sent, body);
    XorZero(0);
    SameXor(Crc16(0, sent), Crc16(0, body), trailer);
  }

  lemma SameXor(a: bv16, b: bv16, c: bv16)
    ensures Xor(0, 0) == 0
    ensures Xor(a, b) == Xor(a, c) <==> b == c
  {
  }

  /** Damage to the body within sixteen consecutive bits, the trailer intact, is noticed. */
  lemma BurstIsNoticed(sent: seq<byte>, body: seq<byte>, k: nat, s: seq<Event>)
    requires |sent| == |body| && sent != body && DifferInBurst(sent, body, k)
    ensures Read(AsEvents(FrameWithTrailer(body, Crc16(0, sent))) + s) == Outcome(Some(Received(body, false)), s)
  {
    BurstDetected(sent, body, k);
    ReadFrameWithTrailer(body, Crc16(0, sent), s);
  }

  /** Any damage to the trailer, the body intact, is noticed. */
  lemma TrailerDamageIsNoticed(sent: seq<byte>, trailer: bv16, s: seq<Event>)
    requires trailer != Crc16(0, sent)
    ensures Read(AsEvents(FrameWithTrailer(sent, trailer)) + s) == Outcome(Some(Received(sent, false)), s)
  {
    ReadFrameWithTrailer(sent, trailer, s);
  }

  // ---------- Across the boundary ----------

  function Extended(y: byte): bv16 { y as bv16 }

  lemma LowByteFlipped(crc: bv16, y: byte)
    ensures LowByte(Xor(crc, Extended(y))) == XorByte(LowByte(crc), y)
    ensures TopByte(Xor(crc, Extended(y))) == TopByte(crc)
  {
  }

  lemma LastByteDifference(front: seq<byte>, b: byte, x: byte)
    ensures Crc16(0, Difference(front + [b], front + [XorByte(b, x)])) == CrcByte(0, x)
  {
    var c := XorByte(b, x);
    var s := Crc16(0, front);
    hide Crc16, Difference, Xor, XorByte, CrcByte;
    SameXor(0, 0, 0);
    CrcLinear(0, 0, front + [b], front + [c]);
    Crc16Append(0, front, b);
    Crc16Append(0, front, c);
    CrcByteLinear(s, s, b, c);
    XorCancels(s, s);
    FlipTwice(b, x);
  }

  lemma FlipTwice(b: byte, x: byte)
    ensures XorByte(b, XorByte(b, x)) == x
  {
  }

  /**
   The last byte of the body flipped by `x` and the byte after it on the wire, the low one of the CRC,
   by `y`: this goes unnoticed if and only if `y` is the CRC of `x`.
   */
  lemma StraddlingIff(front: seq<byte>, b: byte, x: byte, y: byte, s: seq<Event>)
    ensures var crc := Crc16(0, front + [b]);
            var body, trailer := front + [XorByte(b, x)], Xor(crc, Extended(y));
            && LowByte(trailer) == XorByte(LowByte(crc), y) && TopByte(trailer) == TopByte(crc)
            && Read(AsEvents(FrameWithTrailer(body, trailer)) + s) ==
               Outcome(Some(Received(body, CrcByte(0, x) == Extended(y))), s)
  {
    var sent, body := front + [b], front + [XorByte(b, x)];
    var crc := Crc16(0, sent);
    LowByteFlipped(crc, y);
    LastByteDifference(front, b, x);
    hide Xor, Read, FrameWithTrailer, Crc16, CrcByte, XorByte, Extended, LowByte, TopByte;
    UnnoticedIff(sent, body, Xor(crc, Extended(y)), s);
    XorAgain(crc, Extended(y));
  }

  lemma XorAgain(a: bv16, b: bv16)
    ensures Xor(a, Xor(a, b)) == b
  {
  }

  /** Sixteen bits across the boundary that go unnoticed in every frame. */
  lemma StraddlingBurstMissed(front: seq<byte>, b: byte, s: seq<Event>)
    ensures var crc := Crc16(0, front + [b]);
            var body := front + [XorByte(b, 0x89)];
            Read(AsEvents(FrameWithTrailer(body, Xor(crc, 0x00a1))) + s) == Outcome(Some(Received(body, true)), s)
  {
    StraddlingIff(front, b, 0x89, 0xa1, s);
    hide Crc16, Read;
    assert CrcByte(0, 0x89) == 0x00a1 by { EightSteps(0x8900); }
  }
}
