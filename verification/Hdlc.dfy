/**
 The framing layer of the serial link: byte stuffing as in section 4.2 of RFC 1662, a CRC trailer,
 and a reader that finds frames in a stream of bytes.

 The byte source is a script of events: a byte, or a silence long enough for `getByte` to time out.
 */
module Hdlc {
  import opened Basics
  import opened Crc
  import Packet

  const FLAG: byte := 0x7e
  const CTLESC: byte := 0x7d
  const SERIAL_PROTO_PACKET_ACK: byte := 68

  datatype Event = Byte(b: byte) | Silence

  /** What `read` hands over: the payload, and whether the two CRCs it compares were equal. */
  datatype Received = Received(payload: seq<byte>, crcMatches: bool)

  // ---------- Stuffing ----------

  function Flip(b: byte): byte { b ^ 0x20 }

  function EscapeByte(b: byte): seq<byte> {
    if b == FLAG || b == CTLESC then [CTLESC, Flip(b)] else [b]
  }

  function Escape(p: seq<byte>): seq<byte> {
    if p == [] then [] else EscapeByte(p[0]) + Escape(p[1..])
  }

  function Unescape(esc: bool, p: seq<byte>): seq<byte>
    decreases p
  {
    if p == [] then []
    else if esc then [Flip(p[0])] + Unescape(false, p[1..])
    else if p[0] == CTLESC then Unescape(true, p[1..])
    else [p[0]] + Unescape(false, p[1..])
  }

  lemma EscapedByte(b: byte)
    ensures Flip(Flip(b)) == b
    ensures Flip(FLAG) != FLAG && Flip(CTLESC) != FLAG
  {
  }

  lemma UnescapeOne(b: byte, tail: seq<byte>)
    ensures Unescape(false, EscapeByte(b) + tail) == [b] + Unescape(false, tail)
  {
    EscapedByte(b);
    hide Flip;
    var s := EscapeByte(b) + tail;
    if b == FLAG || b == CTLESC {
      assert s[1..] == [Flip(b)] + tail;
      assert s[1..][1..] == tail;
    } else {
      assert s[1..] == tail;
    }
  }

  lemma HeadAndTail(p: seq<byte>, u: seq<byte>)
    requires p != []
    ensures [p[0]] + (p[1..] + u) == p + u
  {
  }

  lemma EscapeHead(p: seq<byte>, rest: seq<byte>)
    requires p != []
    ensures Escape(p) + rest == EscapeByte(p[0]) + (Escape(p[1..]) + rest)
  {
    hide EscapeByte;
  }

  lemma {:induction false} UnescapeEscape(p: seq<byte>, rest: seq<byte>)
    ensures Unescape(false, Escape(p) + rest) == p + Unescape(false, rest)
  {
    if p == [] {
      assert [] + rest == rest && [] + Unescape(false, rest) == Unescape(false, rest);
    } else {
      hide *;
      var tail := Escape(p[1..]) + rest;
      EscapeHead(p, rest);
      UnescapeOne(p[0], tail);
      UnescapeEscape(p[1..], rest);
      HeadAndTail(p, Unescape(false, rest));
    }
  }

  lemma {:induction false} EscapeHasNoFlag(p: seq<byte>)
    ensures FLAG !in Escape(p)
  {
    if p != [] {
      EscapedByte(p[0]);
      EscapeHasNoFlag(p[1..]);
    }
  }

  // ---------- The bytes themselves ----------

  /** How many bytes stuffing adds. */
  function Added(p: seq<byte>): nat {
    if p == [] then 0 else (if p[0] == 0x7e || p[0] == 0x7d then 1 else 0) + Added(p[1..])
  }

  /** The byte `b` stands in `s` from position `k` on. */
  predicate StuffedAt(s: seq<byte>, k: nat, b: byte) {
    if b == 0x7e then k + 1 < |s| && s[k] == 0x7d && s[k + 1] == 0x5e
    else if b == 0x7d then k + 1 < |s| && s[k] == 0x7d && s[k + 1] == 0x5d
    else k < |s| && s[k] == b
  }

  lemma {:induction false} EscapeParts(a: seq<byte>, b: seq<byte>)
    ensures Escape(a + b) == Escape(a) + Escape(b) && |Escape(a)| == |a| + Added(a)
  {
    if a == [] {
      assert a + b == b;
    } else {
      assert (a + b)[0] == a[0] && (a + b)[1..] == a[1..] + b;
      EscapeParts(a[1..], b);
      hide Flip;
    }
  }

  lemma HeadStuffed(front: seq<byte>, p: seq<byte>)
    requires p != []
    ensures StuffedAt(front + Escape(p), |front|, p[0])
  {
    assert Flip(0x7e) == 0x5e && Flip(0x7d) == 0x5d;
    hide Flip;
  }

  /** Stuffing, byte by byte: each stands where the bytes before it, and those added for them, end. */
  lemma StuffingBytes(p: seq<byte>, i: nat)
    requires i < |p|
    ensures |Escape(p)| == |p| + Added(p) && StuffedAt(Escape(p), i + Added(p[..i]), p[i])
  {
    hide *;
    assert p[..i] + p[i..] == p;
    EscapeParts(p[..i], p[i..]);
    EscapeParts(p, []);
    HeadStuffed(Escape(p[..i]), p[i..]);
  }

  /** Unstuffing, byte by byte: an escape byte goes, and the byte after it is given 32 more or 32 less. */
  lemma UnstuffingBytes(b: byte, rest: seq<byte>)
    ensures Unescape(false, []) == Unescape(false, [0x7d]) == []
    ensures b != 0x7d ==> Unescape(false, [b] + rest) == [b] + Unescape(false, rest)
    ensures var u := Unescape(false, [0x7d, b] + rest);
            && u != [] && u[1..] == Unescape(false, rest)
            && u[0] as int == if b as int / 32 % 2 == 0 then b as int + 32 else b as int - 32
  {
    FlipIs(b);
    hide Flip;
    assert ([b] + rest)[1..] == rest;
    assert ([0x7d, b] + rest)[1..] == [b] + rest;
    assert [0x7d as byte][1..] == [];
  }

  lemma FlipIs(b: byte)
    ensures Flip(b) as int == if b as int / 32 % 2 == 0 then b as int + 32 else b as int - 32
  {
  }

  // ---------- The two loops ----------

  method EscapePacket(packet: seq<byte>) returns (r: seq<byte>)
    ensures r == Escape(packet) && |r| == |packet| + Added(packet)
    ensures forall i :: 0 <= i < |packet| ==> StuffedAt(r, i + Added(packet[..i]), packet[i])
  {
    hide Added, StuffedAt;
    r := [];
    assert packet[0..] == packet;
    for i := 0 to |packet|
      invariant Escape(packet) == r + Escape(packet[i..])
    {
      var b := packet[i];
      EscapeStep(r, packet, i);
      ByteEscaped(r, b);
      hide Flip, Escape, EscapeByte;
      if b == FLAG || b == CTLESC {
        r := r + [CTLESC];
        r := r + [Flip(b)];
      } else {
        r := r + [b];
      }
    }
    assert packet[|packet|..] == [] && r + Escape([]) == r;
    AllStuffed(packet);
  }

  lemma AllStuffed(p: seq<byte>)
    ensures |Escape(p)| == |p| + Added(p)
    ensures forall i :: 0 <= i < |p| ==> StuffedAt(Escape(p), i + Added(p[..i]), p[i])
  {
    hide *;
    EscapeParts(p, []);
    forall i | 0 <= i < |p|
      ensures StuffedAt(Escape(p), i + Added(p[..i]), p[i])
    {
      StuffingBytes(p, i);
    }
  }

  lemma EscapeStep(r: seq<byte>, p: seq<byte>, i: nat)
    requires i < |p|
    ensures r + Escape(p[i..]) == (r + EscapeByte(p[i])) + Escape(p[i + 1..])
  {
    assert p[i..][1..] == p[i + 1..];
    hide EscapeByte;
  }

  lemma ByteEscaped(r: seq<byte>, b: byte)
    ensures r + EscapeByte(b) == if b == FLAG || b == CTLESC then (r + [CTLESC]) + [Flip(b)] else r + [b]
  {
    hide Flip;
  }

  method UnescapePacket(packet: seq<byte>) returns (r: seq<byte>)
    ensures r == Unescape(false, packet)
  {
    hide Flip;
    r := [];
    var esc := false;
    for i := 0 to |packet|
      invariant Unescape(false, packet) == r + Unescape(esc, packet[i..])
    {
      var b := packet[i];
      assert packet[i..][1..] == packet[i + 1..];
      if esc {
        r := r + [Flip(b)];
        esc := false;
      } else if b == CTLESC {
        esc := true;
      } else {
        r := r + [b];
      }
    }
  }

  // ---------- Frames ----------

  function LowByte(crc: bv16): byte { (crc & 0xff) as byte }
  function TopByte(crc: bv16): byte { ((crc >> 8) & 0xff) as byte }

  // The trailer's value.  At most two bytes are ever decoded, so sixteen bits hold it.
  function Join(hi: bv16, lo: byte): bv16 { (hi << 8) + (lo as bv16) }

  function DecodeLittleEndian(v: seq<byte>): bv16 {
    if v == [] then 0 else Join(DecodeLittleEndian(v[1..]), v[0])
  }

  lemma JoinHalves(crc: bv16)
    ensures Join(Join(0, TopByte(crc)), LowByte(crc)) == crc
  {
    assert Join(0, TopByte(crc)) == TopByte(crc) as bv16;
    assert ((((crc >> 8) & 0xff) as byte as bv16) << 8) + ((crc & 0xff) as byte as bv16) == crc;
  }

  lemma DecodeTrailer(crc: bv16)
    ensures DecodeLittleEndian([LowByte(crc), TopByte(crc)]) == crc
  {
    JoinHalves(crc);
    hide Join, LowByte, TopByte;
    var v, w := [LowByte(crc), TopByte(crc)], [TopByte(crc)];
    assert DecodeLittleEndian(w) == Join(DecodeLittleEndian(w[1..]), w[0]) == Join(0, TopByte(crc));
    assert v[1..] == w;
  }

  /** The bytes on the wire for a body and a trailer. */
  function FrameWithTrailer(body: seq<byte>, crc: bv16): seq<byte> {
    [FLAG] + Escape(body + [LowByte(crc), TopByte(crc)]) + [FLAG]
  }

  /** The bytes on the wire for one frame body. */
  function Frame(body: seq<byte>): seq<byte> {
    FrameWithTrailer(body, Crc16(0, body))
  }

  lemma SplitWord(crc: bv16, hi: bv16, lo: bv16)
    requires hi == (crc >> 8) & 0xff && lo == crc & 0xff
    ensures hi <= 0xff && lo <= 0xff && crc as int == 256 * (hi as int) + lo as int
  {
    assert hi == crc >> 8;
  }

  lemma NarrowWord(w: bv16)
    requires w <= 0xff
    ensures (w as byte) as int == w as int
  {
  }

  lemma Bytes16(crc: bv16)
    ensures crc as int == 256 * (TopByte(crc) as int) + LowByte(crc) as int
  {
    var hi, lo := (crc >> 8) & 0xff, crc & 0xff;
    assert TopByte(crc) == hi as byte && LowByte(crc) == lo as byte by { SplitWord(crc, hi, lo); }
    hide *;
    SplitWord(crc, hi, lo);
    NarrowWord(hi);
    NarrowWord(lo);
  }

  /** On the wire: flags, and between them, stuffed, the header, the data and the CRC, low byte first. */
  lemma WireFormat(seqno: byte, payload: seq<byte>) returns (body: seq<byte>, lo: byte, hi: byte)
    ensures body == [68, seqno, 0] + payload && DataBody(seqno, payload) == body
    ensures 256 * (hi as int) + lo as int == Crc16(0, body) as int
    ensures Frame(body) == [0x7e] + Escape(body + [lo, hi]) + [0x7e]
  {
    body := DataBody(seqno, payload);
    lo, hi := LowByte(Crc16(0, body)), TopByte(Crc16(0, body));
    hide Crc16, Escape, LowByte, TopByte;
    Bytes16(Crc16(0, body));
  }

  /** What `read` makes of the raw bytes of one frame, flags included. */
  function Interpret(raw: seq<byte>): Received {
    var packet := Unescape(false, raw);
    var payload := Packet.Slice(packet, 1, -3);
    Received(payload, Crc16(0, payload) == DecodeLittleEndian(Packet.Slice(packet, -3, -1)))
  }

  /**
   What is handed over, however short the packet: all but the flag in front and the last three bytes.
   Its verdict compares the CRC with the two bytes before the last, or with what there is of them.
   */
  lemma InterpretIs(raw: seq<byte>) returns (trailer: bv16)
    ensures var packet := Unescape(false, raw);
            var n := |packet|;
            var payload := if n >= 4 then packet[1..n - 3] else [];
            && Interpret(raw) == Received(payload, Crc16(0, payload) == trailer)
            && trailer as int == if n >= 3 then 256 * (packet[n - 2] as int) + packet[n - 3] as int
                                 else if n == 2 then packet[0] as int else 0
  {
    hide *;
    InterpretKnown(raw);
    var packet := Unescape(false, raw);
    trailer := DecodeLittleEndian(Packet.Slice(packet, -3, -1));
    PayloadIs(packet);
    TrailerIs(packet);
  }

  lemma InterpretKnown(raw: seq<byte>)
    ensures var packet, received := Unescape(false, raw), Interpret(raw);
            var payload := Packet.Slice(packet, 1, -3);
            && received.payload == payload
            && (received.crcMatches <==> Crc16(0, payload) == DecodeLittleEndian(Packet.Slice(packet, -3, -1)))
  {
    hide Unescape, Crc16, DecodeLittleEndian, Packet.Slice;
  }

  lemma PayloadIs(packet: seq<byte>)
    ensures var n := |packet|; Packet.Slice(packet, 1, -3) == if n >= 4 then packet[1..n - 3] else []
  {
  }

  lemma TrailerIs(packet: seq<byte>)
    ensures var n := |packet|;
            DecodeLittleEndian(Packet.Slice(packet, -3, -1)) as int ==
            if n >= 3 then 256 * (packet[n - 2] as int) + packet[n - 3] as int
            else if n == 2 then packet[0] as int else 0
  {
    var n, trailer := |packet|, Packet.Slice(packet, -3, -1);
    assert trailer == if n >= 3 then [packet[n - 3], packet[n - 2]] else if n == 2 then [packet[0]] else [];
    hide Packet.Slice, DecodeLittleEndian;
    if n >= 3 {
      TwoBytes(packet[n - 3], packet[n - 2]);
    } else if n == 2 {
      OneByte(packet[0]);
    } else {
      NoByte();
    }
  }

  lemma TwoBytes(lo: byte, hi: byte)
    ensures DecodeLittleEndian([lo, hi]) as int == 256 * (hi as int) + lo as int
  {
    DecodesTo(lo, hi);
    JoinedHalves(lo, hi);
    hide *;
    Bytes16(Join(Join(0, hi), lo));
  }

  lemma DecodesTo(lo: byte, hi: byte)
    ensures DecodeLittleEndian([lo, hi]) == Join(Join(0, hi), lo)
  {
    hide Join;
    var v, w := [lo, hi], [hi];
    assert DecodeLittleEndian(w) == Join(DecodeLittleEndian(w[1..]), w[0]) == Join(0, hi);
    assert v[1..] == w;
  }

  lemma JoinedHalves(lo: byte, hi: byte)
    ensures TopByte(Join(Join(0, hi), lo)) == hi && LowByte(Join(Join(0, hi), lo)) == lo
  {
  }

  lemma OneByte(lo: byte)
    ensures DecodeLittleEndian([lo]) as int == lo as int
  {
    assert DecodeLittleEndian([lo]) == Join(0, lo) == lo as bv16;
    hide *;
    Widened(lo);
  }

  lemma Widened(lo: byte)
    ensures (lo as bv16) as int == lo as int
  {
  }

  lemma NoByte()
    ensures DecodeLittleEndian([]) as int == 0
  {
  }

  lemma InterpretFrameWithTrailer(body: seq<byte>, crc: bv16)
    ensures Interpret(FrameWithTrailer(body, crc)) == Received(body, Crc16(0, body) == crc)
  {
    var trailer := [LowByte(crc), TopByte(crc)];
    var whole := body + trailer;
    var packet := [FLAG] + whole + [FLAG];
    var raw := FrameWithTrailer(body, crc);
    assert Unescape(false, raw) == packet by {
      UnescapeEscape(whole, [FLAG]);
      assert raw[1..] == Escape(whole) + [FLAG];
      assert Unescape(false, [FLAG]) == [FLAG] + Unescape(false, [FLAG][1..]);
    }
    assert Packet.Slice(packet, 1, -3) == packet[1..|packet| - 3] == body;
    assert Packet.Slice(packet, -3, -1) == packet[|packet| - 3..|packet| - 1] == trailer;
    DecodeTrailer(crc);
  }

  lemma InterpretFrame(body: seq<byte>)
    ensures Interpret(Frame(body)) == Received(body, true)
  {
    InterpretFrameWithTrailer(body, Crc16(0, body));
  }

  // ---------- The reader, as a function of the script ----------

  datatype Outcome<+T> = Outcome(result: Option<T>, rest: seq<Event>)

  function NextByte(evs: seq<Event>): Outcome<byte> {
    if evs == [] then Outcome(None, [])
    else if evs[0].Silence? then Outcome(None, evs[1..])
    else Outcome(Some(evs[0].b), evs[1..])
  }

  /** Up to and including the first flag. */
  function SkipToFlag(evs: seq<Event>): (o: Outcome<byte>)
    ensures |o.rest| <= |evs| && (evs != [] ==> |o.rest| < |evs|)
  {
    var g := NextByte(evs);
    if g.result.None? || g.result.value == FLAG then g else SkipToFlag(g.rest)
  }

  /** Up to and including the first byte that is not a flag. */
  function SkipFlags(evs: seq<Event>): (o: Outcome<byte>)
    ensures |o.rest| <= |evs|
  {
    var g := NextByte(evs);
    if g.result.None? || g.result.value != FLAG then g else SkipFlags(g.rest)
  }

  /** The bytes up to and including the next flag. */
  function TakeToFlag(evs: seq<Event>): (o: Outcome<seq<byte>>)
    ensures |o.rest| <= |evs|
  {
    var g := NextByte(evs);
    if g.result.None? then Outcome(None, g.rest)
    else if g.result.value == FLAG then Outcome(Some([FLAG]), g.rest)
    else
      var more := TakeToFlag(g.rest);
      if more.result.None? then Outcome(None, more.rest)
      else Outcome(Some([g.result.value] + more.result.value), more.rest)
  }

  function Read(evs: seq<Event>): (o: Outcome<Received>)
    ensures |o.rest| <= |evs| && (evs != [] ==> |o.rest| < |evs|)
  {
    var opening := SkipToFlag(evs);
    if opening.result.None? then Outcome(None, opening.rest)
    else
      var first := SkipFlags(opening.rest);
      if first.result.None? then Outcome(None, first.rest)
      else
        var others := TakeToFlag(first.rest);
        if others.result.None? then Outcome(None, others.rest)
        else Outcome(Some(Interpret([FLAG, first.result.value] + others.result.value)), others.rest)
  }

  // ---------- The program ----------

  class ByteSource {
    var incoming: seq<Event>
    var outgoing: seq<byte>

    constructor (script: seq<Event>)
      ensures incoming == script && outgoing == []
    {
      incoming, outgoing := script, [];
    }

    method GetByte() returns (c: Option<byte>)
      modifies this`incoming
      ensures Outcome(c, incoming) == NextByte(old(incoming))
    {
      var g := NextByte(incoming);
      c, incoming := g.result, g.rest;
    }

    method PutBytes(data: seq<byte>)
      modifies this`outgoing
      ensures outgoing == old(outgoing) + data
    {
      for i := 0 to |data|
        invariant outgoing == old(outgoing) + data[..i]
      {
        outgoing := outgoing + [data[i]];
        assert data[..i + 1] == data[..i] + [data[i]];
      }
      assert data[..|data|] == data;
    }
  }

  class Link {
    var source: ByteSource

    constructor (s: ByteSource)
      ensures source == s
    {
      source := s;
    }

    /** The next packet, or None on a timeout. */
    method ReadPacket() returns (r: Option<Received>)
      modifies source`incoming
      ensures Outcome(r, source.incoming) == Read(old(source.incoming))
    {
      hide Interpret, Flip, SkipToFlag, SkipFlags, TakeToFlag;
      var d := OpeningFlag();
      if d.None? {
        return None;
      }
      d := FirstByte();
      if d.None? {
        return None;
      }
      var packet := ReadToFlag([FLAG], d.value);
      if packet.None? {
        return None;
      }
      assert [FLAG] + [d.value] == [FLAG, d.value];
      r := Unpack(packet.value);
    }

    // The first loop of `read`: skips bytes up to a flag.
    method OpeningFlag() returns (d: Option<byte>)
      modifies source`incoming
      ensures Outcome(d, source.incoming) == SkipToFlag(old(source.incoming))
      ensures d.Some? ==> d.value == FLAG
    {
      d := source.GetByte();
      while d.Some? && d.value != FLAG
        invariant SkipToFlag(old(source.incoming)) ==
          if d.None? || d.value == FLAG then Outcome(d, source.incoming) else SkipToFlag(source.incoming)
        decreases |source.incoming|, d.Some?
      {
        d := source.GetByte();
      }
    }

    // The second loop of `read`: skips further flags.
    method FirstByte() returns (d: Option<byte>)
      modifies source`incoming
      ensures Outcome(d, source.incoming) == SkipFlags(old(source.incoming))
      ensures d.Some? ==> d.value != FLAG
    {
      d := source.GetByte();
      while d.Some? && d.value == FLAG
        invariant SkipFlags(old(source.incoming)) ==
          if d.None? || d.value != FLAG then Outcome(d, source.incoming) else SkipFlags(source.incoming)
        decreases |source.incoming|, d.Some?
      {
        d := source.GetByte();
      }
    }

    // The third loop of `read`: appends `first` and everything up to the closing flag.
    method ReadToFlag(packet0: seq<byte>, first: byte) returns (packet: Option<seq<byte>>)
      requires first != FLAG
      modifies source`incoming
      ensures var others := TakeToFlag(old(source.incoming));
              && source.incoming == others.rest
              && packet == if others.result.None? then None else Some(packet0 + [first] + others.result.value)
    {
      var d := first;
      var bytes := packet0 + [first];
      while d != FLAG
        invariant packet0 + [first] <= bytes
        invariant var others := TakeToFlag(old(source.incoming));
                  if d == FLAG then
                    && others.rest == source.incoming && others.result.Some?
                    && bytes == packet0 + [first] + others.result.value
                  else
                    var more := TakeToFlag(source.incoming);
                    && others.rest == more.rest
                    && (others.result.Some? <==> more.result.Some?)
                    && (more.result.Some? ==> packet0 + [first] + others.result.value == bytes + more.result.value)
        decreases |source.incoming|
      {
        var c := source.GetByte();
        if c.None? {
          return None;
        }
        d := c.value;
        bytes := bytes + [d];
      }
      packet := Some(bytes);
    }

    // The end of `read`: unescapes the packet and checks its CRC.
    method Unpack(raw: seq<byte>) returns (r: Option<Received>)
      ensures r == Some(Interpret(raw))
    {
      var packet := UnescapePacket(raw);
      var payload := Packet.Slice(packet, 1, -3);
      var crc := PythonCrc16(0, payload);
      var packetCrc := DecodeLittleEndian(Packet.Slice(packet, -3, -1));
      r := Some(Received(payload, crc == packetCrc));
    }

    /** Sends a payload as a data frame that asks for an acknowledgement. */
    method WritePacket(payload: seq<byte>, seqno: byte)
      modifies source`outgoing
      ensures source.outgoing == old(source.outgoing) + Frame(DataBody(seqno, payload))
    {
      var packet := [SERIAL_PROTO_PACKET_ACK, seqno, 0] + payload;
      ghost var body := packet;
      var crc := PythonCrc16(0, packet);
      packet := packet + [LowByte(crc)];
      packet := packet + [TopByte(crc)];
      assert packet == body + [LowByte(crc), TopByte(crc)];
      var escaped := EscapePacket(packet);
      source.PutBytes([FLAG] + escaped + [FLAG]);
    }
  }

  /** The body of a data frame: protocol, sequence number, dispatch, data. */
  function DataBody(seqno: byte, payload: seq<byte>): seq<byte> {
    [SERIAL_PROTO_PACKET_ACK, seqno, 0] + payload
  }
}
