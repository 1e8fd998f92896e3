/**
 The packets of the serial protocol, and the layers put together: an active message, packed into a
 data frame, framed onto the wire and read back.
 */
module SerialFrames {
  import opened Basics
  import opened Packet
  import opened RoundTrip
  import opened Crc
  import opened Hdlc
  import opened HdlcStream
  import StopAndWait

  const ACK_FRAME: seq<Field> :=
    [Field("protocol", Int, Sized(1)), Field("seqno", Int, Sized(1))]

  const DATA_FRAME: seq<Field> :=
    [Field("protocol", Int, Sized(1)), Field("seqno", Int, Sized(1)), Field("dispatch", Int, Sized(1)),
     Field("data", Blob, Unsized)]

  const ACTIVE_MESSAGE: seq<Field> :=
    [Field("destination", Int, Sized(2)), Field("source", Int, Sized(2)), Field("length", Int, Sized(1)),
     Field("group", Int, Sized(1)), Field("type", Int, Sized(1)), Field("data", Blob, Unsized)]

  // ---------- Bytes and Python integers ----------

  function ToInts(bs: seq<byte>): (xs: seq<int>)
    ensures |xs| == |bs|
  {
    seq(|bs|, i requires 0 <= i < |bs| => bs[i] as int)
  }

  predicate AreBytes(xs: seq<int>) {
    forall x :: x in xs ==> 0 <= x < 256
  }

  function FromInts(xs: seq<int>): (bs: seq<byte>)
    requires AreBytes(xs)
    ensures |bs| == |xs|
  {
    seq(|xs|, i requires 0 <= i < |xs| => var x := xs[i]; assert x in xs; x as byte)
  }

  lemma NextByte(b: byte)
    requires b as int < 255
    ensures (b + 1) as int == b as int + 1
  {
  }

  lemma ByteAgain(b: byte)
    ensures (b as int) as byte == b
  {
  }

  lemma {:induction false} ByteFor(x: int) returns (b: byte)
    requires 0 <= x < 256
    ensures b as int == x
    decreases x
  {
    if x == 0 {
      b := 0;
    } else {
      var c := ByteFor(x - 1);
      NextByte(c);
      b := c + 1;
    }
  }

  lemma IntOfByte(x: int)
    requires 0 <= x < 256
    ensures (x as byte) as int == x
  {
    var b := ByteFor(x);
    ByteAgain(b);
  }

  lemma ToFromInts(xs: seq<int>)
    requires AreBytes(xs)
    ensures ToInts(FromInts(xs)) == xs
  {
    forall i | 0 <= i < |xs|
      ensures ToInts(FromInts(xs))[i] == xs[i]
    {
      assert xs[i] in xs;
      IntOfByte(xs[i]);
    }
  }

  // ---------- AckFrame ----------

  lemma DecodeFirst(xs: seq<int>, i: nat)
    ensures Decode(Slice(xs, i, i + 1)) == if i < |xs| then xs[i] else 0
  {
    var v := Slice(xs, i, i + 1);
    if i < |xs| {
      assert v == [xs[i]] && v[..|v| - 1] == [];
    } else {
      assert v == [];
    }
  }

  /** `AckFrame` of a packet of any length reads its first two bytes, and 0 for those missing. */
  lemma AckFrameFields(body: seq<byte>)
    ensures ParseFields(Resolved(ACK_FRAME), ToInts(body), 0, 0) ==
            Ok([IntVal(StopAndWait.Protocol(body) as int), IntVal(StopAndWait.AckSeqno(body) as int)])
  {
    var xs := ToInts(body);
    assert Resolved(ACK_FRAME) == ACK_FRAME by { AllSizedResolved(ACK_FRAME); }
    var f, g := ACK_FRAME[0], ACK_FRAME[1];
    DecodeFirst(xs, 0);
    DecodeFirst(xs, 1);
    var p, s := IntVal(Decode(Slice(xs, 0, 1))), IntVal(Decode(Slice(xs, 1, 2)));
    assert ParseField(f, xs, 0, 0) == Ok((p, 1, 0));
    assert ParseField(g, xs, 1, 0) == Ok((s, 2, 0));
    assert ACK_FRAME[1..] == [g] && [g][1..] == [];
    hide ParseField;
    assert [s] + [] == [s] && [p] + [s] == [p, s];
    assert ParseFields([], xs, 2, 0) == Ok([]);
    assert ParseFields([g], xs, 1, 0) == Ok([s]);
    assert ParseFields(ACK_FRAME, xs, 0, 0) == Ok([p, s]);
  }

  // ---------- DataFrame ----------

  function DataValues(seqno: byte, payload: seq<byte>): seq<Value> {
    [IntVal(SERIAL_PROTO_PACKET_ACK as int), IntVal(seqno as int), IntVal(0), ListVal(ToInts(payload))]
  }

  lemma EncodeByte(x: int)
    ensures Encode(x, 1) == [x % 256]
  {
    assert Encode(x / 256, 0) == [];
  }

  lemma PackByte(f: Field, x: int, r: seq<int>)
    requires f.kind == Int && f.size == Sized(1) && 0 <= x < 256
    ensures PackField(f, IntVal(x), r, 0) == Ok((r + [x], 0))
  {
    EncodeByte(x);
  }

  lemma PackStep(f: Field, rest: seq<Field>, v: Value, vs: seq<Value>, r: seq<int>, r': seq<int>)
    requires PackField(f, v, r, 0) == Ok((r', 0))
    ensures PackFields([f] + rest, [v] + vs, r, 0) == PackFields(rest, vs, r', 0)
  {
    hide PackField;
    assert ([f] + rest)[1..] == rest && ([v] + vs)[1..] == vs;
  }

  lemma DataFrameResolved()
    ensures Resolved(DATA_FRAME) == DATA_FRAME
  {
    ResolvedAt(DATA_FRAME, 3);
    assert DATA_FRAME[4..] == [];
  }

  lemma DataFramePacked(seqno: byte, payload: seq<byte>)
    ensures PackFields(Resolved(DATA_FRAME), DataValues(seqno, payload), [], 0) == Ok(ToInts(DataBody(seqno, payload)))
  {
    var p, n, d, data := DATA_FRAME[0], DATA_FRAME[1], DATA_FRAME[2], DATA_FRAME[3];
    var v, xs := IntVal(seqno as int), ToInts(payload);
    DataFrameResolved();
    PackByte(p, 68, []);
    PackByte(n, seqno as int, [] + [68]);
    PackByte(d, 0, [] + [68] + [seqno as int]);
    var head := [] + [68] + [seqno as int] + [0];
    assert PackField(data, ListVal(xs), head, 0) == Ok((head + xs, 0));
    assert PackFields([], [], head + xs, 0) == Ok(head + xs);
    assert DATA_FRAME == [p] + ([n] + ([d] + ([data] + [])));
    assert DataValues(seqno, payload) == [IntVal(68)] + ([v] + ([IntVal(0)] + ([ListVal(xs)] + [])));
    assert head + xs == ToInts(DataBody(seqno, payload));
    hide *;
    PackStep(p, [n] + ([d] + ([data] + [])), IntVal(68), [v] + ([IntVal(0)] + ([ListVal(xs)] + [])), [], [] + [68]);
    PackStep(n, [d] + ([data] + []), v, [IntVal(0)] + ([ListVal(xs)] + []), [] + [68], [] + [68] + [seqno as int]);
    PackStep(d, [data] + [], IntVal(0), [ListVal(xs)] + [], [] + [68] + [seqno as int], head);
    PackStep(data, [], ListVal(xs), [], head, head + xs);
  }

  lemma {:induction false} IntsThenBlob(ints: seq<Field>, blob: Field)
    requires forall f :: f in ints ==> f.kind == Int && f.size.Sized?
    requires blob.kind == Blob && blob.size == Unsized
    ensures Described(ints + [blob]) && Exact(ints + [blob], 0)
    decreases ints
  {
    var desc := ints + [blob];
    if ints == [] {
      assert desc[1..] == [];
    } else {
      assert ints[0] in ints && desc[1..] == ints[1..] + [blob];
      IntsThenBlob(ints[1..], blob);
    }
  }

  lemma DataFits(seqno: byte, payload: seq<byte>)
    ensures AllFit(DATA_FRAME, DataValues(seqno, payload))
  {
    var vs := DataValues(seqno, payload);
    assert Pow256(1) == 256 * Pow256(0) == 256;
    forall i | 0 <= i < 4
      ensures Fits(DATA_FRAME[i], vs[i])
    {
    }
  }

  lemma DataFrameExact()
    ensures Described(DATA_FRAME) && Exact(DATA_FRAME, 0)
  {
    assert DATA_FRAME == DATA_FRAME[..3] + [DATA_FRAME[3]];
    IntsThenBlob(DATA_FRAME[..3], DATA_FRAME[3]);
  }

  lemma DataFrameParsed(seqno: byte, payload: seq<byte>)
    ensures ParseFields(Resolved(DATA_FRAME), ToInts(DataBody(seqno, payload)), 0, 0) == Ok(DataValues(seqno, payload))
  {
    hide *;
    DataFramePacked(seqno, payload);
    DataFits(seqno, payload);
    DataFrameExact();
    PacketRoundTrip(DATA_FRAME, DataValues(seqno, payload));
  }

  // ---------- ActiveMessage ----------

  /** The values the constructor gives an outgoing message, with the number it puts into `length`. */
  function MessageValues(dest: int, amId: int, data: seq<int>, length: int): seq<Value> {
    [IntVal(dest), IntVal(0), IntVal(length), IntVal(0), IntVal(amId), ListVal(data)]
  }

  function PackedMessage(dest: int, amId: int, data: seq<int>): Result<seq<int>> {
    PackFields(Resolved(ACTIVE_MESSAGE), MessageValues(dest, amId, data, |data|), [], 0)
  }

  lemma MessageExact()
    ensures Described(ACTIVE_MESSAGE) && Exact(ACTIVE_MESSAGE, 0)
  {
    var d := ACTIVE_MESSAGE;
    assert d == d[..5] + [d[5]];
    IntsThenBlob(d[..5], d[5]);
  }

  lemma MessageFits(dest: int, amId: int, data: seq<int>, length: int)
    requires 0 <= dest < 0x1_0000 && 0 <= amId < 256 && 0 <= length < 256
    ensures AllFit(ACTIVE_MESSAGE, MessageValues(dest, amId, data, length))
  {
    assert Pow256(0) == 1 && Pow256(1) == 256 && Pow256(2) == 0x1_0000;
  }

  // Fields that pack alike make packets that are alike.
  lemma {:induction false} PackSame(schema: seq<Field>, vs: seq<Value>, ws: seq<Value>, r: seq<int>, boffset: int)
    requires |schema| == |vs| == |ws|
    requires forall i, q, b :: 0 <= i < |schema| ==>
               PackField(schema[i], vs[i], q, b) == PackField(schema[i], ws[i], q, b)
    ensures PackFields(schema, vs, r, boffset) == PackFields(schema, ws, r, boffset)
    decreases schema
  {
    hide PackField;
    if schema != [] {
      var p := PackField(schema[0], vs[0], r, boffset);
      if p.Ok? {
        PackSame(schema[1..], vs[1..], ws[1..], p.value.0, p.value.1);
      }
    }
  }

  lemma MessageResolved()
    ensures Resolved(ACTIVE_MESSAGE) == ACTIVE_MESSAGE
  {
    ResolvedAt(ACTIVE_MESSAGE, 5);
    assert ACTIVE_MESSAGE[6..] == [];
  }

  lemma ByteFieldTruncates(f: Field, x: int, r: seq<int>, boffset: int)
    requires f.kind == Int && f.size == Sized(1)
    ensures PackField(f, IntVal(x), r, boffset) == PackField(f, IntVal(x % 256), r, boffset)
  {
    EncodeByte(x);
    EncodeByte(x % 256);
  }

  lemma LengthTruncated(dest: int, amId: int, data: seq<int>)
    ensures PackedMessage(dest, amId, data) ==
            PackFields(Resolved(ACTIVE_MESSAGE), MessageValues(dest, amId, data, |data| % 256), [], 0)
  {
    hide PackFields, Resolved;
    MessageResolved();
    var vs, ws := MessageValues(dest, amId, data, |data|), MessageValues(dest, amId, data, |data| % 256);
    OnlyLengthDiffers(dest, amId, data, |data|, |data| % 256);
    assert ACTIVE_MESSAGE[2].kind == Int && ACTIVE_MESSAGE[2].size == Sized(1);
    hide *;
    TruncatedAt2(ACTIVE_MESSAGE, vs, ws, |data|);
  }

  lemma OnlyLengthDiffers(dest: int, amId: int, data: seq<int>, m: int, n: int)
    ensures var vs, ws := MessageValues(dest, amId, data, m), MessageValues(dest, amId, data, n);
            && |vs| == |ws| == 6 && vs[2] == IntVal(m) && ws[2] == IntVal(n)
            && forall i :: 0 <= i < 6 && i != 2 ==> vs[i] == ws[i]
  {
  }

  lemma TruncatedAt2(schema: seq<Field>, vs: seq<Value>, ws: seq<Value>, x: int)
    requires |schema| == |vs| == |ws| == 6 && forall i :: 0 <= i < 6 && i != 2 ==> vs[i] == ws[i]
    requires vs[2] == IntVal(x) && ws[2] == IntVal(x % 256) && schema[2].kind == Int && schema[2].size == Sized(1)
    ensures PackFields(schema, vs, [], 0) == PackFields(schema, ws, [], 0)
  {
    hide *;
    forall i, q, b | 0 <= i < 6
      ensures PackField(schema[i], vs[i], q, b) == PackField(schema[i], ws[i], q, b)
    {
      if i == 2 {
        ByteFieldTruncates(schema[2], x, q, b);
      }
    }
    PackSame(schema, vs, ws, [], 0);
  }

  lemma LengthShows(dest: int, amId: int, data: seq<int>, m: int, n: int)
    ensures MessageValues(dest, amId, data, m) == MessageValues(dest, amId, data, n) <==> m == n
  {
    assert MessageValues(dest, amId, data, m)[2] == IntVal(m) && MessageValues(dest, amId, data, n)[2] == IntVal(n);
  }

  /**
   An active message comes back from its bytes exactly when its data fit the one-byte length field;
   longer data come back whole, but with the length modulo 256.
   */
  lemma MessageRoundTrip(dest: int, amId: int, data: seq<int>)
    requires 0 <= dest < 0x1_0000 && 0 <= amId < 256
    ensures PackedMessage(dest, amId, data).Ok?
    ensures ParseFields(Resolved(ACTIVE_MESSAGE), PackedMessage(dest, amId, data).value, 0, 0) ==
            Ok(MessageValues(dest, amId, data, |data| % 256))
    ensures ParseFields(Resolved(ACTIVE_MESSAGE), PackedMessage(dest, amId, data).value, 0, 0) ==
              Ok(MessageValues(dest, amId, data, |data|))
            <==> |data| < 256
  {
    hide *;
    assert |data| % 256 == |data| <==> |data| < 256;
    var ws := MessageValues(dest, amId, data, |data| % 256);
    MessageExact();
    MessageFits(dest, amId, data, |data| % 256);
    LengthTruncated(dest, amId, data);
    LengthShows(dest, amId, data, |data|, |data| % 256);
    PacketRoundTrip(ACTIVE_MESSAGE, ws);
  }

  // ---------- The bytes, and the fields by name ----------

  /** The value of the field with this name. */
  function ByName(schema: seq<Field>, values: seq<Value>, name: string): Option<Value>
    requires |schema| == |values|
  {
    if schema == [] then None
    else if schema[0].name == name then Some(values[0])
    else ByName(schema[1..], values[1..], name)
  }

  lemma TwoBytes(x: int)
    requires 0 <= x < 0x1_0000
    ensures Encode(x, 2) == [x / 256, x % 256]
  {
    EncodeByte(x / 256);
  }

  lemma PackInt(f: Field, x: int, bs: seq<int>, r: seq<int>)
    requires f.kind == Int && f.size == Sized(|bs|) && bs != [] && Encode(x, |bs|) == bs
    ensures PackField(f, IntVal(x), r, 0) == Ok((r + bs, 0))
  {
  }

  lemma PackAt(schema: seq<Field>, vs: seq<Value>, i: nat, r: seq<int>, r': seq<int>)
    requires i < |schema| == |vs| && PackField(schema[i], vs[i], r, 0) == Ok((r', 0))
    ensures PackFields(schema[i..], vs[i..], r, 0) == PackFields(schema[i + 1..], vs[i + 1..], r', 0)
  {
    hide PackField;
    assert schema[i..][1..] == schema[i + 1..] && vs[i..][1..] == vs[i + 1..];
  }

  // The bytes after each of the first fields.
  function Header(dest: int, n: int, amId: int): seq<int> {
    [dest / 256, dest % 256, 0, 0, n, 0, amId]
  }

  lemma HeaderPacked(dest: int, amId: int, data: seq<int>)
    requires 0 <= dest < 0x1_0000 && 0 <= amId < 256
    ensures var m, v := ACTIVE_MESSAGE, MessageValues(dest, amId, data, |data|);
            var h := Header(dest, |data| % 256, amId);
            && |m| == |v| == 6
            && PackField(m[0], v[0], [], 0) == Ok((h[..2], 0)) && PackField(m[1], v[1], h[..2], 0) == Ok((h[..4], 0))
            && PackField(m[2], v[2], h[..4], 0) == Ok((h[..5], 0))
            && PackField(m[3], v[3], h[..5], 0) == Ok((h[..6], 0))
            && PackField(m[4], v[4], h[..6], 0) == Ok((h, 0)) && PackField(m[5], v[5], h, 0) == Ok((h + data, 0))
  {
    var m, n, h := ACTIVE_MESSAGE, |data| % 256, Header(dest, |data| % 256, amId);
    assert PackField(m[5], ListVal(data), h, 0) == Ok((h + data, 0));
    TwoBytes(dest);
    TwoBytes(0);
    EncodeByte(|data|);
    EncodeByte(0);
    EncodeByte(amId);
    hide PackField, Encode;
    PackInt(m[0], dest, [dest / 256, dest % 256], []);
    PackInt(m[1], 0, [0, 0], h[..2]);
    PackInt(m[2], |data|, [n], h[..4]);
    PackInt(m[3], 0, [0], h[..5]);
    PackInt(m[4], amId, [amId], h[..6]);
    assert [] + [dest / 256, dest % 256] == h[..2] && h[..2] + [0, 0] == h[..4];
    assert h[..4] + [n] == h[..5] && h[..5] + [0] == h[..6] && h[..6] + [amId] == h;
  }

  lemma PackedFromStart(dest: int, amId: int, data: seq<int>)
    ensures PackedMessage(dest, amId, data) ==
            PackFields(ACTIVE_MESSAGE[0..], MessageValues(dest, amId, data, |data|)[0..], [], 0)
  {
    MessageResolved();
    hide PackFields, Resolved;
    var v := MessageValues(dest, amId, data, |data|);
    assert ACTIVE_MESSAGE[0..] == ACTIVE_MESSAGE && v[0..] == v;
  }

  lemma PackedToEnd(schema: seq<Field>, vs: seq<Value>, r: seq<int>)
    requires |schema| == |vs| == 6
    ensures PackFields(schema[6..], vs[6..], r, 0) == Ok(r)
  {
  }

  /** An outgoing message: destination and source in two bytes each, high byte first, then length, group, type, data. */
  lemma MessageBytes(dest: int, amId: int, data: seq<int>)
    requires 0 <= dest < 0x1_0000 && 0 <= amId < 256
    ensures PackedMessage(dest, amId, data) == Ok([dest / 256, dest % 256, 0, 0, |data| % 256, 0, amId] + data)
  {
    var m, v := ACTIVE_MESSAGE, MessageValues(dest, amId, data, |data|);
    var h := Header(dest, |data| % 256, amId);
    assert h == [dest / 256, dest % 256, 0, 0, |data| % 256, 0, amId];
    hide *;
    HeaderPacked(dest, amId, data);
    PackedFromStart(dest, amId, data);
    PackedToEnd(m, v, h + data);
    PackAt(m, v, 0, [], h[..2]);
    PackAt(m, v, 1, h[..2], h[..4]);
    PackAt(m, v, 2, h[..4], h[..5]);
    PackAt(m, v, 3, h[..5], h[..6]);
    PackAt(m, v, 4, h[..6], h);
    PackAt(m, v, 5, h, h + data);
  }

  /** The values are those of such a message, each at the field with its name. */
  predicate IsMessage(values: seq<Value>, dest: int, length: int, amId: int, data: seq<int>) {
    && |values| == |ACTIVE_MESSAGE|
    && ByName(ACTIVE_MESSAGE, values, "destination") == Some(IntVal(dest))
    && ByName(ACTIVE_MESSAGE, values, "source") == Some(IntVal(0))
    && ByName(ACTIVE_MESSAGE, values, "length") == Some(IntVal(length))
    && ByName(ACTIVE_MESSAGE, values, "group") == Some(IntVal(0))
    && ByName(ACTIVE_MESSAGE, values, "type") == Some(IntVal(amId))
    && ByName(ACTIVE_MESSAGE, values, "data") == Some(ListVal(data))
  }

  /** What the far end reads from those bytes. */
  lemma MessageFields(dest: int, amId: int, data: seq<int>)
    requires 0 <= dest < 0x1_0000 && 0 <= amId < 256
    ensures var bytes := [dest / 256, dest % 256, 0, 0, |data| % 256, 0, amId] + data;
            var parsed := ParseFields(Resolved(ACTIVE_MESSAGE), bytes, 0, 0);
            parsed.Ok? && IsMessage(parsed.value, dest, |data| % 256, amId, data)
  {
    MessageBytes(dest, amId, data);
    MessageRoundTrip(dest, amId, data);
    NamesOfMessage(MessageValues(dest, amId, data, |data| % 256));
    hide ByName, ParseFields, PackedMessage, Resolved;
  }

  /** The data frame's bytes, field by field; the same for an acknowledgement's. */
  lemma FrameFields(seqno: byte, payload: seq<byte>)
    ensures var bytes := [68, seqno as int, 0] + ToInts(payload);
            var parsed := ParseFields(Resolved(DATA_FRAME), bytes, 0, 0);
            && bytes == ToInts(DataBody(seqno, payload))
            && parsed.Ok? && |parsed.value| == |DATA_FRAME|
            && ByName(DATA_FRAME, parsed.value, "protocol") == Some(IntVal(68))
            && ByName(DATA_FRAME, parsed.value, "seqno") == Some(IntVal(seqno as int))
            && ByName(DATA_FRAME, parsed.value, "dispatch") == Some(IntVal(0))
            && ByName(DATA_FRAME, parsed.value, "data") == Some(ListVal(ToInts(payload)))
    ensures var parsed := ParseFields(Resolved(ACK_FRAME), [67, seqno as int], 0, 0);
            && parsed.Ok? && |parsed.value| == |ACK_FRAME|
            && ByName(ACK_FRAME, parsed.value, "protocol") == Some(IntVal(67))
            && ByName(ACK_FRAME, parsed.value, "seqno") == Some(IntVal(seqno as int))
  {
    DataFrameParsed(seqno, payload);
    AckFrameFields([67, seqno]);
    assert ToInts(DataBody(seqno, payload)) == [68, seqno as int, 0] + ToInts(payload);
    assert ToInts([67, seqno]) == [67, seqno as int];
    assert StopAndWait.Protocol([67, seqno]) == 67 && StopAndWait.AckSeqno([67, seqno]) == seqno;
    NamesOfFrame(DataValues(seqno, payload));
    NamesOfAck([IntVal(67), IntVal(seqno as int)]);
    hide ByName, ParseFields, Resolved;
  }

  lemma {:induction false} NamedAt(schema: seq<Field>, values: seq<Value>, i: nat)
    requires |schema| == |values| && i < |schema| && forall j :: 0 <= j < i ==> schema[j].name != schema[i].name
    ensures ByName(schema, values, schema[i].name) == Some(values[i])
  {
    if i > 0 {
      NamedAt(schema[1..], values[1..], i - 1);
    }
  }

  lemma NamesOfMessage(v: seq<Value>)
    requires |v| == 6
    ensures |ACTIVE_MESSAGE| == 6
    ensures ByName(ACTIVE_MESSAGE, v, "destination") == Some(v[0]) && ByName(ACTIVE_MESSAGE, v, "source") == Some(v[1])
    ensures ByName(ACTIVE_MESSAGE, v, "length") == Some(v[2]) && ByName(ACTIVE_MESSAGE, v, "group") == Some(v[3])
    ensures ByName(ACTIVE_MESSAGE, v, "type") == Some(v[4]) && ByName(ACTIVE_MESSAGE, v, "data") == Some(v[5])
  {
    DistinctNames();
    hide ByName;
    NamedAt(ACTIVE_MESSAGE, v, 0);
    NamedAt(ACTIVE_MESSAGE, v, 1);
    NamedAt(ACTIVE_MESSAGE, v, 2);
    NamedAt(ACTIVE_MESSAGE, v, 3);
    NamedAt(ACTIVE_MESSAGE, v, 4);
    NamedAt(ACTIVE_MESSAGE, v, 5);
  }

  lemma DistinctNames()
    ensures |ACTIVE_MESSAGE| == 6
    ensures ACTIVE_MESSAGE[0].name == "destination" && ACTIVE_MESSAGE[1].name == "source"
    ensures ACTIVE_MESSAGE[2].name == "length" && ACTIVE_MESSAGE[3].name == "group"
    ensures ACTIVE_MESSAGE[4].name == "type" && ACTIVE_MESSAGE[5].name == "data"
    ensures forall i, j :: 0 <= i < j < 6 ==> ACTIVE_MESSAGE[i].name != ACTIVE_MESSAGE[j].name
  {
    assert |"destination"| == 11 && |"source"| == |"length"| == 6 && |"group"| == 5 && |"type"| == |"data"| == 4;
    assert "source"[0] == 's' && "length"[0] == 'l' && "type"[0] == 't' && "data"[0] == 'd';
  }

  lemma NamesOfFrame(v: seq<Value>)
    requires |v| == 4
    ensures |DATA_FRAME| == 4
    ensures ByName(DATA_FRAME, v, "protocol") == Some(v[0]) && ByName(DATA_FRAME, v, "seqno") == Some(v[1])
    ensures ByName(DATA_FRAME, v, "dispatch") == Some(v[2]) && ByName(DATA_FRAME, v, "data") == Some(v[3])
  {
    assert |"protocol"| == |"dispatch"| == 8 && |"seqno"| == 5 && |"data"| == 4;
    assert "protocol"[0] == 'p' && "dispatch"[0] == 'd';
    hide ByName;
    forall i | 0 <= i < 4
      ensures ByName(DATA_FRAME, v, DATA_FRAME[i].name) == Some(v[i])
    {
      NamedAt(DATA_FRAME, v, i);
    }
    assert DATA_FRAME[0].name == "protocol" && DATA_FRAME[1].name == "seqno";
    assert DATA_FRAME[2].name == "dispatch" && DATA_FRAME[3].name == "data";
  }

  lemma NamesOfAck(v: seq<Value>)
    requires |v| == 2
    ensures |ACK_FRAME| == 2
    ensures ByName(ACK_FRAME, v, "protocol") == Some(v[0]) && ByName(ACK_FRAME, v, "seqno") == Some(v[1])
  {
    assert |"protocol"| == 8 && |"seqno"| == 5;
    hide ByName;
    NamedAt(ACK_FRAME, v, 0);
    NamedAt(ACK_FRAME, v, 1);
    assert ACK_FRAME[0].name == "protocol" && ACK_FRAME[1].name == "seqno";
  }

  // ---------- All layers ----------

  lemma {:induction false} EncodeIsBytes(val: int, dim: nat)
    ensures AreBytes(Encode(val, dim))
    decreases dim
  {
    if dim > 0 {
      EncodeIsBytes(val / 256, dim - 1);
    }
  }

  lemma {:induction false} PackedAreBytes(schema: seq<Field>, vs: seq<Value>, r: seq<int>)
    requires |schema| == |vs| && AreBytes(r)
    requires forall f :: f in schema ==> f.kind != BInt
    requires forall v :: v in vs && v.ListVal? ==> AreBytes(v.xs)
    ensures PackFields(schema, vs, r, 0).Ok? ==> AreBytes(PackFields(schema, vs, r, 0).value)
    decreases schema
  {
    if schema != [] {
      assert schema[0] in schema && vs[0] in vs;
      var p := PackField(schema[0], vs[0], r, 0);
      if p.Ok? {
        if schema[0].kind == Int && vs[0].IntVal? {
          EncodeIsBytes(vs[0].n, |p.value.0| - |r|);
        }
        assert AreBytes(p.value.0) && p.value.1 == 0;
        PackedAreBytes(schema[1..], vs[1..], p.value.0);
      }
    }
  }

  lemma NoBytes()
    ensures AreBytes([])
  {
  }

  lemma MessageIsBytes(dest: int, amId: int, data: seq<int>)
    requires AreBytes(data) && PackedMessage(dest, amId, data).Ok?
    ensures AreBytes(PackedMessage(dest, amId, data).value)
  {
    hide PackFields, Resolved, AreBytes, PackField;
    var schema, vs := ACTIVE_MESSAGE, MessageValues(dest, amId, data, |data|);
    MessageResolved();
    assert forall v :: v in vs && v.ListVal? ==> v.xs == data;
    NoBytes();
    PackedAreBytes(schema, vs, []);
  }

  /**
   An active message of at most 255 bytes, sent with `WritePacket` and read at the far end, survives
   all layers: the reader finds the frame with a good CRC, the data frame in it carries the sequence
   number and the message's bytes, and unpacking those gives every field of the message.
   */
  lemma SurvivesTheWire(dest: int, amId: int, data: seq<int>, seqno: byte, s: seq<Event>)
    requires 0 <= dest < 0x1_0000 && 0 <= amId < 256 && AreBytes(data) && |data| < 256
    ensures var packed := [dest / 256, dest % 256, 0, 0, |data|, 0, amId] + data;
            PackedMessage(dest, amId, data) == Ok(packed) && AreBytes(packed)
    ensures var packed := [dest / 256, dest % 256, 0, 0, |data|, 0, amId] + data;
            var body := DataBody(seqno, FromInts(packed));
            && Read(AsEvents(Frame(body)) + s) == Outcome(Some(Received(body, true)), s)
            && ParseFields(Resolved(DATA_FRAME), ToInts(body), 0, 0) ==
               Ok([IntVal(68), IntVal(seqno as int), IntVal(0), ListVal(packed)])
    ensures var packed := [dest / 256, dest % 256, 0, 0, |data|, 0, amId] + data;
            var parsed := ParseFields(Resolved(ACTIVE_MESSAGE), packed, 0, 0);
            parsed.Ok? && IsMessage(parsed.value, dest, |data|, amId, data)
  {
    hide *;
    MessageBytes(dest, amId, data);
    MessageIsBytes(dest, amId, data);
    MessageFields(dest, amId, data);
    var packed := [dest / 256, dest % 256, 0, 0, |data|, 0, amId] + data;
    ReadFrame(DataBody(seqno, FromInts(packed)), s);
    DataFrameParsed(seqno, FromInts(packed));
    DataValuesAre(seqno, packed);
  }

  lemma DataValuesAre(seqno: byte, packed: seq<int>)
    requires AreBytes(packed)
    ensures DataValues(seqno, FromInts(packed)) == [IntVal(68), IntVal(seqno as int), IntVal(0), ListVal(packed)]
  {
    ToFromInts(packed);
    hide AreBytes, ToInts, FromInts;
  }
}
