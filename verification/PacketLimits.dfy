/**
 The converse of the round trip: a description that is not `Exact` loses the values of some packet that
 fits it.  So `Exact` is the condition under which packing and parsing agree, and it can be read off
 the description.
 */
module PacketLimits {
  import opened Basics
  import opened Packet
  import opened RoundTrip

  // ---------- Values to start from ----------

  function Zeros(n: nat): (xs: seq<int>)
    ensures |xs| == n
  {
    seq(n, _ => 0)
  }

  // Zero, and [1] for a blob of any length.
  function Plain(f: Field): Value {
    if f.kind != Blob then IntVal(0) else ListVal(if f.size.Sized? then Zeros(f.size.n) else [1])
  }

  function PlainValues(schema: seq<Field>): (values: seq<Value>)
    ensures |values| == |schema|
  {
    if schema == [] then [] else [Plain(schema[0])] + PlainValues(schema[1..])
  }

  lemma {:induction false} PlainFit(schema: seq<Field>)
    requires ResolvedForm(schema)
    ensures AllFit(schema, PlainValues(schema))
  {
    if schema != [] {
      PlainFit(schema[1..]);
      FitsMore(schema, Plain(schema[0]), PlainValues(schema[1..]));
    }
  }

  lemma FitsMore(schema: seq<Field>, v: Value, vs: seq<Value>)
    requires schema != [] && Fits(schema[0], v) && AllFit(schema[1..], vs)
    ensures AllFit(schema, [v] + vs)
  {
  }

  lemma HeadDiffers(schema: seq<Field>, values: seq<Value>, p: seq<int>, offset: int, boffset: int)
    requires schema != [] && |values| == |schema|
    requires var field := ParseField(schema[0], p, offset, boffset); field.Ok? ==> field.value.0 != values[0]
    ensures ParseFields(schema, p, offset, boffset) != Ok(values)
  {
  }

  lemma TailDiffers(schema: seq<Field>, v: Value, vs: seq<Value>, p: seq<int>, offset: int, boffset: int,
                    offset': int, boffset': int)
    requires schema != [] && ParseField(schema[0], p, offset, boffset) == Ok((v, offset', boffset'))
    requires ParseFields(schema[1..], p, offset', boffset') != Ok(vs)
    ensures ParseFields(schema, p, offset, boffset) != Ok([v] + vs)
  {
    hide ParseField;
    var more := ParseFields(schema[1..], p, offset', boffset');
    if more.Ok? {
      assert ([v] + more.value)[1..] == more.value && ([v] + vs)[1..] == vs;
    }
  }

  // Fields that can pack something do, with these values.
  lemma {:induction false} PlainGrow(schema: seq<Field>, r: seq<int>)
    requires ResolvedForm(schema) && !(AllSized(schema) && Bytes(schema, 0) == 0)
    ensures var p := PackFields(schema, PlainValues(schema), r, 0); p.Ok? ==> |p.value| > |r|
    decreases schema
  {
    if schema == [] {
      assert AllSized(schema);
    } else {
      var f, rest, vs := schema[0], schema[1..], PlainValues(schema[1..]);
      var packed := PackField(f, Plain(f), r, 0);
      assert PlainValues(schema)[1..] == vs;
      if packed.Ok? {
        var r', b' := packed.value.0, packed.value.1;
        PackPrefix(rest, vs, r', b');
        if |r'| == |r| {
          assert f.size == Sized(0) && f.kind != BInt;
          assert r' == r && b' == 0;
          assert AllSized(schema) <==> AllSized(rest) by {
            assert forall g :: g in schema <==> g == f || g in rest;
          }
          PlainGrow(rest, r);
        }
      }
    }
  }

  // ---------- A parser left behind ----------

  // A head with the value `v`, and values to start from behind it.
  lemma WithPlain(schema: seq<Field>, v: Value, r: seq<int>, pack: int) returns (values: seq<Value>)
    requires ResolvedForm(schema) && schema != [] && Fits(schema[0], v)
    ensures AllFit(schema, values) && values[0] == v
    ensures var packed, p := PackField(schema[0], v, r, pack), PackFields(schema, values, r, pack);
            p.Ok? ==> packed.Ok? && |packed.value.0| <= |p.value| &&
                      forall i :: 0 <= i < |packed.value.0| - 1 ==> p.value[i] == packed.value.0[i]
  {
    var rest := schema[1..];
    PlainFit(rest);
    var vs := PlainValues(rest);
    FitsMore(schema, v, vs);
    values := [v] + vs;
    assert values[1..] == vs;
    hide PackField, Fits, AllFit, ResolvedForm;
    var packed := PackField(schema[0], v, r, pack);
    if packed.Ok? {
      PackPrefix(rest, vs, packed.value.0, packed.value.1);
    }
  }

  // A blob is read from a zero byte that was packed before it.
  lemma MisreadBlob(schema: seq<Field>, r: seq<int>, offset: nat, pack: int, boffset: int) returns (values: seq<Value>)
    requires ResolvedForm(schema) && schema != [] && schema[0].kind == Blob && offset < |r| && r[offset] == 0
    ensures AllFit(schema, values)
    ensures var p := PackFields(schema, values, r, pack);
            p.Ok? ==> ParseFields(schema, p.value, offset, boffset) != Ok(values)
  {
    var f := schema[0];
    var xs := if f.size == Sized(0) then [] else [1] + if f.size.Sized? then Zeros(f.size.n - 1) else [];
    values := WithPlain(schema, ListVal(xs), r, pack);
    var p := PackFields(schema, values, r, pack);
    hide AllFit, ResolvedForm;
    if p.Ok? {
      assert xs != [] ==> p.value[offset] == (r + xs)[offset] == 0;
      HeadDiffers(schema, values, p.value, offset, boffset);
    }
  }

  // A number is read from zero bytes that were packed before it.
  lemma MisreadInt(schema: seq<Field>, r: seq<int>, offset: nat, boffset: int) returns (values: seq<Value>)
    requires ResolvedForm(schema) && schema != [] && schema[0].kind == Int && schema[0].size.n > 0
    requires offset < |r| && forall i :: offset <= i < |r| ==> r[i] == 0
    ensures AllFit(schema, values)
    ensures var p := PackFields(schema, values, r, 0);
            p.Ok? ==> ParseFields(schema, p.value, offset, boffset) != Ok(values)
  {
    var f := schema[0];
    EncodeOne(f.size.n);
    values := WithPlain(schema, IntVal(1), r, 0);
    var p := PackFields(schema, values, r, 0);
    hide AllFit, ResolvedForm;
    if p.Ok? {
      var r' := r + Encode(1, f.size.n);
      assert forall i :: offset <= i < offset + f.size.n ==> p.value[i] == r'[i] == 0;
      ReadsZero(f, p.value, offset, boffset);
      HeadDiffers(schema, values, p.value, offset, boffset);
    }
  }

  lemma ReadsZero(f: Field, p: seq<int>, offset: nat, boffset: int)
    requires f.kind == Int && f.size.Sized? && offset + f.size.n <= |p|
    requires forall i :: offset <= i < offset + f.size.n ==> p[i] == 0
    ensures ParseField(f, p, offset, boffset) == Ok((IntVal(0), offset + f.size.n, boffset))
  {
    DecodeZeros(Slice(p, offset, offset + f.size.n));
  }

  lemma {:induction false} EncodeOne(n: nat)
    requires n > 0
    ensures forall i :: 0 <= i < n - 1 ==> Encode(1, n)[i] == 0
    ensures 1 < Pow256(n)
  {
    assert Encode(1, n) == Encode(0, n - 1) + [1];
    EncodeZero(n - 1);
    assert Pow256(n) == 256 * Pow256(n - 1);
  }

  lemma {:induction false} EncodeZero(n: nat)
    ensures forall i :: 0 <= i < n ==> Encode(0, n)[i] == 0
  {
    if n > 0 {
      EncodeZero(n - 1);
    }
  }

  lemma {:induction false} DecodeZeros(v: seq<int>)
    requires forall i :: 0 <= i < |v| ==> v[i] == 0
    ensures Decode(v) == 0
  {
    if v != [] {
      DecodeZeros(v[..|v| - 1]);
    }
  }

  // So is a bit field.
  lemma MisreadBits(schema: seq<Field>, r: seq<int>, offset: nat, boffset: int) returns (values: seq<Value>)
    requires ResolvedForm(schema) && schema != [] && schema[0].kind == BInt && schema[0].size.n > 0
    requires offset < |r| && r[offset] == 0
    ensures AllFit(schema, values)
    ensures var p := PackFields(schema, values, r, 0);
            p.Ok? ==> ParseFields(schema, p.value, offset, boffset) != Ok(values)
  {
    var f := schema[0];
    assert Pow2(f.size.n) == 2 * Pow2(f.size.n - 1) >= 2;
    values := WithPlain(schema, IntVal(1), r, 0);
    var p := PackFields(schema, values, r, 0);
    hide AllFit, ResolvedForm, PackFields, Pow2;
    if p.Ok? {
      assert p.value[offset] == r[offset];
      ZeroBitsRead(f, p.value, offset, boffset);
      HeadDiffers(schema, values, p.value, offset, boffset);
    }
  }

  lemma ZeroBitsRead(f: Field, p: seq<int>, offset: nat, boffset: int)
    requires f.kind == BInt && f.size.Sized? && offset < |p| && p[offset] == 0
    ensures var field := ParseField(f, p, offset, boffset); field.Ok? ==> field.value.0 == IntVal(0)
  {
    hide Pow2;
  }

  // Once the parser is behind the packer, on zero bytes, it stays there until a field tells them apart.
  lemma {:induction false} BehindFails(schema: seq<Field>, r: seq<int>, offset: nat, boffset: int)
    returns (values: seq<Value>)
    requires ResolvedForm(schema) && !Idle(schema) && 0 <= boffset < 8
    requires offset < |r| && forall i :: offset <= i < |r| ==> r[i] == 0
    ensures AllFit(schema, values)
    ensures var p := PackFields(schema, values, r, 0);
            p.Ok? ==> ParseFields(schema, p.value, offset, boffset) != Ok(values)
    decreases schema
  {
    var f, rest := schema[0], schema[1..];
    if f.kind == Blob {
      values := MisreadBlob(schema, r, offset, 0, boffset);
    } else if f.size.n > 0 {
      if f.kind == Int {
        values := MisreadInt(schema, r, offset, boffset);
      } else {
        values := MisreadBits(schema, r, offset, boffset);
      }
    } else {
      var r' := if f.kind == Int then r else r + [0];
      var vs := BehindFails(rest, r', offset, boffset);
      values := BehindStep(schema, r, offset, boffset, r', vs);
    }
  }

  lemma BehindStep(schema: seq<Field>, r: seq<int>, offset: nat, boffset: int, r': seq<int>, vs: seq<Value>)
    returns (values: seq<Value>)
    requires ResolvedForm(schema) && schema != [] && schema[0].kind != Blob && schema[0].size == Sized(0)
    requires 0 <= boffset < 8 && offset < |r'| && r' == (if schema[0].kind == Int then r else r + [0])
    requires AllFit(schema[1..], vs)
    requires var p := PackFields(schema[1..], vs, r', 0);
             p.Ok? ==> ParseFields(schema[1..], p.value, offset, boffset) != Ok(vs)
    ensures AllFit(schema, values)
    ensures var p := PackFields(schema, values, r, 0);
            p.Ok? ==> ParseFields(schema, p.value, offset, boffset) != Ok(values)
  {
    var f, rest := schema[0], schema[1..];
    assert Pow2(0) == 1 && Pow256(0) == 1;
    FitsMore(schema, IntVal(0), vs);
    values := [IntVal(0)] + vs;
    assert values[1..] == vs;
    assert PackField(f, IntVal(0), r, 0) == Ok((r', 0));
    var p := PackFields(schema, values, r, 0);
    assert p == PackFields(rest, vs, r', 0);
    if p.Ok? {
      PackPrefix(rest, vs, r', 0);
      IdleField(f, IntVal(0), p.value, offset, boffset);
      TailDiffers(schema, IntVal(0), vs, p.value, offset, boffset, offset, boffset);
    }
  }

  // ---------- Blobs that take too much or too little ----------

  // The blob ends up with what the fields behind it packed.
  lemma TakesMore(schema: seq<Field>, r: seq<int>) returns (values: seq<Value>)
    requires ResolvedForm(schema) && schema != [] && schema[0].kind == Blob
    requires schema[0].size == Sized(0) || schema[0].size == Unsized
    requires !(AllSized(schema[1..]) && Bytes(schema[1..], 0) == 0)
    ensures AllFit(schema, values) && !Returns(schema, values, r, 0)
  {
    var rest := schema[1..];
    PlainFit(rest);
    var vs := PlainValues(rest);
    FitsMore(schema, ListVal([]), vs);
    values := [ListVal([])] + vs;
    assert values[1..] == vs && r + [] == r;
    PlainGrow(rest, r);
    var p := PackFields(schema, values, r, 0);
    assert p == PackFields(rest, vs, r, 0);
    if p.Ok? {
      HeadDiffers(schema, values, p.value, |r|, 0);
    }
  }

  // The offset stays before the blob, where another blob, of size 0, takes it again.
  lemma TakenTwice(schema: seq<Field>, r: seq<int>) returns (values: seq<Value>)
    requires ResolvedForm(schema) && schema != [] && schema[0] == Field(schema[0].name, Blob, Unsized)
    requires AllSized(schema[1..]) && Bytes(schema[1..], 0) == 0 && !NoBlobs(schema[1..])
    ensures AllFit(schema, values) && !Returns(schema, values, r, 0)
  {
    var rest := schema[1..];
    PlainFit(rest);
    var vs := PlainValues(rest);
    FitsMore(schema, ListVal([1]), vs);
    values := [ListVal([1])] + vs;
    assert values[1..] == vs;
    var p := r + [1];
    NoBytesPack(rest, vs, p);
    assert PackFields(schema, values, r, 0) == Ok(p);
    BlobOfNothing(rest, vs, p, |r|);
    TailDiffers(schema, ListVal([1]), vs, p, |r|, 0, |r|, 0);
  }

  lemma {:induction false} BlobOfNothing(fields: seq<Field>, values: seq<Value>, p: seq<int>, offset: nat)
    requires AllSized(fields) && Bytes(fields, 0) == 0 && !NoBlobs(fields) && AllFit(fields, values)
    requires offset < |p|
    ensures ParseFields(fields, p, offset, 0) != Ok(values)
    decreases fields
  {
    var f, v := fields[0], values[0];
    assert f in fields && Fits(f, v);
    if f.kind == Blob {
      HeadDiffers(fields, values, p, offset, 0);
    } else {
      assert !NoBlobs(fields[1..]);
      BlobOfNothing(fields[1..], values[1..], p, offset);
    }
  }

  // The end of the blob is not where the parser looks for it.
  lemma WrongEnd(schema: seq<Field>, r: seq<int>) returns (values: seq<Value>)
    requires ResolvedForm(schema) && schema != [] && schema[0].size.FromEnd?
    requires schema[0].size.k != Bytes(schema[1..], 0)
    ensures AllFit(schema, values) && !Returns(schema, values, r, 0)
  {
    var rest, k := schema[1..], schema[0].size.k;
    PlainFit(rest);
    var vs := PlainValues(rest);
    FitsMore(schema, ListVal(Zeros(k)), vs);
    values := [ListVal(Zeros(k))] + vs;
    assert values[1..] == vs;
    PackLength(rest, vs, r + Zeros(k), 0);
    var p := PackFields(schema, values, r, 0);
    if p.Ok? {
      var end: int := k;
      assert |Slice(p.value, |r|, 0 - end)| == Bytes(rest, 0);
      HeadDiffers(schema, values, p.value, |r|, 0);
    }
  }

  // ---------- The theorem ----------

  lemma {:induction false} Fails(schema: seq<Field>, r: seq<int>, boffset: int) returns (values: seq<Value>)
    requires ResolvedForm(schema) && !Exact(schema, boffset)
    requires Clear(r, boffset) && (boffset > 0 ==> r[|r| - 1] == 0)
    ensures AllFit(schema, values) && !Returns(schema, values, r, boffset)
    decreases schema
  {
    var f, rest := schema[0], schema[1..];
    if InStep(f, rest, boffset) {
      var r', b' := ZeroStep(schema, r, boffset);
      assert !Exact(rest, b');
      var vs := Fails(rest, r', b');
      values := StepFails(schema, r, boffset, vs);
    } else {
      match f.kind
      case Int =>
        values := BehindFails(schema, r, |r| - 1, boffset);
        assert PackFields(schema, values, r, boffset) == PackFields(schema, values, r, 0);
      case BInt => values := BitsFail(schema, r, boffset);
      case Blob => values := BlobFails(schema, r, boffset);
    }
  }

  lemma StepFails(schema: seq<Field>, r: seq<int>, boffset: int, vs: seq<Value>) returns (values: seq<Value>)
    requires ResolvedForm(schema) && schema != [] && InStep(schema[0], schema[1..], boffset) && Clear(r, boffset)
    requires AllFit(schema[1..], vs)
    requires var packed := PackField(schema[0], Plain(schema[0]), r, boffset);
             packed.Ok? && !Returns(schema[1..], vs, packed.value.0, NextBit(schema[0], boffset))
    ensures AllFit(schema, values) && !Returns(schema, values, r, boffset)
  {
    var f := schema[0];
    values := [Plain(f)] + vs;
    assert values[1..] == vs;
    PlainFit(schema);
    FitsMore(schema, Plain(f), vs);
    hide *;
    var again := Step(schema, values, r, boffset);
  }

  lemma BlobFails(schema: seq<Field>, r: seq<int>, boffset: int) returns (values: seq<Value>)
    requires ResolvedForm(schema) && !Exact(schema, boffset) && schema[0].kind == Blob
    requires Clear(r, boffset) && (boffset > 0 ==> r[|r| - 1] == 0) && !InStep(schema[0], schema[1..], boffset)
    ensures AllFit(schema, values) && !Returns(schema, values, r, boffset)
  {
    var f, rest := schema[0], schema[1..];
    if boffset > 0 {
      values := MisreadBlob(schema, r, |r| - 1, boffset, boffset);
    } else if f.size.FromEnd? {
      values := WrongEnd(schema, r);
    } else if AllSized(rest) && Bytes(rest, 0) == 0 {
      values := TakenTwice(schema, r);
    } else {
      values := TakesMore(schema, r);
    }
  }

  // One field of zeros, on which both sides agree.
  lemma ZeroStep(schema: seq<Field>, r: seq<int>, boffset: int) returns (r': seq<int>, b': int)
    requires ResolvedForm(schema) && schema != [] && InStep(schema[0], schema[1..], boffset)
    requires Clear(r, boffset) && (boffset > 0 ==> r[|r| - 1] == 0)
    ensures b' == NextBit(schema[0], boffset) && PackField(schema[0], Plain(schema[0]), r, boffset) == Ok((r', b'))
    ensures Clear(r', b') && (b' > 0 ==> r'[|r'| - 1] == 0)
  {
    PlainFit(schema);
    b' := NextBit(schema[0], boffset);
    r' := Step(schema, PlainValues(schema), r, boffset);
    if b' > 0 {
      assert 0 * Pow2(8 - (boffset + schema[0].size.n)) == 0;
      assert BitOr(0, 0) == 0;
    }
  }

  lemma BitsFail(schema: seq<Field>, r: seq<int>, boffset: int) returns (values: seq<Value>)
    requires ResolvedForm(schema) && !Exact(schema, boffset) && schema[0].kind == BInt
    requires Clear(r, boffset) && !InStep(schema[0], schema[1..], boffset)
    ensures AllFit(schema, values) && !Returns(schema, values, r, boffset)
  {
    var f, rest := schema[0], schema[1..];
    if boffset + f.size.n > 8 {
      PlainFit(schema);
      values := PlainValues(schema);
    } else {
      assert f.size.n == 0 && boffset == 0;
      var vs := BehindFails(rest, r + [0], |r|, 0);
      values := BehindStep(schema, r, |r|, 0, r + [0], vs);
    }
  }

  /** All values that fit come back. */
  ghost predicate AlwaysReturns(desc: seq<Field>) {
    forall values :: AllFit(desc, values) ==> RoundTrips(desc, values)
  }

  predicate RoundTrips(desc: seq<Field>, values: seq<Value>) {
    var bytes := PackFields(Resolved(desc), values, [], 0);
    bytes.Ok? && ParseFields(Resolved(desc), bytes.value, 0, 0) == Ok(values)
  }

  // A value that fits the blob fits it whatever size it was told.
  lemma FitsBlob(desc: seq<Field>, v: Value)
    requires desc != [] && desc[0].kind == Blob && desc[0].size == Unsized && Fits(Resolved(desc)[0], v)
    ensures Fits(desc[0], v)
  {
  }

  lemma ResolvedKeepsTail(desc: seq<Field>)
    requires desc != [] && desc[0].size == Unsized && HasSizes(desc[1..])
    ensures Resolved(desc) != [] && Resolved(desc)[1..] == desc[1..]
  {
    hide HasSizes, SizesSum;
  }

  lemma NothingResolved()
    ensures Resolved([]) == []
  {
  }

  lemma {:induction false} FitsUnresolved(desc: seq<Field>, values: seq<Value>)
    requires Described(desc) && AllFit(Resolved(desc), values)
    ensures AllFit(desc, values)
    decreases desc
  {
    hide *;
    if desc == [] {
      NothingResolved();
    } else {
      DescribedHead(desc);
      if desc[0].size == Unsized && HasSizes(desc[1..]) {
        ResolvedKeepsTail(desc);
        FitsHead(Resolved(desc), values);
        FitsBlob(desc, values[0]);
      } else {
        ResolvedTail(desc);
        FitsHead(Resolved(desc), values);
        FitsUnresolved(desc[1..], values[1..]);
      }
      assert values == [values[0]] + values[1..];
      FitsMore(desc, values[0], values[1..]);
    }
  }

  /**
   Packing and parsing agree on every packet of a description if and only if the description is exact.
   */
  lemma ExactIff(desc: seq<Field>)
    requires Described(desc)
    ensures AlwaysReturns(desc) <==> Exact(desc, 0)
  {
    if Exact(desc, 0) {
      forall values | AllFit(desc, values)
        ensures RoundTrips(desc, values)
      {
        PacketRoundTrip(desc, values);
      }
    } else {
      ResolvedAlike(desc);
      ExactResolved(desc, 0);
      var values := Fails(Resolved(desc), [], 0);
      FitsUnresolved(desc, values);
      assert !RoundTrips(desc, values);
    }
  }

  // ---------- Instances ----------

  lemma TwoFields(f: Field, g: Field, v: Value, w: Value, p: seq<int>, b: int, q: seq<int>, c: int)
    requires AllSized([f, g])
    requires PackField(f, v, [], 0) == Ok((p, b)) && PackField(g, w, p, b) == Ok((q, c))
    ensures PackFields(Resolved([f, g]), [v, w], [], 0) == Ok(q)
  {
    AllSizedResolved([f, g]);
    assert [f, g][1..] == [g] && [g][1..] == [] && [v, w][1..] == [w] && [w][1..] == [];
    assert PackFields([g], [w], p, b) == PackFields([], [], q, c);
  }

  lemma TwoFieldsBack(f: Field, g: Field, v: Value, w: Value, p: seq<int>, o: int, b: int, o': int, b': int)
    requires AllSized([f, g])
    requires ParseField(f, p, 0, 0) == Ok((v, o, b)) && ParseField(g, p, o, b) == Ok((w, o', b'))
    ensures ParseFields(Resolved([f, g]), p, 0, 0) == Ok([v, w])
  {
    AllSizedResolved([f, g]);
    assert [f, g][1..] == [g] && [g][1..] == [];
    hide ParseField;
    assert ParseFields([], p, o', b') == Ok([]);
    assert ParseFields([g], p, o, b) == Ok([w] + []) && [w] + [] == [w];
    assert ParseFields([f, g], p, 0, 0) == Ok([v] + [w]) && [v] + [w] == [v, w];
  }

  lemma HalfByte(f: Field)
    requires f.kind == BInt && f.size == Sized(4)
    ensures PackField(f, IntVal(1), [], 0) == Ok(([16], 4))
    ensures ParseField(f, [16, 2], 0, 0) == Ok((IntVal(1), 0, 4))
  {
    assert Pow2(4) == 16;
    assert [] + [16] == [16];
  }

  lemma WholeByte(f: Field)
    requires f.kind == Int && f.size == Sized(1)
    ensures PackField(f, IntVal(2), [16], 4) == Ok(([16, 2], 0))
    ensures ParseField(f, [16, 2], 0, 4) == Ok((IntVal(16), 1, 4))
  {
    assert Encode(2, 1) == Encode(0, 0) + [2] == [2];
    assert [16] + [2] == [16, 2];
    assert [16, 2][0..1] == [16] && [16][..0] == [] && Decode([16]) == 16;
  }

  /** Bits that do not fill their byte: the field after them is read from that byte again. */
  lemma UnfilledByteIsReadTwice()
    ensures var desc := [Field("bits", BInt, Sized(4)), Field("n", Int, Sized(1))];
            && PackFields(Resolved(desc), [IntVal(1), IntVal(2)], [], 0) == Ok([16, 2])
            && ParseFields(Resolved(desc), [16, 2], 0, 0) == Ok([IntVal(1), IntVal(16)])
  {
    var bits, n := Field("bits", BInt, Sized(4)), Field("n", Int, Sized(1));
    assert AllSized([bits, n]);
    hide *;
    HalfByte(bits);
    WholeByte(n);
    TwoFields(bits, n, IntVal(1), IntVal(2), [16], 4, [16, 2], 0);
    TwoFieldsBack(bits, n, IntVal(1), IntVal(16), [16, 2], 0, 4, 1, 4);
  }

  /** A blob of declared size 0 takes the rest of the packet. */
  lemma EmptyBlobTakesAll()
    ensures var desc := [Field("data", Blob, Sized(0)), Field("n", Int, Sized(1))];
            && PackFields(Resolved(desc), [ListVal([]), IntVal(7)], [], 0) == Ok([7])
            && ParseFields(Resolved(desc), [7], 0, 0) == Ok([ListVal([7]), IntVal(7)])
  {
    var data, n, p := Field("data", Blob, Sized(0)), Field("n", Int, Sized(1)), [7];
    assert Encode(7, 1) == Encode(0, 0) + [7] == [7];
    assert [] + [7] == p;
    var nothing: seq<int> := [];
    assert nothing + nothing == nothing;
    TwoFields(data, n, ListVal([]), IntVal(7), [], 0, p, 0);
    assert p[0..] == p && p[0..1] == p && p[..0] == [] && Decode(p) == 7;
    TwoFieldsBack(data, n, ListVal(p), IntVal(7), p, 0, 0, 1, 0);
  }

  const DATA := Field("data", Blob, Unsized)
  const HI := Field("hi", BInt, Sized(4))
  const LO := Field("lo", BInt, Sized(4))

  lemma BitsBehindBlobResolved()
    ensures Resolved([DATA, HI, LO]) == [DATA.(size := FromEnd(8)), HI, LO] && !Exact([DATA, HI, LO], 0)
  {
    var desc := [DATA, HI, LO];
    assert desc[1..] == [HI, LO] && [HI, LO][1..] == [LO] && [LO][1..] == [];
    assert SizesSum([LO]) == 4 && SizesSum([HI, LO]) == 8;
    assert AllSized([LO]) && AllSized([HI, LO]);
    assert Bytes([LO], 4) == Bytes([LO][1..], 0) == 0;
    assert Bytes([HI, LO], 0) == 1 + Bytes([HI, LO][1..], 4) == 1;
    ResolvedAt(desc, 0);
  }

  lemma HalvesPacked()
    ensures PackField(HI, IntVal(2), [1], 0) == Ok(([1, 32], 4))
    ensures PackField(LO, IntVal(3), [1, 32], 4) == Ok(([1, 35], 0))
  {
    HalfWeights();
    hide Pow2, BitOr;
    assert [1] + [2 * 16] == [1, 32];
    assert [1, 32][1 := 35] == [1, 35];
  }

  lemma HalfWeights()
    ensures Pow2(4) == 16 && Pow2(0) == 1 && BitOr(32, 3 * 1) == 35
  {
    assert BitOr(8, 0) == 8 by { BitOrZero(8); }
    assert BitOr(16, 1) == 17;
  }

  lemma BitsBehindBlobPacked(blob: Field)
    requires blob.kind == Blob
    ensures PackFields([blob, HI, LO], [ListVal([1]), IntVal(2), IntVal(3)], [], 0) == Ok([1, 35])
  {
    var schema, values := [blob, HI, LO], [ListVal([1]), IntVal(2), IntVal(3)];
    assert PackField(blob, ListVal([1]), [], 0) == Ok(([1], 0)) by { assert [] + [1] == [1]; }
    HalvesPacked();
    hide PackField;
    assert schema[1..] == [HI, LO] && [HI, LO][1..] == [LO] && [LO][1..] == [];
    assert values[1..] == [IntVal(2), IntVal(3)];
    assert [IntVal(2), IntVal(3)][1..] == [IntVal(3)] && [IntVal(3)][1..] == [];
    assert PackFields([], [], [1, 35], 0) == Ok([1, 35]);
    assert PackFields([LO], [IntVal(3)], [1, 32], 4) == Ok([1, 35]);
    assert PackFields([HI, LO], [IntVal(2), IntVal(3)], [1], 0) == Ok([1, 35]);
  }

  /** Bits behind a blob of any length, although they fill a byte: their sizes are summed as if they were bytes. */
  lemma BitsBehindBlob()
    ensures var desc := [DATA, HI, LO];
            && PackFields(Resolved(desc), [ListVal([1]), IntVal(2), IntVal(3)], [], 0) == Ok([1, 35])
            && ParseFields(Resolved(desc), [1, 35], 0, 0) == Err
            && !Exact(desc, 0)
  {
    var blob := DATA.(size := FromEnd(8));
    BitsBehindBlobResolved();
    BitsBehindBlobPacked(blob);
    var p, schema := [1, 35], [blob, HI, LO];
    assert schema[1..] == [HI, LO];
    assert ParseField(blob, p, 0, 0) == Ok((ListVal([]), 0 - 6, 0));
    assert ParseField(HI, p, 0 - 6, 0) == Err;
    hide ParseField;
    assert ParseFields([HI, LO], p, 0 - 6, 0) == Err;
  }

  // ---------- A number without a size ----------

  lemma NumberResolved(x: Field, y: Field, k: nat)
    requires x.size == Unsized && y.size == Sized(k) && k > 0
    ensures Resolved([x, y]) == [x.(size := FromEnd(k)), y]
  {
    var desc := [x, y];
    assert desc[1..] == [y] && [y][1..] == [];
    assert HasSizes([y]) && SizesSum([y]) == k;
  }

  lemma NumberPacked(x: Field, y: Field, k: nat, a: int, b: int)
    requires x.kind == Int && y.kind == Int && x.size == FromEnd(k) && y.size == Sized(k) && k > 0
    ensures PackFields([x, y], [IntVal(a), IntVal(b)], [], 0) == Ok(Encode(b, k))
  {
    var bytes := Encode(b, k);
    assert PackField(x, IntVal(a), [], 0) == Ok(([], 0));
    assert PackField(y, IntVal(b), [], 0) == Ok((bytes, 0)) by { assert [] + bytes == bytes; }
    hide PackField, Encode;
    assert [x, y][1..] == [y] && [y][1..] == [];
    assert [IntVal(a), IntVal(b)][1..] == [IntVal(b)] && [IntVal(b)][1..] == [];
    assert PackFields([], [], bytes, 0) == Ok(bytes);
    assert PackFields([y], [IntVal(b)], [], 0) == Ok(bytes);
  }

  lemma NumberParsed(x: Field, y: Field, k: nat, p: seq<int>)
    requires x.kind == Int && y.kind == Int && x.size == FromEnd(k) && y.size == Sized(k) && k > 0 && |p| == k
    ensures ParseFields([x, y], p, 0, 0) == Ok([IntVal(0), IntVal(0)])
  {
    assert Slice(p, 0, 0 + (0 - k)) == [] && Slice(p, 0 - k, 0 - k + k) == [] && Decode([]) == 0;
    assert SizeInt(y.size) == Ok(k) && SizeInt(x.size) == Ok(0 - k);
    assert ParseField(x, p, 0, 0) == Ok((IntVal(0), 0 - k, 0));
    assert ParseField(y, p, 0 - k, 0) == Ok((IntVal(0), 0, 0));
    hide ParseField;
    assert [x, y][1..] == [y] && [y][1..] == [];
    assert ParseFields([], p, 0, 0) == Ok([]);
    assert ParseFields([y], p, 0 - k, 0) == Ok([IntVal(0)]) by { assert [IntVal(0)] + [] == [IntVal(0)]; }
    assert [IntVal(0)] + [IntVal(0)] == [IntVal(0), IntVal(0)];
  }

  /** A number without a size takes no bytes, and when it is parsed the number behind it is lost as well. */
  lemma NumberWithoutSize(x: Field, y: Field, k: nat, a: int, b: int)
    requires x.kind == Int && y.kind == Int && x.size == Unsized && y.size == Sized(k) && k > 0
    ensures var packed := PackFields(Resolved([x, y]), [IntVal(a), IntVal(b)], [], 0);
            && packed == Ok(Encode(b, k))
            && ParseFields(Resolved([x, y]), packed.value, 0, 0) == Ok([IntVal(0), IntVal(0)])
  {
    hide *;
    NumberResolved(x, y, k);
    NumberPacked(x.(size := FromEnd(k)), y, k, a, b);
    NumberParsed(x.(size := FromEnd(k)), y, k, Encode(b, k));
  }
}
