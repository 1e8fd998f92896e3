/**
 The schema-driven packer and parser of the serial library.

 A packet is described by a list of fields: big-endian integers of a whole number of bytes, bit
 fields packed from the top of a byte, and blobs of bytes, one of which may be given no size.
 `ParseFields` and `PackFields` are the specifications of the two loops; RoundTrip.dfy proves the
 round trip between them.  Python's exceptions are the `Err` results.
 */
module Packet {
  import opened Basics

  datatype Result<+T> = Ok(value: T) | Err {
    predicate IsFailure() { Err? }
    function PropagateFailure<U>(): Result<U> requires Err? { Err }
    function Extract(): T requires Ok? { value }
  }

  /** Python's list of field values holds integers, lists and None. */
  datatype Value = IntVal(n: int) | ListVal(xs: seq<int>) | NoneVal

  datatype Kind = Int | BInt | Blob

  /** FromEnd(k) is the size -k the constructor gives to a blob followed by k bytes of other fields. */
  datatype Size = Sized(n: nat) | Unsized | FromEnd(k: nat)

  datatype Field = Field(name: string, kind: Kind, size: Size)

  // ---------- Python's integers and slices ----------

  function Pow256(n: nat): (p: int)
    ensures p > 0
  {
    if n == 0 then 1 else 256 * Pow256(n - 1)
  }

  /** a | b on integers of any sign. */
  function BitOr(a: int, b: int): int
    decreases if a >= 0 then a else -1 - a
  {
    if a == 0 then b
    else if a == -1 then -1
    else 2 * BitOr(a / 2, b / 2) + (if a % 2 == 1 || b % 2 == 1 then 1 else 0)
  }

  /** Where an index lands in a slice of a list of length `n`. */
  function Clip(i: int, n: nat): (j: nat)
    ensures j <= n
  {
    if i < 0 then (if i + n < 0 then 0 else i + n) else if i < n then i else n
  }

  /** xs[i:j] */
  function Slice<T>(xs: seq<T>, i: int, j: int): seq<T> {
    var lo, hi := Clip(i, |xs|), Clip(j, |xs|);
    if lo < hi then xs[lo..hi] else []
  }

  /** xs[i:] */
  function SliceFrom<T>(xs: seq<T>, i: int): seq<T> {
    xs[Clip(i, |xs|)..]
  }

  /** xs[i] */
  function At<T>(xs: seq<T>, i: int): Result<T> {
    if 0 <= i < |xs| then Ok(xs[i]) else if 0 <= i + |xs| < |xs| then Ok(xs[i + |xs|]) else Err
  }

  /** A negative index counts from the end; outside the list a slice stops at its ends and an index fails. */
  lemma PythonIndices<T>(xs: seq<T>, i: int, j: int)
    ensures var n := |xs|;
            && (0 <= i <= j <= n ==> Slice(xs, i, j) == xs[i..j])
            && (0 <= j < i ==> Slice(xs, i, j) == [])
            && (i < 0 ==> Slice(xs, i, j) == Slice(xs, if n + i < 0 then 0 else n + i, j))
            && (j < 0 ==> Slice(xs, i, j) == Slice(xs, i, if n + j < 0 then 0 else n + j))
            && (j > n ==> Slice(xs, i, j) == Slice(xs, i, n))
            && SliceFrom(xs, i) == Slice(xs, i, n)
            && (0 <= i < n ==> At(xs, i) == Ok(xs[i]))
            && (0 < -i <= n ==> At(xs, i) == Ok(xs[n + i]))
            && (At(xs, i) == Err <==> i < -n || i >= n)
  {
  }

  // ---------- Integers as big-endian bytes ----------

  function Encode(val: int, dim: nat): (bs: seq<int>)
    ensures |bs| == dim
    decreases dim
  {
    if dim == 0 then [] else Encode(val / 256, dim - 1) + [val % 256]
  }

  function Decode(v: seq<int>): int {
    if v == [] then 0 else Decode(v[..|v| - 1]) * 256 + v[|v| - 1]
  }

  method EncodeInt(val0: int, dim: nat) returns (output: seq<int>)
    ensures output == Encode(val0, dim)
  {
    var val := val0;
    output := [];
    for i := 0 to dim
      invariant Encode(val0, dim) == Encode(val, dim - i) + Reversed(output)
    {
      ReversedAppend(output, val % 256);
      output := output + [val % 256];
      val := val / 256;
    }
    ghost var low := output;
    output := ReverseList(output);
    assert Encode(val, 0) + Reversed(low) == Reversed(low);
  }

  method ReverseList(xs: seq<int>) returns (ys: seq<int>)
    ensures ys == Reversed(xs)
  {
    ys := [];
    for i := 0 to |xs|
      invariant Reversed(xs) == Reversed(xs[i..]) + ys
    {
      assert xs[i..][1..] == xs[i + 1..];
      ys := [xs[i]] + ys;
    }
    assert xs[|xs|..] == [];
  }

  method DecodeInt(v: seq<int>) returns (r: int)
    ensures r == Decode(v)
  {
    r := 0;
    for i := 0 to |v|
      invariant r == Decode(v[..i])
    {
      assert v[..i + 1][..i] == v[..i];
      r := r * 256 + v[i];
    }
    assert v[..|v|] == v;
  }

  /** An integer that fits comes back; one that does not comes back modulo 256^dim. */
  lemma {:induction false} DecodeEncode(val: int, dim: nat)
    ensures Decode(Encode(val, dim)) == val % Pow256(dim)
    decreases dim
  {
    if dim > 0 {
      var bs := Encode(val, dim);
      assert bs[..dim - 1] == Encode(val / 256, dim - 1);
      DecodeEncode(val / 256, dim - 1);
      ModSplit(val, Pow256(dim - 1));
    }
  }

  lemma ModSplit(val: int, p: int)
    requires p > 0
    ensures (val / 256) % p * 256 + val % 256 == val % (256 * p)
  {
    var q, r := (val / 256) / p, (val / 256) % p;
    var low := r * 256 + val % 256;
    assert val == 256 * (p * q + r) + val % 256;
    assert val == (256 * p) * q + low by { assert 256 * (p * q) == (256 * p) * q; }
    ModUnique(val, 256 * p, q, low);
  }

  lemma ModUnique(val: int, m: int, q: int, r: int)
    requires m > 0 && val == m * q + r && 0 <= r < m
    ensures val % m == r && val / m == q
  {
    MulAtLeast(m, q - val / m);
    MulAtLeast(m, val / m - q);
    assert val == m * (val / m) + val % m;
    assert m * (q - val / m) == m * q - m * (val / m);
    assert m * (val / m - q) == m * (val / m) - m * q;
  }

  lemma MulAtLeast(m: int, d: int)
    requires m > 0
    ensures d >= 1 ==> m * d >= m
  {
  }

  // ---------- The constructor's treatment of an unsized blob ----------

  predicate AllSized(desc: seq<Field>) {
    forall f :: f in desc ==> f.size.Sized?
  }

  /** No size is missing; one that was filled in before may be negative. */
  predicate HasSizes(desc: seq<Field>) {
    forall f :: f in desc ==> f.size != Unsized
  }

  /** The sum of the sizes, as Python adds them up. */
  function SizesSum(desc: seq<Field>): (sum: int)
    ensures AllSized(desc) ==> sum >= 0
  {
    if desc == [] then 0
    else
      assert desc[0] in desc;
      SizesSum(desc[1..]) +
      match desc[0].size
      case Sized(n) => n
      case FromEnd(k) => 0 - k
      case Unsized => 0
  }

  function Resolved(desc: seq<Field>): (schema: seq<Field>)
    ensures |schema| == |desc|
  {
    if desc == [] then []
    else if desc[0].size == Unsized && HasSizes(desc[1..]) then
      (if SizesSum(desc[1..]) > 0 then [desc[0].(size := FromEnd(SizesSum(desc[1..])))] else [desc[0]]) + desc[1..]
    else [desc[0]] + Resolved(desc[1..])
  }

  /** The last field without a size is told, in the list itself, how many bytes follow it, unless none do. */
  method ResolveSizes(desc: array<Field>)
    modifies desc
    ensures desc[..] == Resolved(old(desc[..]))
  {
    ghost var was := desc[..];
    var sum: int := 0;
    var i := desc.Length;
    while i > 0
      invariant 0 <= i <= desc.Length
      invariant desc[..] == was && HasSizes(was[i..]) && sum == SizesSum(was[i..])
    {
      i := i - 1;
      assert was[i..] == [was[i]] + was[i + 1..];
      match desc[i].size
      case Unsized =>
        ResolvedAt(was, i);
        if sum > 0 {
          desc[i] := desc[i].(size := FromEnd(sum));
        }
        return;
      case Sized(n) =>
        sum := sum + n;
      case FromEnd(k) =>
        sum := sum - k;
    }
    assert was[0..] == was;
    HasSizesResolved(was);
  }

  lemma {:induction false} HasSizesResolved(desc: seq<Field>)
    requires HasSizes(desc)
    ensures Resolved(desc) == desc
  {
    if desc != [] {
      assert desc[0] in desc;
      HasSizesResolved(desc[1..]);
    }
  }

  lemma AllSizedResolved(desc: seq<Field>)
    requires AllSized(desc)
    ensures Resolved(desc) == desc
  {
    HasSizesResolved(desc);
  }

  lemma {:induction false} ResolvedAt(desc: seq<Field>, i: nat)
    requires i < |desc| && desc[i].size == Unsized && HasSizes(desc[i + 1..])
    ensures Resolved(desc) == WithSize(desc, i, SizesSum(desc[i + 1..]))
  {
    hide *;
    if i == 0 {
      ResolvedHere(desc);
    } else {
      var rest := desc[1..];
      SameTail(desc, i);
      ResolvedAt(rest, i - 1);
      ResolvedLater(desc, i);
      WithSizeTail(desc, i, SizesSum(desc[i + 1..]));
    }
  }

  /** The list once the field at `i` is told that `sum` bytes follow it. */
  function WithSize(desc: seq<Field>, i: nat, sum: int): seq<Field>
    requires i < |desc|
  {
    if sum > 0 then desc[i := desc[i].(size := FromEnd(sum))] else desc
  }

  lemma ResolvedHere(desc: seq<Field>)
    requires desc != [] && desc[0].size == Unsized && HasSizes(desc[1..])
    ensures Resolved(desc) == WithSize(desc, 0, SizesSum(desc[0 + 1..]))
  {
    assert desc == [desc[0]] + desc[1..];
  }

  lemma ResolvedLater(desc: seq<Field>, i: nat)
    requires 0 < i < |desc| && desc[i].size == Unsized
    ensures Resolved(desc) == [desc[0]] + Resolved(desc[1..])
  {
    assert desc[1..][i - 1] == desc[i];
  }

  lemma WithSizeTail(desc: seq<Field>, i: nat, sum: int)
    requires 0 < i < |desc|
    ensures [desc[0]] + WithSize(desc[1..], i - 1, sum) == WithSize(desc, i, sum)
  {
    SameTail(desc, i);
    if sum > 0 {
      UpdateTail(desc, i, desc[i].(size := FromEnd(sum)));
    }
  }

  lemma SameTail<T>(s: seq<T>, i: nat)
    requires 0 < i < |s|
    ensures s[1..][i - 1] == s[i] && s[1..][i - 1 + 1..] == s[i + 1..] && [s[0]] + s[1..] == s
  {
  }

  lemma UpdateTail<T>(s: seq<T>, i: nat, x: T)
    requires 0 < i < |s|
    ensures [s[0]] + s[1..][i - 1 := x] == s[i := x]
  {
  }

  /**
   A list with at most one field without a size may serve for further objects: to resolve it again
   changes nothing.
   */
  lemma {:induction false} ResolvedTwice(desc: seq<Field>)
    requires forall i, j :: 0 <= i < j < |desc| ==> desc[i].size != Unsized || desc[j].size != Unsized
    ensures Resolved(Resolved(desc)) == Resolved(desc)
  {
    if desc != [] {
      var rest := desc[1..];
      if desc[0].size == Unsized {
        forall f | f in rest
          ensures f.size != Unsized
        {
          var j :| 0 <= j < |rest| && rest[j] == f;
          assert desc[j + 1] == f;
        }
        if SizesSum(rest) > 0 {
          HasSizesResolved(Resolved(desc));
        }
      } else {
        ResolvedTwice(rest);
        assert Resolved(desc)[1..] == Resolved(rest);
      }
    }
  }

  // ---------- The two loops, as functions ----------

  /** The size as the Python number it is; a missing size has none. */
  function SizeInt(size: Size): Result<int> {
    match size
    case Sized(n) => Ok(n)
    case FromEnd(k) => Ok(0 - k)
    case Unsized => Err
  }

  /** A size filled in is a negative number, one missing is no number, and the sizes are added up as numbers. */
  lemma {:induction false} SizesAreAdded(a: seq<Field>, b: seq<Field>, f: Field)
    ensures forall n: nat :: SizeInt(Sized(n)) == Ok(n) && SizeInt(FromEnd(n)) == Ok(0 - n)
    ensures SizeInt(Unsized) == Err
    ensures SizesSum([f]) == match SizeInt(f.size) case Ok(n) => n case Err => 0
    ensures SizesSum(a + b) == SizesSum(a) + SizesSum(b)
  {
    assert [f][1..] == [];
    if a == [] {
      assert a + b == b;
    } else {
      assert (a + b)[1..] == a[1..] + b;
      SizesAreAdded(a[1..], b, f);
    }
  }

  /** The values read from `packet` by the fields of `schema`, from byte `offset` and bit `boffset` on. */
  function ParseFields(schema: seq<Field>, packet: seq<int>, offset: int, boffset: int): (r: Result<seq<Value>>)
    ensures r.Ok? ==> |r.value| == |schema|
    decreases schema
  {
    if schema == [] then Ok([])
    else
      var (v, offset', boffset') :- ParseField(schema[0], packet, offset, boffset);
      var vs :- ParseFields(schema[1..], packet, offset', boffset');
      Ok([v] + vs)
  }

  function After(vs: seq<Value>, r: Result<seq<Value>>): Result<seq<Value>> {
    var rest :- r;
    Ok(vs + rest)
  }

  lemma AfterNothing(r: Result<seq<Value>>)
    ensures After([], r) == r
  {
    if r.Ok? {
      assert [] + r.value == r.value;
    }
  }

  lemma ParseStep(schema: seq<Field>, i: nat, packet: seq<int>, offset: int, boffset: int, vs: seq<Value>)
    requires i < |schema|
    ensures
      match ParseField(schema[i], packet, offset, boffset)
      case Err => After(vs, ParseFields(schema[i..], packet, offset, boffset)) == Err
      case Ok(field) =>
        After(vs, ParseFields(schema[i..], packet, offset, boffset)) ==
        After(vs + [field.0], ParseFields(schema[i + 1..], packet, field.1, field.2))
  {
    assert schema[i..][1..] == schema[i + 1..];
    match ParseField(schema[i], packet, offset, boffset)
    case Err =>
    case Ok(field) =>
      var rest := ParseFields(schema[i + 1..], packet, field.1, field.2);
      if rest.Ok? {
        assert vs + ([field.0] + rest.value) == (vs + [field.0]) + rest.value;
      }
  }

  function ParseField(f: Field, packet: seq<int>, offset: int, boffset: int): Result<(Value, int, int)> {
    match f.kind
    case Int =>
      var s :- SizeInt(f.size);
      Ok((IntVal(Decode(Slice(packet, offset, offset + s))), offset + s, boffset))
    case BInt =>
      var s :- SizeInt(f.size);
      var doffset := 8 - (boffset + s);
      if doffset < 0 || s < 0 then Err
      else
        var b :- At(packet, offset);
        var v := IntVal(b / Pow2(doffset) % Pow2(s));
        if boffset + s == 8 then Ok((v, offset + 1, 0)) else Ok((v, offset, boffset + s))
    case Blob =>
      match f.size
      case Unsized => Ok((ListVal(SliceFrom(packet, offset)), offset, boffset))
      case Sized(n) =>
        if n == 0 then Ok((ListVal(SliceFrom(packet, offset)), offset, boffset))
        else Ok((ListVal(Slice(packet, offset, offset + n)), offset + n, boffset))
      case FromEnd(k) =>
        if k == 0 then Ok((ListVal(SliceFrom(packet, offset)), offset, boffset))
        else Ok((ListVal(Slice(packet, offset, 0 - k)), |packet| - k, boffset))
  }

  /** `r` extended by the bytes of the remaining fields, then by any values beyond the schema. */
  function PackFields(schema: seq<Field>, values: seq<Value>, r: seq<int>, boffset: int): Result<seq<int>>
    decreases |schema| + |values|
  {
    if schema == [] then
      if values == [] then Ok(r)
      else if values[0].ListVal? then PackFields(schema, values[1..], r + values[0].xs, boffset)
      else Err
    else if values == [] then Err
    else
      var (r', boffset') :- PackField(schema[0], values[0], r, boffset);
      PackFields(schema[1..], values[1..], r', boffset')
  }

  function PackField(f: Field, v: Value, r: seq<int>, boffset: int): Result<(seq<int>, int)> {
    match f.kind
    case Int =>
      var s :- SizeInt(f.size);
      if s <= 0 then Ok((r, 0)) else if v.IntVal? then Ok((r + Encode(v.n, s), 0)) else Err
    case BInt =>
      var s :- SizeInt(f.size);
      var doffset := 8 - (boffset + s);
      if !v.IntVal? || doffset < 0 then Err
      else
        var r' :- (if boffset == 0 then Ok(r + [v.n * Pow2(doffset)])
                   else if r == [] then Err
                   else Ok(r[|r| - 1 := BitOr(r[|r| - 1], v.n * Pow2(doffset))]));
        Ok((r', if boffset + s == 8 then 0 else boffset + s))
    case Blob =>
      if v.ListVal? then Ok((r + v.xs, boffset)) else Err
  }

  // ---------- The program ----------

  // One turn of the constructor's loop.
  method ReadField(f: Field, packet: seq<int>, offset: int, boffset: int) returns (r: Result<(Value, int, int)>)
    ensures r == ParseField(f, packet, offset, boffset)
  {
    match f.kind
    case Int =>
      var s := SizeInt(f.size);
      if s.Err? {
        return Err;
      }
      var n := DecodeInt(Slice(packet, offset, offset + s.value));
      r := Ok((IntVal(n), offset + s.value, boffset));
    case BInt =>
      var s := SizeInt(f.size);
      if s.Err? || 8 - (boffset + s.value) < 0 || s.value < 0 {
        return Err;
      }
      var b := At(packet, offset);
      if b.Err? {
        return Err;
      }
      var v := IntVal(b.value / Pow2(8 - (boffset + s.value)) % Pow2(s.value));
      if boffset + s.value == 8 {
        r := Ok((v, offset + 1, 0));
      } else {
        r := Ok((v, offset, boffset + s.value));
      }
    case Blob =>
      match f.size {
        case Unsized => r := Ok((ListVal(SliceFrom(packet, offset)), offset, boffset));
        case Sized(n) =>
          if n == 0 {
            r := Ok((ListVal(SliceFrom(packet, offset)), offset, boffset));
          } else {
            r := Ok((ListVal(Slice(packet, offset, offset + n)), offset + n, boffset));
          }
        case FromEnd(k) =>
          if k == 0 {
            r := Ok((ListVal(SliceFrom(packet, offset)), offset, boffset));
          } else {
            r := Ok((ListVal(Slice(packet, offset, 0 - k)), |packet| - k, boffset));
          }
      }
  }

  // One turn of payload's loop.
  method WriteField(f: Field, v: Value, r: seq<int>, boffset: int) returns (w: Result<(seq<int>, int)>)
    ensures w == PackField(f, v, r, boffset)
  {
    match f.kind
    case Int =>
      var s := SizeInt(f.size);
      if s.Err? || (s.value > 0 && !v.IntVal?) {
        return Err;
      }
      if s.value <= 0 {
        return Ok((r, 0));
      }
      var bytes := EncodeInt(v.n, s.value);
      w := Ok((r + bytes, 0));
    case BInt =>
      var s := SizeInt(f.size);
      if s.Err? || !v.IntVal? || 8 - (boffset + s.value) < 0 || (boffset != 0 && r == []) {
        return Err;
      }
      var bits := v.n * Pow2(8 - (boffset + s.value));
      var r' := if boffset == 0 then r + [bits] else r[|r| - 1 := BitOr(r[|r| - 1], bits)];
      w := Ok((r', if boffset + s.value == 8 then 0 else boffset + s.value));
    case Blob =>
      if !v.ListVal? {
        return Err;
      }
      w := Ok((r + v.xs, boffset));
  }

  class PacketObject {
    var schema: seq<Field>
    var values: seq<Value>

    // An object without a packet: every value is None.
    constructor (desc: array<Field>)
      modifies desc
      ensures schema == desc[..] == Resolved(old(desc[..]))
      ensures values == seq(desc.Length, _ => NoneVal)
    {
      new;
      ResolveSizes(desc);
      schema := desc[..];
      values := seq(desc.Length, _ => NoneVal);
    }

    // An object made from a tuple of values, however many: they are taken as they are.
    constructor FromTuple(desc: array<Field>, packet: seq<Value>)
      modifies desc
      ensures schema == desc[..] == Resolved(old(desc[..])) && values == packet
    {
      new;
      ResolveSizes(desc);
      schema := desc[..];
      values := [];
      for i := 0 to |packet|
        invariant schema == desc[..] == Resolved(old(desc[..])) && values == packet[..i]
        modifies this`values
      {
        values := values + [packet[i]];
      }
      assert packet[..|packet|] == packet;
    }

    /** Fills in the values from a list of bytes, or raises an exception. */
    method Parse(packet: seq<int>) returns (ok: bool)
      modifies this`values
      ensures ok <==> ParseFields(schema, packet, 0, 0).Ok?
      ensures ok ==> ParseFields(schema, packet, 0, 0) == Ok(values)
    {
      var offset, boffset := 0, 0;
      values := [];
      assert schema[0..] == schema;
      AfterNothing(ParseFields(schema, packet, 0, 0));
      for i := 0 to |schema|
        invariant ParseFields(schema, packet, 0, 0) == After(values, ParseFields(schema[i..], packet, offset, boffset))
      {
        ParseStep(schema, i, packet, offset, boffset, values);
        hide ParseField, ParseFields, After;
        var read := ReadField(schema[i], packet, offset, boffset);
        match read
        case Err =>
          return false;
        case Ok(field) =>
          values := values + [field.0];
          offset, boffset := field.1, field.2;
      }
      assert values + [] == values;
      ok := true;
    }

    method Payload() returns (r: Result<seq<int>>)
      ensures r == PackFields(schema, values, [], 0)
    {
      var bytes, boffset := [], 0;
      for i := 0 to |schema|
        invariant i <= |values|
        invariant PackFields(schema, values, [], 0) == PackFields(schema[i..], values[i..], bytes, boffset)
      {
        assert schema[i..][1..] == schema[i + 1..];
        if i == |values| {
          return Err;
        }
        assert values[i..][1..] == values[i + 1..];
        var written := WriteField(schema[i], values[i], bytes, boffset);
        match written
        case Err =>
          return Err;
        case Ok(packed) =>
          bytes, boffset := packed.0, packed.1;
      }
      for i := |schema| to |values|
        invariant PackFields(schema, values, [], 0) == PackFields([], values[i..], bytes, boffset)
      {
        assert values[i..][1..] == values[i + 1..];
        if !values[i].ListVal? {
          return Err;
        }
        bytes := bytes + values[i].xs;
      }
      r := Ok(bytes);
    }
  }
}
