/**
 The round trip of the packer and the parser: parsing what was packed returns the values, for every
 description that is `Exact`.  PacketLimits.dfy proves that no other will do.
 */
module RoundTrip {
  import opened Basics
  import opened Packet

  /** The values a field can carry. */
  predicate Fits(f: Field, v: Value) {
    match f.kind
    case Int => f.size.Sized? && v.IntVal? && 0 <= v.n < Pow256(f.size.n)
    case BInt => f.size.Sized? && v.IntVal? && 0 <= v.n < Pow2(f.size.n)
    case Blob => v.ListVal? && (f.size.Sized? ==> |v.xs| == f.size.n)
  }

  predicate AllFit(fields: seq<Field>, values: seq<Value>) {
    |fields| == |values| && forall i :: 0 <= i < |fields| ==> Fits(fields[i], values[i])
  }

  // ---------- Exact descriptions ----------

  /** Only a blob may be given no size. */
  predicate Described(desc: seq<Field>) {
    forall f :: f in desc ==> f.size.Sized? || (f.kind == Blob && f.size == Unsized)
  }

  /** Numbers of size 0: no bits are read for them. */
  predicate Idle(fields: seq<Field>) {
    fields == [] || (fields[0].kind != Blob && fields[0].size == Sized(0) && Idle(fields[1..]))
  }

  predicate NoBlobs(fields: seq<Field>) {
    forall f :: f in fields ==> f.kind != Blob
  }

  /** The bytes that fields of fixed size add, when `boffset` bits of the last byte are in use. */
  function Bytes(fields: seq<Field>, boffset: int): nat
    requires AllSized(fields)
  {
    if fields == [] then 0
    else
      var f, rest := fields[0], fields[1..];
      match f.kind
      case Int => f.size.n + Bytes(rest, 0)
      case BInt => (if boffset == 0 then 1 else 0) + Bytes(rest, (boffset + f.size.n) % 8)
      case Blob => f.size.n + Bytes(rest, boffset)
  }

  /**
   The descriptions the constructor and the packer agree on.  Bit fields fill whole bytes, except that
   only fields of size 0 may follow a byte left unfinished.  At most one blob has no size, and the
   sizes declared behind it, bits counted like bytes, add up to the bytes those fields pack.  Behind a
   blob of size 0 nothing is packed.
   */
  predicate Exact(desc: seq<Field>, boffset: int) {
    if desc == [] then true
    else
      var f, rest := desc[0], desc[1..];
      match f.kind
      case Int =>
        f.size.Sized? && if boffset == 0 then Exact(rest, 0) else f.size.n == 0 && Idle(rest)
      case BInt =>
        && f.size.Sized?
        && if f.size.n == 0 && boffset == 0 then Idle(rest)
           else boffset + f.size.n <= 8 && Exact(rest, (boffset + f.size.n) % 8)
      case Blob =>
        && boffset == 0
        && match f.size
           case Sized(n) => if n > 0 then Exact(rest, 0) else AllSized(rest) && Bytes(rest, 0) == 0
           case Unsized =>
             && AllSized(rest) && SizesSum(rest) == Bytes(rest, 0)
             && if SizesSum(rest) > 0 then Exact(rest, 0) else NoBlobs(rest)
           case FromEnd(k) => AllSized(rest) && k == Bytes(rest, 0) && Exact(rest, 0)
  }

  // What the constructor makes of a description.
  predicate ResolvedForm(schema: seq<Field>) {
    schema == [] ||
      var f, rest := schema[0], schema[1..];
      && ResolvedForm(rest)
      && match f.size
         case Sized(n) => true
         case Unsized => f.kind == Blob && (AllSized(rest) ==> SizesSum(rest) == 0)
         case FromEnd(k) => f.kind == Blob && AllSized(rest) && SizesSum(rest) == k > 0
  }

  lemma {:induction false} SizedForm(schema: seq<Field>)
    requires AllSized(schema)
    ensures ResolvedForm(schema)
  {
    if schema != [] {
      assert schema[0] in schema;
      SizedForm(schema[1..]);
    }
  }

  // In a description a size is missing or not negative.
  lemma SizesOrNot(desc: seq<Field>)
    requires Described(desc)
    ensures HasSizes(desc) <==> AllSized(desc)
  {
  }

  // Resolving the sizes changes nothing that `Exact` looks at, but for the one blob.
  lemma {:induction false} ResolvedAlike(desc: seq<Field>)
    requires Described(desc)
    ensures AllSized(Resolved(desc)) <==> AllSized(desc)
    ensures Idle(Resolved(desc)) <==> Idle(desc)
    ensures ResolvedForm(Resolved(desc))
  {
    if desc != [] {
      var f, rest := desc[0], desc[1..];
      var schema := Resolved(desc);
      SizesOrNot(rest);
      assert f in desc && schema[0] in schema;
      if f.size == Unsized && AllSized(rest) {
        SizedForm(rest);
        assert schema[1..] == rest;
      } else {
        assert schema == [f] + Resolved(rest) && schema[1..] == Resolved(rest);
        ResolvedAlike(rest);
        assert AllSized(schema) <==> f.size.Sized? && AllSized(Resolved(rest)) by {
          assert forall g :: g in schema <==> g == f || g in Resolved(rest);
        }
        assert AllSized(desc) <==> f.size.Sized? && AllSized(rest) by {
          assert forall g :: g in desc <==> g == f || g in rest;
        }
      }
    }
  }

  lemma ExactAlike(desc: seq<Field>, schema: seq<Field>, boffset: int, next: int)
    requires desc != [] && schema != [] && schema[0] == desc[0]
    requires var f, rest, rest' := desc[0], desc[1..], schema[1..];
             && (f.kind == BInt ==> f.size.Sized? && next == (boffset + f.size.n) % 8) && (f.kind != BInt ==> next == 0)
             && (AllSized(rest) <==> AllSized(rest')) && (AllSized(rest) ==> rest' == rest)
             && (Idle(rest) <==> Idle(rest')) && (Exact(rest, next) <==> Exact(rest', next))
    ensures Exact(schema, boffset) <==> Exact(desc, boffset)
  {
    hide AllSized, Idle, Bytes, SizesSum, NoBlobs;
  }

  lemma DescribedHead(desc: seq<Field>)
    requires Described(desc) && desc != []
    ensures Described(desc[1..]) && (HasSizes(desc[1..]) <==> AllSized(desc[1..]))
    ensures desc[0].size.Sized? || (desc[0].kind == Blob && desc[0].size == Unsized)
  {
    assert desc[0] in desc;
    SizesOrNot(desc[1..]);
  }

  lemma ResolvedTail(desc: seq<Field>)
    requires desc != [] && !(desc[0].size == Unsized && HasSizes(desc[1..]))
    ensures Resolved(desc) != [] && Resolved(desc)[0] == desc[0] && Resolved(desc)[1..] == Resolved(desc[1..])
  {
    hide HasSizes;
  }

  // The one blob without a size: told how many bytes follow it, or not.
  lemma ExactHere(desc: seq<Field>, boffset: int)
    requires desc != [] && desc[0].kind == Blob && desc[0].size == Unsized
    requires AllSized(desc[1..]) && HasSizes(desc[1..])
    ensures Exact(Resolved(desc), boffset) <==> Exact(desc, boffset)
  {
    var rest, sum := desc[1..], SizesSum(desc[1..]);
    var f := if sum > 0 then desc[0].(size := FromEnd(sum)) else desc[0];
    assert Resolved(desc) == [f] + rest && ([f] + rest)[1..] == rest;
    hide Resolved, AllSized, HasSizes, SizesSum, Bytes, NoBlobs;
  }

  lemma {:induction false} ExactResolved(desc: seq<Field>, boffset: int)
    requires Described(desc)
    ensures Exact(Resolved(desc), boffset) <==> Exact(desc, boffset)
    decreases desc
  {
    if desc != [] {
      hide *;
      var f, rest := desc[0], desc[1..];
      DescribedHead(desc);
      if f.size == Unsized && AllSized(rest) {
        ExactHere(desc, boffset);
      } else {
        ResolvedTail(desc);
        ResolvedAlike(rest);
        if AllSized(rest) {
          AllSizedResolved(rest);
        }
        var next := if f.kind == BInt then (boffset + f.size.n) % 8 else 0;
        ExactResolved(rest, next);
        ExactAlike(desc, Resolved(desc), boffset, next);
      }
    }
  }

  lemma {:induction false} FitsResolved(desc: seq<Field>, values: seq<Value>)
    requires AllFit(desc, values)
    ensures AllFit(Resolved(desc), values)
    decreases desc
  {
    if desc != [] {
      if !(desc[0].size == Unsized && HasSizes(desc[1..])) {
        FitsResolved(desc[1..], values[1..]);
      }
    }
  }

  // ---------- Bits ----------

  lemma {:induction false} BitOrDisjoint(a: int, b: int, k: nat)
    requires a % Pow2(k) == 0 && 0 <= b < Pow2(k)
    ensures BitOr(a, b) == a + b
    decreases k
  {
    if k == 0 {
      BitOrZero(a);
    } else {
      HalfDivisible(a, Pow2(k - 1));
      BitOrDisjoint(a / 2, b / 2, k - 1);
    }
  }

  lemma {:induction false} BitOrZero(a: int)
    ensures BitOr(a, 0) == a
    decreases if a >= 0 then a else -1 - a
  {
    if a != 0 && a != -1 {
      BitOrZero(a / 2);
    }
  }

  lemma HalfDivisible(a: int, p: int)
    requires p > 0 && a % (2 * p) == 0
    ensures a % 2 == 0 && (a / 2) % p == 0
  {
    var q := a / (2 * p);
    assert a == 2 * (p * q) by { assert (2 * p) * q == 2 * (p * q); }
    assert a / 2 == p * q;
    ModUnique(a / 2, p, q, 0);
  }

  lemma {:induction false} Pow2Add(m: nat, n: nat)
    ensures Pow2(m + n) == Pow2(m) * Pow2(n)
  {
    if m > 0 {
      Pow2Add(m - 1, n);
    }
  }

  // Dividing away `p` and keeping the remainder by `s` finds the value put there.
  lemma FieldInByte(b: int, hi: int, v: int, s: int, p: int, q: int)
    requires s > 0 && p > 0 && 0 <= v < s
    requires q == s * hi + v
    requires p * q <= b < p * q + p
    ensures b / p % s == v
  {
    ModUnique(b, p, q, b - p * q);
    ModUnique(q, s, hi, v);
  }

  lemma MultipleDivides(q: int, m: int)
    requires m > 0
    ensures (m * q) % m == 0 && (m * q) / m == q
  {
    ModUnique(m * q, m, q, 0);
  }

  lemma WholeMultiple(a: int, m: int)
    requires m > 0 && a % m == 0
    ensures a == m * (a / m)
  {
  }

  // A value placed under `hi` in a byte whose free part has weight `w`.
  lemma PlaceField(hi: int, v: int, s: int, p: int, w: int)
    requires s > 0 && p > 0 && w == s * p && 0 <= v < s
    ensures w * hi + v * p == p * (s * hi + v)
    ensures 0 <= v * p && v * p + p <= w
  {
    assert w * hi + v * p == p * (s * hi + v) by { Distribute(hi, v, s, p); }
    assert 0 <= v * p && v * p + p <= w by { Room(v, s, p); }
  }

  lemma Distribute(hi: int, v: int, s: int, p: int)
    ensures (s * p) * hi + v * p == p * (s * hi + v)
  {
    assert (s * p) * hi == p * (s * hi);
  }

  lemma ThreeParts(v: int, d: int, p: int)
    ensures (v + d + 1) * p == v * p + d * p + p
  {
  }

  lemma Room(v: int, s: int, p: int)
    requires p > 0 && 0 <= v < s
    ensures 0 <= v * p && v * p + p <= s * p
  {
    var d := s - 1 - v;
    ThreeParts(v, d, p);
    assert d * p >= 0 && v * p >= 0;
  }

  // ---------- What packing leaves behind ----------

  /** `p` extends `r`; if `boffset` bits of r's last byte are in use, the others may have been filled. */
  predicate Extends(p: seq<int>, r: seq<int>, boffset: int)
  {
    && |r| <= |p|
    && (boffset == 0 ==> p[..|r|] == r)
    && (0 < boffset <= 8 ==> r != [] && p[..|r| - 1] == r[..|r| - 1] &&
                             r[|r| - 1] <= p[|r| - 1] < r[|r| - 1] + Pow2(8 - boffset))
  }

  /** The bits of r's last byte below the first `boffset` are still clear. */
  predicate Clear(r: seq<int>, boffset: int) {
    && 0 <= boffset < 8
    && (boffset > 0 ==> r != [] && r[|r| - 1] % Pow2(8 - boffset) == 0)
  }

  // The last byte so far, when a bit field is about to share it.
  function Partial(r: seq<int>, boffset: int): int {
    if boffset == 0 || r == [] then 0 else r[|r| - 1]
  }

  function PutLast(r: seq<int>, boffset: int, b: int): (r': seq<int>)
    requires boffset != 0 ==> r != []
    ensures r' != [] && r'[|r'| - 1] == b
    ensures |r'| == if boffset == 0 then |r| + 1 else |r|
  {
    if boffset == 0 then r + [b] else r[|r| - 1 := b]
  }

  lemma BIntArithmetic(last: int, v: int, boffset: nat, n: nat) returns (hi: int)
    requires boffset + n <= 8 && 0 <= v < Pow2(n) && last % Pow2(8 - boffset) == 0
    ensures var p := Pow2(8 - (boffset + n));
            && last + v * p == p * (Pow2(n) * hi + v)
            && 0 <= v * p && v * p + p <= Pow2(8 - boffset)
            && BitOr(last, v * p) == last + v * p
  {
    hide Pow2, BitOr;
    var s, p, w := Pow2(n), Pow2(8 - (boffset + n)), Pow2(8 - boffset);
    Pow2Add(n, 8 - (boffset + n));
    assert n + (8 - (boffset + n)) == 8 - boffset;
    hi := last / w;
    WholeMultiple(last, w);
    PlaceField(hi, v, s, p, w);
    BitOrDisjoint(last, v * p, 8 - boffset);
  }

  // One bit field: what it does to the last byte.
  lemma PackBInt(f: Field, v: Value, r: seq<int>, boffset: int) returns (hi: int)
    requires f.kind == BInt && f.size.Sized? && f.size.n > 0 && boffset + f.size.n <= 8
    requires Fits(f, v) && Clear(r, boffset)
    ensures var last, p := Partial(r, boffset), Pow2(8 - (boffset + f.size.n));
            && PackField(f, v, r, boffset) == Ok((PutLast(r, boffset, last + v.n * p), (boffset + f.size.n) % 8))
            && last + v.n * p == p * (Pow2(f.size.n) * hi + v.n)
            && 0 <= v.n * p && v.n * p + p <= Pow2(8 - boffset)
  {
    hide Pow2, BitOr;
    hi := BIntArithmetic(Partial(r, boffset), v.n, boffset, f.size.n);
  }

  lemma PutLastExtends(p: seq<int>, r: seq<int>, boffset: nat, n: nat, x: int)
    requires n > 0 && boffset + n <= 8 && Clear(r, boffset)
    requires 0 <= x && x + Pow2(8 - (boffset + n)) <= Pow2(8 - boffset)
    requires Extends(p, PutLast(r, boffset, Partial(r, boffset) + x), (boffset + n) % 8)
    ensures Extends(p, r, boffset)
  {
    var r', b' := PutLast(r, boffset, Partial(r, boffset) + x), (boffset + n) % 8;
    var k := |r'| - 1;
    if b' == 0 {
      assert p[..k] == r'[..k] && p[k] == r'[k] by { assert p[..|r'|] == r'; }
    }
    hide Pow2;
    if boffset > 0 {
      assert r'[..k] == r[..k];
    } else {
      assert r'[..k] == r;
    }
  }

  lemma PackOneBits(f: Field, v: Value, r: seq<int>, boffset: int) returns (r': seq<int>, b': int)
    requires f.kind == BInt && f.size.Sized? && f.size.n > 0 && boffset + f.size.n <= 8
    requires Fits(f, v) && Clear(r, boffset)
    ensures PackField(f, v, r, boffset) == Ok((r', b')) && b' == (boffset + f.size.n) % 8
    ensures Clear(r', b')
    ensures forall p :: Extends(p, r', b') ==> Extends(p, r, boffset)
  {
    hide Pow2, Fits;
    var hi := PackBInt(f, v, r, boffset);
    var p := Pow2(8 - (boffset + f.size.n));
    r', b' := PutLast(r, boffset, Partial(r, boffset) + v.n * p), (boffset + f.size.n) % 8;
    MultipleDivides(Pow2(f.size.n) * hi + v.n, p);
    hide Pow2, Extends, PackField;
    forall q | Extends(q, r', b')
      ensures Extends(q, r, boffset)
    {
      PutLastExtends(q, r, boffset, f.size.n, v.n * p);
    }
  }

  // A field of no bits, within a byte.
  lemma IdleBits(f: Field, v: Value, r: seq<int>, boffset: int)
    requires f.kind == BInt && f.size == Sized(0) && Fits(f, v) && 0 < boffset < 8 && r != []
    ensures PackField(f, v, r, boffset) == Ok((r, boffset))
    ensures forall p :: |p| >= |r| ==> ParseField(f, p, |r| - 1, boffset) == Ok((v, |r| - 1, boffset))
  {
    BitOrZero(r[|r| - 1]);
    assert r[|r| - 1 := r[|r| - 1]] == r;
    assert Pow2(0) == 1 && v.n * Pow2(8 - boffset) == 0;
  }

  // ---------- What packing leaves alone ----------

  // Packing adds bytes and, at most, bits to the last one.
  lemma {:induction false} PackPrefix(schema: seq<Field>, values: seq<Value>, r: seq<int>, boffset: int)
    requires |schema| == |values|
    ensures var p := PackFields(schema, values, r, boffset);
            p.Ok? ==> |r| <= |p.value| && forall i :: 0 <= i < |r| - 1 ==> p.value[i] == r[i]
    decreases schema
  {
    if schema != [] {
      var packed := PackField(schema[0], values[0], r, boffset);
      if packed.Ok? {
        var r', b' := packed.value.0, packed.value.1;
        PackPrefix(schema[1..], values[1..], r', b');
        assert |r| <= |r'| && forall i :: 0 <= i < |r| - 1 ==> r'[i] == r[i];
        assert PackFields(schema, values, r, boffset) == PackFields(schema[1..], values[1..], r', b');
      }
    }
  }

  lemma ExtendsShorter(p: seq<int>, r: seq<int>, e: seq<int>, boffset: int)
    requires Extends(p, r + e, 0) && Clear(r, boffset)
    ensures Extends(p, r, boffset)
  {
    assert p[..|r + e|] == r + e;
    assert p[..|r|] == (p[..|r + e|])[..|r|] == r;
    if boffset > 0 {
      assert p[..|r| - 1] == r[..|r| - 1] && p[|r| - 1] == r[|r| - 1];
    }
  }

  lemma ExtendsPrefix(p: seq<int>, r: seq<int>, e: seq<int>, boffset: int)
    requires e != [] && |r + e| <= |p| && (forall i :: 0 <= i < |r + e| - 1 ==> p[i] == (r + e)[i])
    requires Clear(r, boffset)
    ensures Extends(p, r, boffset)
  {
    assert forall i :: 0 <= i < |r| ==> p[i] == r[i];
    assert p[..|r|] == r;
    if boffset > 0 {
      assert p[..|r| - 1] == r[..|r| - 1];
    }
  }

  lemma {:induction false} PackExtends(schema: seq<Field>, values: seq<Value>, r: seq<int>, boffset: int)
    requires AllFit(schema, values) && Clear(r, boffset)
    ensures var p := PackFields(schema, values, r, boffset); p.Ok? ==> Extends(p.value, r, boffset)
    decreases schema
  {
    var p := PackFields(schema, values, r, boffset);
    if schema == [] {
      assert r[..|r|] == r;
    } else if p.Ok? {
      var f, v, rest, vs := schema[0], values[0], schema[1..], values[1..];
      assert Fits(f, v);
      match f.kind
      case Int =>
        var e := if f.size.n == 0 then [] else Encode(v.n, f.size.n);
        assert f.size.n == 0 ==> r + e == r;
        PackExtends(rest, vs, r + e, 0);
        ExtendsShorter(p.value, r, e, boffset);
      case BInt => PackExtendsBits(schema, values, r, boffset);
      case Blob =>
        if v.xs == [] {
          assert r + v.xs == r;
          PackExtends(rest, vs, r, boffset);
        } else {
          PackPrefix(rest, vs, r + v.xs, boffset);
          if boffset == 0 {
            PackExtends(rest, vs, r + v.xs, 0);
            ExtendsShorter(p.value, r, v.xs, 0);
          } else {
            ExtendsPrefix(p.value, r, v.xs, boffset);
          }
        }
    }
  }

  lemma {:induction false} PackExtendsBits(schema: seq<Field>, values: seq<Value>, r: seq<int>, boffset: int)
    requires AllFit(schema, values) && Clear(r, boffset) && schema != [] && schema[0].kind == BInt
    requires PackFields(schema, values, r, boffset).Ok?
    ensures Extends(PackFields(schema, values, r, boffset).value, r, boffset)
    decreases schema, 0
  {
    var f, v, rest, vs := schema[0], values[0], schema[1..], values[1..];
    var p := PackFields(schema, values, r, boffset).value;
    assert Fits(f, v);
    if f.size.n > 0 {
      var r', b' := PackOneBits(f, v, r, boffset);
      PackExtends(rest, vs, r', b');
    } else if boffset > 0 {
      IdleBits(f, v, r, boffset);
      PackExtends(rest, vs, r, boffset);
    } else {
      assert Pow2(0) == 1 && v.n * Pow2(8) == 0;
      PackExtends(rest, vs, r + [0], 0);
      ExtendsShorter(p, r, [0], 0);
    }
  }

  // What one field adds, and the bits then in use.
  lemma FieldLength(f: Field, v: Value, r: seq<int>, boffset: int)
    requires f.size.Sized? && Fits(f, v) && 0 <= boffset < 8 && PackField(f, v, r, boffset).Ok?
    ensures var (r', b') := PackField(f, v, r, boffset).value;
            match f.kind
            case Int => |r'| == |r| + f.size.n && b' == 0
            case BInt => |r'| == |r| + (if boffset == 0 then 1 else 0) && b' == (boffset + f.size.n) % 8
            case Blob => |r'| == |r| + f.size.n && b' == boffset
  {
    hide Pow2, Pow256, BitOr;
  }

  lemma PackHead(schema: seq<Field>, values: seq<Value>, r: seq<int>, boffset: int)
    requires schema != [] && values != []
    ensures var packed := PackField(schema[0], values[0], r, boffset);
            PackFields(schema, values, r, boffset) ==
            if packed.Err? then Err else PackFields(schema[1..], values[1..], packed.value.0, packed.value.1)
  {
    hide PackField;
  }

  lemma BytesHead(schema: seq<Field>, boffset: int)
    requires schema != [] && AllSized(schema)
    ensures schema[0].size.Sized? && AllSized(schema[1..])
    ensures var f, rest := schema[0], schema[1..];
            Bytes(schema, boffset) ==
            match f.kind
            case Int => f.size.n + Bytes(rest, 0)
            case BInt => (if boffset == 0 then 1 else 0) + Bytes(rest, (boffset + f.size.n) % 8)
            case Blob => f.size.n + Bytes(rest, boffset)
  {
    assert schema[0] in schema;
  }

  lemma FitsHead(schema: seq<Field>, values: seq<Value>)
    requires schema != [] && AllFit(schema, values)
    ensures values != [] && Fits(schema[0], values[0]) && AllFit(schema[1..], values[1..])
  {
    hide Fits;
  }

  lemma {:induction false} PackLength(schema: seq<Field>, values: seq<Value>, r: seq<int>, boffset: int)
    requires AllSized(schema) && AllFit(schema, values) && 0 <= boffset < 8
    ensures var p := PackFields(schema, values, r, boffset); p.Ok? ==> |p.value| == |r| + Bytes(schema, boffset)
    decreases schema
  {
    if schema == [] {
      assert AllFit([], values) ==> values == [];
    } else {
      hide *;
      BytesHead(schema, boffset);
      FitsHead(schema, values);
      PackHead(schema, values, r, boffset);
      var packed := PackField(schema[0], values[0], r, boffset);
      if packed.Ok? {
        FieldLength(schema[0], values[0], r, boffset);
        PackLength(schema[1..], values[1..], packed.value.0, packed.value.1);
      }
    }
  }

  // ---------- Reading one field back ----------

  // Where the parser stands when `r` has been packed.
  function Offset(r: seq<int>, boffset: int): int {
    if boffset == 0 then |r| else |r| - 1
  }

  lemma SliceExtended(p: seq<int>, r: seq<int>, xs: seq<int>)
    requires Extends(p, r + xs, 0)
    ensures Slice(p, |r|, |r| + |xs|) == xs
  {
    assert p[..|r + xs|] == r + xs;
    assert p[|r|..|r| + |xs|] == (r + xs)[|r|..];
  }

  lemma ParseInt(f: Field, v: Value, r: seq<int>, p: seq<int>)
    requires f.kind == Int && Fits(f, v) && Extends(p, r + Encode(v.n, f.size.n), 0)
    ensures ParseField(f, p, |r|, 0) == Ok((v, |r| + f.size.n, 0))
  {
    hide Encode, Decode, Pow256, Slice, Extends;
    var n := f.size.n;
    SliceExtended(p, r, Encode(v.n, n));
    DecodeEncode(v.n, n);
    SmallMod(v.n, Pow256(n));
  }

  lemma SmallMod(a: int, m: int)
    requires 0 <= a < m
    ensures a % m == a
  {
  }
  // A blob ends where its size says, or where the fields after it begin.
  lemma ParseBlob(f: Field, xs: seq<int>, r: seq<int>, p: seq<int>)
    requires f.kind == Blob && Extends(p, r + xs, 0)
    requires match f.size
             case Sized(n) => n == |xs| > 0
             case FromEnd(k) => k > 0 && |p| == |r + xs| + k
             case Unsized => |p| == |r + xs|
    ensures var end := if f.size.Unsized? then |r| else |r| + |xs|;
            ParseField(f, p, |r|, 0) == Ok((ListVal(xs), end, 0))
  {
    SliceExtended(p, r, xs);
    assert f.size.Unsized? ==> p[|r|..] == p[|r|..|r| + |xs|] && SliceFrom(p, |r|) == xs;
  }

  lemma ParseBInt(f: Field, v: Value, r: seq<int>, boffset: int, hi: int, p: seq<int>)
    requires f.kind == BInt && f.size.Sized? && f.size.n > 0 && boffset + f.size.n <= 8
    requires Fits(f, v) && Clear(r, boffset)
    requires var last, w := Partial(r, boffset), Pow2(8 - (boffset + f.size.n));
             && last + v.n * w == w * (Pow2(f.size.n) * hi + v.n)
             && Extends(p, PutLast(r, boffset, last + v.n * w), (boffset + f.size.n) % 8)
    ensures var r' := PutLast(r, boffset, Partial(r, boffset) + v.n * Pow2(8 - (boffset + f.size.n)));
            var b' := (boffset + f.size.n) % 8;
            ParseField(f, p, Offset(r, boffset), boffset) == Ok((v, Offset(r', b'), b'))
  {
    hide *;
    var n := f.size.n;
    BIntFacts(f, v, r, boffset);
    var w := Pow2(8 - (boffset + n));
    var last := Partial(r, boffset) + v.n * w;
    var r', b' := PutLast(r, boffset, last), (boffset + n) % 8;
    LastByteRange(p, r', b', w);
    ByteValue(p[|r'| - 1], last, hi, v.n, Pow2(n), w);
    BIntRead(f, v, p, |r'| - 1, boffset);
    BIntOffsets(r, r', boffset, n);
  }

  lemma BIntOffsets(r: seq<int>, r': seq<int>, boffset: nat, n: nat)
    requires n > 0 && boffset + n <= 8 && |r'| == if boffset == 0 then |r| + 1 else |r|
    ensures var b' := (boffset + n) % 8;
            Offset(r, boffset) == |r'| - 1 && Offset(r', b') == (if boffset + n == 8 then |r'| else |r'| - 1) &&
            b' == if boffset + n == 8 then 0 else boffset + n
  {
  }

  lemma BIntFacts(f: Field, v: Value, r: seq<int>, boffset: int)
    requires f.kind == BInt && f.size.Sized? && boffset + f.size.n <= 8 && Fits(f, v) && Clear(r, boffset)
    ensures 0 <= boffset < 8 && v.IntVal? && 0 <= v.n < Pow2(f.size.n)
    ensures boffset != 0 ==> r != []
    ensures (boffset + f.size.n) % 8 == 0 && f.size.n > 0 ==> Pow2(8 - (boffset + f.size.n)) == 1
  {
  }

  lemma ByteValue(b: int, last: int, hi: int, v: int, s: int, w: int)
    requires s > 0 && w > 0 && 0 <= v < s && last == w * (s * hi + v) && last <= b < last + w
    ensures b / w % s == v
  {
    FieldInByte(b, hi, v, s, w, s * hi + v);
  }

  lemma BIntRead(f: Field, v: Value, p: seq<int>, offset: nat, boffset: int)
    requires f.kind == BInt && f.size.Sized? && 0 <= boffset && boffset + f.size.n <= 8 && v.IntVal?
    requires offset < |p| && p[offset] / Pow2(8 - (boffset + f.size.n)) % Pow2(f.size.n) == v.n
    ensures ParseField(f, p, offset, boffset) ==
            if boffset + f.size.n == 8 then Ok((v, offset + 1, 0)) else Ok((v, offset, boffset + f.size.n))
  {
    hide Pow2;
  }

  lemma LastByteRange(p: seq<int>, r: seq<int>, boffset: int, w: int)
    requires Extends(p, r, boffset) && r != [] && 0 <= boffset < 8 && w == if boffset == 0 then 1 else Pow2(8 - boffset)
    ensures |r| <= |p| && r[|r| - 1] <= p[|r| - 1] < r[|r| - 1] + w
  {
    if boffset == 0 {
      assert p[|r| - 1] == p[..|r|][|r| - 1];
    }
  }

  /** Parsing returns the values, from where the parser stands when `r` has been packed. */
  predicate Returns(schema: seq<Field>, values: seq<Value>, r: seq<int>, boffset: int) {
    var p := PackFields(schema, values, r, boffset);
    p.Ok? && ParseFields(schema, p.value, Offset(r, boffset), boffset) == Ok(values)
  }

  // Packer and parser go on from the head together.
  lemma ReturnsStep(schema: seq<Field>, values: seq<Value>, r: seq<int>, boffset: int, r': seq<int>, b': int)
    requires schema != [] && |values| == |schema|
    requires PackField(schema[0], values[0], r, boffset) == Ok((r', b'))
    requires var p := PackFields(schema, values, r, boffset);
             p.Ok? ==>
             ParseField(schema[0], p.value, Offset(r, boffset), boffset) == Ok((values[0], Offset(r', b'), b'))
    ensures Returns(schema, values, r, boffset) <==> Returns(schema[1..], values[1..], r', b')
  {
    hide PackField, ParseField, Offset;
    assert PackFields(schema, values, r, boffset) == PackFields(schema[1..], values[1..], r', b');
    assert values == [values[0]] + values[1..];
  }

  /** The fields both sides handle alike, whatever follows them. */
  predicate InStep(f: Field, rest: seq<Field>, boffset: int) {
    match f.kind
    case Int => f.size.Sized? && boffset == 0
    case BInt => f.size.Sized? && boffset + f.size.n <= 8 && !(f.size.n == 0 && boffset == 0)
    case Blob =>
      && boffset == 0
      && match f.size
         case Sized(n) => n > 0
         case Unsized => false
         case FromEnd(k) => AllSized(rest) && k == Bytes(rest, 0) > 0
  }

  function NextBit(f: Field, boffset: int): int {
    if f.kind == BInt && f.size.Sized? then (boffset + f.size.n) % 8 else 0
  }

  lemma Step(schema: seq<Field>, values: seq<Value>, r: seq<int>, boffset: int) returns (r': seq<int>)
    requires schema != [] && AllFit(schema, values) && Clear(r, boffset) && InStep(schema[0], schema[1..], boffset)
    ensures var b' := NextBit(schema[0], boffset);
            && PackField(schema[0], values[0], r, boffset) == Ok((r', b')) && Clear(r', b')
            && (Returns(schema, values, r, boffset) <==> Returns(schema[1..], values[1..], r', b'))
  {
    var f := schema[0];
    assert Fits(f, values[0]);
    match f.kind
    case Int => r' := IntStep(schema, values, r);
    case BInt => r' := BIntStep(schema, values, r, boffset);
    case Blob => r' := BlobStep(schema, values, r);
  }

  lemma IntStep(schema: seq<Field>, values: seq<Value>, r: seq<int>) returns (r': seq<int>)
    requires schema != [] && AllFit(schema, values) && schema[0].kind == Int
    ensures PackField(schema[0], values[0], r, 0) == Ok((r', 0))
    ensures Returns(schema, values, r, 0) <==> Returns(schema[1..], values[1..], r', 0)
  {
    var f, v := schema[0], values[0];
    assert Fits(f, v);
    r' := r + Encode(v.n, f.size.n);
    assert f.size.n == 0 ==> r' == r;
    var p := PackFields(schema, values, r, 0);
    if p.Ok? {
      PackExtends(schema[1..], values[1..], r', 0);
      ParseInt(f, v, r, p.value);
    }
    ReturnsStep(schema, values, r, 0, r', 0);
  }

  lemma BIntStep(schema: seq<Field>, values: seq<Value>, r: seq<int>, boffset: int) returns (r': seq<int>)
    requires schema != [] && AllFit(schema, values) && Clear(r, boffset) && schema[0].kind == BInt
    requires InStep(schema[0], schema[1..], boffset)
    ensures var b' := NextBit(schema[0], boffset);
            && PackField(schema[0], values[0], r, boffset) == Ok((r', b')) && Clear(r', b')
            && (Returns(schema, values, r, boffset) <==> Returns(schema[1..], values[1..], r', b'))
  {
    var f, v := schema[0], values[0];
    assert Fits(f, v);
    var b' := NextBit(f, boffset);
    var p := PackFields(schema, values, r, boffset);
    if f.size.n == 0 {
      r' := r;
      IdleBits(f, v, r, boffset);
      if p.Ok? {
        PackPrefix(schema, values, r, boffset);
      }
    } else {
      var hi := PackBInt(f, v, r, boffset);
      var c: int;
      r', c := PackOneBits(f, v, r, boffset);
      if p.Ok? {
        PackExtends(schema[1..], values[1..], r', b');
        ParseBInt(f, v, r, boffset, hi, p.value);
      }
    }
    ReturnsStep(schema, values, r, boffset, r', b');
  }

  lemma BlobStep(schema: seq<Field>, values: seq<Value>, r: seq<int>) returns (r': seq<int>)
    requires schema != [] && AllFit(schema, values) && schema[0].kind == Blob
    requires InStep(schema[0], schema[1..], 0)
    ensures PackField(schema[0], values[0], r, 0) == Ok((r', 0))
    ensures Returns(schema, values, r, 0) <==> Returns(schema[1..], values[1..], r', 0)
  {
    var f, v, rest, vs := schema[0], values[0], schema[1..], values[1..];
    assert Fits(f, v);
    r' := r + v.xs;
    var p := PackFields(schema, values, r, 0);
    if p.Ok? {
      PackExtends(rest, vs, r', 0);
      if f.size.FromEnd? {
        PackLength(rest, vs, r', 0);
      }
      ParseBlob(f, v.xs, r, p.value);
    }
    ReturnsStep(schema, values, r, 0, r', 0);
  }

  // ---------- Behind an unfinished byte or a blob that takes all ----------

  // Numbers of size 0 pack to nothing but zero bytes.
  lemma {:induction false} IdlePacks(fields: seq<Field>, values: seq<Value>, r: seq<int>)
    requires Idle(fields) && AllFit(fields, values)
    ensures PackFields(fields, values, r, 0).Ok?
    decreases fields
  {
    if fields != [] {
      var f, v := fields[0], values[0];
      assert Fits(f, v);
      assert Pow2(0) == 1 && Pow256(0) == 1 && v.n * Pow2(8) == 0;
      IdlePacks(fields[1..], values[1..], if f.kind == Int then r else r + [0]);
    }
  }

  // And the parser reads 0 for them wherever it stands.
  lemma {:induction false} IdleReads(fields: seq<Field>, values: seq<Value>, p: seq<int>, offset: nat, boffset: int)
    requires Idle(fields) && AllFit(fields, values) && offset < |p| && 0 <= boffset < 8
    ensures ParseFields(fields, p, offset, boffset) == Ok(values)
    decreases fields
  {
    if fields == [] {
      assert values == [];
    } else {
      var f, v := fields[0], values[0];
      assert Fits(f, v);
      IdleField(f, v, p, offset, boffset);
      IdleReads(fields[1..], values[1..], p, offset, boffset);
      assert values == [v] + values[1..];
    }
  }

  lemma IdleField(f: Field, v: Value, p: seq<int>, offset: nat, boffset: int)
    requires f.kind != Blob && f.size == Sized(0) && Fits(f, v) && offset < |p| && 0 <= boffset < 8
    ensures v == IntVal(0) && ParseField(f, p, offset, boffset) == Ok((v, offset, boffset))
  {
    assert Pow2(0) == 1 && Pow256(0) == 1;
  }

  // Fields that pack no bytes.
  lemma {:induction false} NoBytesPack(fields: seq<Field>, values: seq<Value>, r: seq<int>)
    requires AllSized(fields) && Bytes(fields, 0) == 0 && AllFit(fields, values)
    ensures PackFields(fields, values, r, 0) == Ok(r)
    decreases fields
  {
    if fields != [] {
      var f, v := fields[0], values[0];
      assert f in fields && Fits(f, v);
      assert f.kind == Blob ==> r + v.xs == r;
      NoBytesPack(fields[1..], values[1..], r);
    }
  }

  lemma {:induction false} NoBytesRead(fields: seq<Field>, values: seq<Value>, p: seq<int>, offset: nat)
    requires AllSized(fields) && Bytes(fields, 0) == 0 && AllFit(fields, values)
    requires NoBlobs(fields) || offset == |p|
    ensures ParseFields(fields, p, offset, 0) == Ok(values)
    decreases fields
  {
    if fields == [] {
      assert values == [];
    } else {
      var f, v := fields[0], values[0];
      assert f in fields && Fits(f, v);
      assert Pow256(0) == 1;
      if f.kind == Blob {
        assert v.xs == [] && offset == |p| && p[|p|..] == [];
      }
      assert ParseField(f, p, offset, 0) == Ok((v, offset, 0));
      NoBytesRead(fields[1..], values[1..], p, offset);
      assert values == [v] + values[1..];
    }
  }

  // ---------- The theorem ----------

  lemma {:induction false} ReturnsFrom(schema: seq<Field>, values: seq<Value>, r: seq<int>, boffset: int)
    requires ResolvedForm(schema) && Exact(schema, boffset) && AllFit(schema, values) && Clear(r, boffset)
    ensures Returns(schema, values, r, boffset)
    decreases schema
  {
    if schema == [] {
      assert values == [];
    } else {
      var f, rest, vs := schema[0], schema[1..], values[1..];
      if InStep(f, rest, boffset) {
        var r' := Step(schema, values, r, boffset);
        hide Returns, Clear, AllFit;
        ReturnsFrom(rest, vs, r', NextBit(f, boffset));
      } else if f.kind == Blob {
        TakesAllReturns(schema, values, r);
      } else {
        IdleReturns(schema, values, r, boffset);
      }
    }
  }

  lemma IdleReturns(schema: seq<Field>, values: seq<Value>, r: seq<int>, boffset: int)
    requires schema != [] && schema[0].kind != Blob && schema[0].size == Sized(0) && Idle(schema[1..])
    requires AllFit(schema, values) && Clear(r, boffset) && !InStep(schema[0], schema[1..], boffset)
    ensures Returns(schema, values, r, boffset)
  {
    var f, v, rest, vs := schema[0], values[0], schema[1..], values[1..];
    assert Fits(f, v);
    assert Pow2(0) == 1 && Pow256(0) == 1 && v.n * Pow2(8) == 0;
    var r' := if f.kind == Int then r else r + [0];
    assert PackField(f, v, r, boffset) == Ok((r', 0));
    IdlePacks(rest, vs, r');
    PackPrefix(rest, vs, r', 0);
    var p, o := PackFields(rest, vs, r', 0).value, Offset(r, boffset);
    IdleField(f, v, p, o, boffset);
    IdleReads(rest, vs, p, o, boffset);
    assert values == [v] + vs;
  }

  lemma TakesAllReturns(schema: seq<Field>, values: seq<Value>, r: seq<int>)
    requires ResolvedForm(schema) && schema != [] && schema[0].kind == Blob && Exact(schema, 0)
    requires AllFit(schema, values) && !InStep(schema[0], schema[1..], 0)
    ensures Returns(schema, values, r, 0)
  {
    var f, v, rest, vs := schema[0], values[0], schema[1..], values[1..];
    assert Fits(f, v);
    NoBytesPack(rest, vs, r + v.xs);
    var p := r + v.xs;
    assert PackFields(schema, values, r, 0) == Ok(p);
    assert SliceFrom(p, |r|) == v.xs;
    NoBytesRead(rest, vs, p, |r|);
    assert values == [v] + vs;
  }

  /** Parsing what was packed returns the values, for every exact description. */
  lemma PacketRoundTrip(desc: seq<Field>, values: seq<Value>)
    requires Described(desc) && Exact(desc, 0) && AllFit(desc, values)
    ensures var bytes := PackFields(Resolved(desc), values, [], 0);
            bytes.Ok? && ParseFields(Resolved(desc), bytes.value, 0, 0) == Ok(values)
  {
    ResolvedAlike(desc);
    ExactResolved(desc, 0);
    FitsResolved(desc, values);
    ReturnsFrom(Resolved(desc), values, [], 0);
  }
}
