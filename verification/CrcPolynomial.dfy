/**
 What the CRC means: the register left by the bit loop is the remainder of message * x^16 divided
 by x^16 + x^12 + x^5 + 1 over GF(2), for every message; and what that detects.
 */
module CrcPolynomial {
  import opened Word16
  import opened Gf2Poly
  import opened Crc

  // ---------- Words, bytes and messages as polynomials ----------

  function BitMask(j: nat): bv16
    requires j < 16
  {
    [0x0001, 0x0002, 0x0004, 0x0008, 0x0010, 0x0020, 0x0040, 0x0080,
     0x0100, 0x0200, 0x0400, 0x0800, 0x1000, 0x2000, 0x4000, 0x8000][j]
  }

  predicate Bit(s: bv16, j: nat)
    requires j < 16
  {
    And(s, BitMask(j)) != 0
  }

  function WordPoly(s: bv16): Poly {
    set j: nat | j < 16 && Bit(s, j)
  }

  predicate ByteBit(b: byte, j: nat)
    requires j < 8
  {
    Bit(b as bv16, j)
  }

  /** Bit `j` of the byte `d` places before the end has exponent 8 * d + j. */
  function MessagePoly(msg: seq<byte>): Poly {
    set e: nat | e < 8 * |msg| && ByteBit(msg[|msg| - 1 - e / 8], e % 8)
  }

  // ---------- Register operations as polynomial operations ----------

  lemma AndXor(s: bv16, t: bv16, m: bv16)
    ensures And(Xor(s, t), m) == Xor(And(s, m), And(t, m))
  {
  }

  lemma BitXor(s: bv16, t: bv16, j: nat)
    requires j < 16
    ensures Bit(Xor(s, t), j) <==> Bit(s, j) != Bit(t, j)
  {
    var m := BitMask(j);
    assert m in OneBitWords;
    hide And, Xor, BitMask;
    AndXor(s, t, m);
    OneBit(s, m);
    OneBit(t, m);
    XorCancels(And(s, m), And(t, m));
  }

  lemma AndShl1(s: bv16, m: bv16)
    ensures And(Shl1(s), Shl1(m)) == Shl1(And(s, m))
    ensures And(Shl1(s), 1) == 0 && Shl1(0) == 0
  {
  }

  lemma NextMask(j: nat)
    requires 0 < j < 16
    ensures BitMask(j) == Shl1(BitMask(j - 1)) != 0 && BitMask(j - 1) in OneBitWords
  {
  }

  lemma BitShl1(s: bv16, j: nat)
    requires j < 16
    ensures Bit(Shl1(s), j) <==> j > 0 && Bit(s, j - 1)
  {
    if j == 0 {
      AndShl1(s, 0);
    } else {
      hide And, BitMask, Shl1;
      var m := BitMask(j - 1);
      NextMask(j);
      AndShl1(s, m);
      OneBit(s, m);
    }
  }

  lemma BitTop(s: bv16)
    ensures Top(s) <==> Bit(s, 15)
  {
  }

  lemma BitHighByte(b: byte, j: nat)
    requires j < 16
    ensures Bit(HighByte(b), j) <==> j >= 8 && ByteBit(b, j - 8)
  {
  }

  lemma BitGenerator(j: nat)
    requires j < 16
    ensures Bit(0x1021, j) <==> j == 12 || j == 5 || j == 0
  {
  }

  lemma XorPoly(s: bv16, t: bv16)
    ensures WordPoly(Xor(s, t)) == Add(WordPoly(s), WordPoly(t))
  {
    hide Bit, Xor;
    forall j: nat | j < 16
      ensures Bit(Xor(s, t), j) <==> Bit(s, j) != Bit(t, j)
    {
      BitXor(s, t, j);
    }
  }

  // One shift multiplies by x and takes away the generator when x^16 appears.
  lemma StepPoly(s: bv16)
    ensures Shift(WordPoly(s), 1) == Add(WordPoly(Step(s)), if Top(s) then G else {})
  {
    var feedback: Poly := if Top(s) then G else {};
    BitTop(s);
    ShiftMembers(WordPoly(s), 1);
    hide Bit, Xor, Top, Shl1, Shift;
    forall e: nat
      ensures e in Shift(WordPoly(s), 1) <==> e in Add(WordPoly(Step(s)), feedback)
    {
      if e < 16 {
        BitShl1(s, e);
        BitXor(Shl1(s), 0x1021, e);
        BitGenerator(e);
      }
    }
  }

  lemma FeedbackTerm(top: bool, n: nat)
    ensures Mul(if top then {n} else {}, G_TERMS) == Shift(if top then G else {}, n)
  {
    if top {
      OneTimesGenerator();
      MulShift({0}, n, G_TERMS);
      assert Shift({0}, n) == {n};
    } else {
      MulNothing();
      ShiftMembers({}, n);
    }
  }

  // `n` shifts multiply by x^n, up to a multiple of the generator.
  lemma {:induction false} StepsPoly(n: nat, s: bv16) returns (q: Poly)
    ensures Quotient(q, WordPoly(Steps(n, s)), Shift(WordPoly(s), n))
  {
    hide Add, Shift, Mul, Step, WordPoly, Top;
    var p, r := WordPoly(s), WordPoly(Steps(n, s));
    if n == 0 {
      q := {};
      MulNothing();
      ShiftZero(p);
      AddZero(p);
    } else {
      var next := WordPoly(Step(s));
      var fed: Poly := if Top(s) then {n - 1} else {};
      var feedback: Poly := if Top(s) then G else {};
      var later := StepsPoly(n - 1, Step(s));
      q := Add(fed, later);
      calc {
        Shift(p, n);
        { ShiftShift(p, 1, n - 1); }
        Shift(Shift(p, 1), n - 1);
        { StepPoly(s); }
        Shift(Add(next, feedback), n - 1);
        { ShiftAdd(next, feedback, n - 1); }
        Add(Shift(next, n - 1), Shift(feedback, n - 1));
        { FeedbackTerm(Top(s), n - 1); }
        Add(Add(Mul(later, G_TERMS), r), Mul(fed, G_TERMS));
        { AddCommutes(Add(Mul(later, G_TERMS), r), Mul(fed, G_TERMS)); }
        Add(Mul(fed, G_TERMS), Add(Mul(later, G_TERMS), r));
        { AddAssociates(Mul(fed, G_TERMS), Mul(later, G_TERMS), r); }
        Add(Add(Mul(fed, G_TERMS), Mul(later, G_TERMS)), r);
        { MulAdd(fed, later, G_TERMS); }
        Add(Mul(q, G_TERMS), r);
      }
    }
  }

  // ---------- Messages ----------

  function BytePoly(b: byte): Poly {
    set j: nat | j < 8 && ByteBit(b, j)
  }

  lemma HighBytePoly(b: byte)
    ensures WordPoly(HighByte(b)) == Shift(BytePoly(b), 8)
  {
    ShiftMembers(BytePoly(b), 8);
    hide Shift, Bit, HighByte, ByteBit;
    forall j: nat | j < 16
      ensures Bit(HighByte(b), j) <==> j >= 8 && ByteBit(b, j - 8)
    {
      BitHighByte(b, j);
    }
  }

  lemma EightLower(e: nat)
    requires e >= 8
    ensures (e - 8) / 8 == e / 8 - 1 && (e - 8) % 8 == e % 8
  {
  }

  lemma MessageBit(msg: seq<byte>, b: byte, e: nat)
    ensures e in MessagePoly(msg + [b]) <==> if e < 8 then e in BytePoly(b) else e - 8 in MessagePoly(msg)
  {
    hide ByteBit;
    var long := msg + [b];
    if 8 <= e < 8 * |long| {
      EightLower(e);
      assert long[|long| - 1 - e / 8] == msg[|msg| - 1 - (e - 8) / 8];
    }
  }

  lemma MessagePolyAppend(msg: seq<byte>, b: byte)
    ensures MessagePoly(msg + [b]) == Add(Shift(MessagePoly(msg), 8), BytePoly(b))
  {
    hide *;
    var m, p := Shift(MessagePoly(msg), 8), BytePoly(b);
    ShiftMembers(MessagePoly(msg), 8);
    BytePolyBelow(b);
    forall e: nat
      ensures e in MessagePoly(msg + [b]) <==> e in Add(m, p)
    {
      MessageBit(msg, b, e);
      AddAt(m, p, e);
    }
  }

  lemma BytePolyBelow(b: byte)
    ensures DegreeBelow(BytePoly(b), 8) && forall e :: e in BytePoly(b) ==> e < 8
  {
  }

  lemma {:induction false} Crc16Append(s: bv16, msg: seq<byte>, b: byte)
    ensures Crc16(s, msg + [b]) == CrcByte(Crc16(s, msg), b)
    decreases msg
  {
    hide CrcByte;
    if msg == [] {
      assert Crc16(CrcByte(s, b), []) == CrcByte(s, b);
      assert (msg + [b])[1..] == [];
    } else {
      assert (msg + [b])[1..] == msg[1..] + [b];
      Crc16Append(CrcByte(s, msg[0]), msg[1..], b);
    }
  }

  // One more byte, given the quotient so far.
  lemma AppendQuotient(q: Poly, m: Poly, s: bv16, b: byte) returns (q': Poly)
    requires Quotient(q, WordPoly(s), Shift(m, 16))
    ensures Quotient(q', WordPoly(CrcByte(s, b)), Shift(Add(Shift(m, 8), BytePoly(b)), 16))
  {
    hide Add, Shift, Mul, WordPoly, Steps, Xor, HighByte, BytePoly;
    var r, h := WordPoly(s), WordPoly(HighByte(b));
    var x := Xor(s, HighByte(b));
    var last := StepsPoly(8, x);
    var r' := WordPoly(Steps(8, x));
    q' := Add(Shift(q, 8), last);
    calc {
      Shift(Add(Shift(m, 8), BytePoly(b)), 16);
      { ShiftAdd(Shift(m, 8), BytePoly(b), 16); ShiftShift(BytePoly(b), 8, 8);
        ShiftShift(m, 8, 16); ShiftShift(m, 16, 8); }
      Add(Shift(Shift(m, 16), 8), Shift(Shift(BytePoly(b), 8), 8));
      { HighBytePoly(b); ShiftAdd(Shift(m, 16), h, 8); }
      Shift(Add(Add(Mul(q, G_TERMS), r), h), 8);
      { AddAssociates(Mul(q, G_TERMS), r, h); XorPoly(s, HighByte(b)); }
      Shift(Add(Mul(q, G_TERMS), WordPoly(x)), 8);
      { ShiftAdd(Mul(q, G_TERMS), WordPoly(x), 8); MulShift(q, 8, G_TERMS); }
      Add(Mul(Shift(q, 8), G_TERMS), Add(Mul(last, G_TERMS), r'));
      { AddAssociates(Mul(Shift(q, 8), G_TERMS), Mul(last, G_TERMS), r'); MulAdd(Shift(q, 8), last, G_TERMS); }
      Add(Mul(q', G_TERMS), r');
    }
  }

  lemma {:induction false} CrcQuotient(msg: seq<byte>) returns (q: Poly)
    ensures Quotient(q, WordPoly(Crc16(0, msg)), Shift(MessagePoly(msg), 16))
  {
    hide Add, Shift, Mul;
    if msg == [] {
      q := {};
      MulNothing();
      ShiftMembers({}, 16);
      AddZero({});
      BitsOfZero();
      hide WordPoly;
      assert MessagePoly(msg) == {};
      assert Shift({}, 16) == {};
    } else {
      var front, b := msg[..|msg| - 1], msg[|msg| - 1];
      assert msg == front + [b];
      hide WordPoly, MessagePoly, CrcByte;
      var before := CrcQuotient(front);
      q := AppendQuotient(before, MessagePoly(front), Crc16(0, front), b);
      MessagePolyAppend(front, b);
      Crc16Append(0, front, b);
    }
  }

  lemma BitsOfZero()
    ensures WordPoly(0) == {}
  {
  }

  /** The CRC of a message is the one remainder of message * x^16 divided by the generator. */
  lemma CrcIsRemainder(msg: seq<byte>)
    ensures IsRemainder(WordPoly(Crc16(0, msg)), Shift(MessagePoly(msg), 16))
    ensures forall r :: IsRemainder(r, Shift(MessagePoly(msg), 16)) ==> r == WordPoly(Crc16(0, msg))
  {
    hide Quotient, Shift, MessagePoly, Bit, Crc16;
    var m, c := Shift(MessagePoly(msg), 16), WordPoly(Crc16(0, msg));
    var q := CrcQuotient(msg);
    assert IsRemainder(c, m);
    forall r | IsRemainder(r, m)
      ensures r == c
    {
      RemainderUnique(r, c, m);
    }
  }

  // ---------- Error detection ----------

  /** The exponents at which two messages differ all lie in sixteen consecutive places. */
  ghost predicate DifferInBurst(a: seq<byte>, b: seq<byte>, k: nat) {
    forall e :: e in Add(MessagePoly(a), MessagePoly(b)) ==> k <= e < k + 16
  }

  /**
   Two messages of the same length, however long, that differ only inside sixteen consecutive bits
   have different CRCs.
   */
  lemma BurstDetected(a: seq<byte>, b: seq<byte>, k: nat)
    requires |a| == |b| && a != b
    requires DifferInBurst(a, b, k)
    ensures Crc16(0, a) != Crc16(0, b)
  {
    var pa, pb := MessagePoly(a), MessagePoly(b);
    var e := MessagesDiffer(a, b);
    ShiftMembers(Add(pa, pb), 16);
    hide MessagePoly, Mul, Shift;
    if Crc16(0, a) == Crc16(0, b) {
      var qa := CrcQuotient(a);
      var qb := CrcQuotient(b);
      var q := EqualCrcMultiple(qa, qb, pa, pb, WordPoly(Crc16(0, a)));
      MulNothing();
      assert e + 16 in Mul(q, G_TERMS);
      var lo, hi := MultipleSpan(q);
      assert false;
    }
  }

  lemma EqualCrcMultiple(qa: Poly, qb: Poly, pa: Poly, pb: Poly, r: Poly) returns (q: Poly)
    requires Quotient(qa, r, Shift(pa, 16)) && Quotient(qb, r, Shift(pb, 16))
    ensures Shift(Add(pa, pb), 16) == Mul(q, G_TERMS)
  {
    hide Add, Shift, Mul;
    q := Add(qa, qb);
    var a, b := Mul(qa, G_TERMS), Mul(qb, G_TERMS);
    ShiftAdd(pa, pb, 16);
    AddExchange(a, r, b, r);
    AddZero(r);
    AddZero(Add(a, b));
    MulAdd(qa, qb, G_TERMS);
  }

  lemma ByteBitsInjective(b: byte, c: byte)
    requires forall j: nat | j < 8 :: ByteBit(b, j) == ByteBit(c, j)
    ensures b == c
  {
    assert ByteBit(b, 0) == ByteBit(c, 0) && ByteBit(b, 1) == ByteBit(c, 1);
    assert ByteBit(b, 2) == ByteBit(c, 2) && ByteBit(b, 3) == ByteBit(c, 3);
    assert ByteBit(b, 4) == ByteBit(c, 4) && ByteBit(b, 5) == ByteBit(c, 5);
    assert ByteBit(b, 6) == ByteBit(c, 6) && ByteBit(b, 7) == ByteBit(c, 7);
  }

  lemma MessagesDiffer(a: seq<byte>, b: seq<byte>) returns (e: nat)
    requires |a| == |b| && a != b
    ensures e in Add(MessagePoly(a), MessagePoly(b))
  {
    hide ByteBit;
    var i :| 0 <= i < |a| && a[i] != b[i];
    ByteBitsDiffer(a[i], b[i]);
    var j: nat :| j < 8 && ByteBit(a[i], j) != ByteBit(b[i], j);
    e := 8 * (|a| - 1 - i) + j;
    assert e / 8 == |a| - 1 - i && e % 8 == j;
  }

  lemma ByteBitsDiffer(b: byte, c: byte)
    requires b != c
    ensures exists j: nat :: j < 8 && ByteBit(b, j) != ByteBit(c, j)
  {
    if forall j: nat | j < 8 :: ByteBit(b, j) == ByteBit(c, j) {
      ByteBitsInjective(b, c);
    }
  }

  // A difference at `e` lies in the byte that holds it.
  lemma DifferentByte(a: seq<byte>, b: seq<byte>, e: nat)
    requires |a| == |b| && e in Add(MessagePoly(a), MessagePoly(b))
    ensures e / 8 < |a| && a[|a| - 1 - e / 8] != b[|a| - 1 - e / 8]
  {
    hide ByteBit;
  }

  lemma OnlyTwoDiffer(front: seq<byte>, a0: byte, a1: byte, b0: byte, b1: byte, back: seq<byte>, i: nat)
    requires var a, b := front + [a0, a1] + back, front + [b0, b1] + back; i < |a| && a[i] != b[i]
    ensures |front| <= i <= |front| + 1
  {
  }

  /** Two adjacent bytes may be damaged in any way: the damage is a burst of sixteen bits. */
  lemma AdjacentBytesDetected(front: seq<byte>, a0: byte, a1: byte, b0: byte, b1: byte, back: seq<byte>)
    requires a0 != b0 || a1 != b1
    ensures Crc16(0, front + [a0, a1] + back) != Crc16(0, front + [b0, b1] + back)
  {
    var a, b := front + [a0, a1] + back, front + [b0, b1] + back;
    assert a[|front|] == a0 && a[|front| + 1] == a1;
    assert b[|front|] == b0 && b[|front| + 1] == b1;
    hide MessagePoly, Add, Crc16;
    forall e | e in Add(MessagePoly(a), MessagePoly(b))
      ensures 8 * |back| <= e < 8 * |back| + 16
    {
      DifferentByte(a, b, e);
      OnlyTwoDiffer(front, a0, a1, b0, b1, back, |a| - 1 - e / 8);
    }
    BurstDetected(a, b, 8 * |back|);
  }

  /** The seventeen-bit pattern of the generator itself goes unnoticed; DamageDetection.dfy has the exact condition. */
  lemma SeventeenBitsMissed()
    ensures Crc16(0, [0x01, 0x10, 0x21]) == Crc16(0, [0x00, 0x00, 0x00])
  {
    EightSteps(0x0100);
    EightSteps(0x2100);
    EightSteps(0x0000);
    hide Steps;
    assert CrcByte(0, 0x01) == 0x1021;
    assert CrcByte(0x1021, 0x10) == 0x2100 by { assert Xor(0x1021, HighByte(0x10)) == 0x0021; EightSteps(0x0021); }
    assert CrcByte(0x2100, 0x21) == 0;
    assert CrcByte(0, 0x00) == 0;
    hide CrcByte;
    assert Crc16(0, [0x01, 0x10, 0x21]) == Crc16(0x1021, [0x10, 0x21]) == Crc16(0x2100, [0x21]) == Crc16(0, []);
    assert Crc16(0, [0x00, 0x00, 0x00]) == Crc16(0, [0x00, 0x00]) == Crc16(0, [0x00]) == Crc16(0, []);
  }
}
