/**
 Sixteen-bit words under XOR.

 Each operation has a name, so that a proof can hide what it does to bits and reason about words as
 a vector space over GF(2).  A fact about bits is proved for one operation at a time.
 */
module Word16 {

  function Xor(a: bv16, b: bv16): bv16 { a ^ b }

  function And(a: bv16, mask: bv16): bv16 { a & mask }

  function Shl1(a: bv16): bv16 { a << 1 }

  predicate Top(a: bv16) { a & 0x8000 != 0 }

  lemma XorCommutes(a: bv16, b: bv16)
    ensures Xor(a, b) == Xor(b, a)
  {
  }

  lemma XorAssociates(a: bv16, b: bv16, c: bv16)
    ensures Xor(Xor(a, b), c) == Xor(a, Xor(b, c))
  {
  }

  lemma XorZero(a: bv16)
    ensures Xor(a, a) == 0 && Xor(a, 0) == a && Xor(0, a) == a
  {
  }

  lemma XorExchange(a: bv16, b: bv16, c: bv16, d: bv16)
    ensures Xor(Xor(a, b), Xor(c, d)) == Xor(Xor(a, c), Xor(b, d))
  {
    hide Xor;
    XorAssociates(a, b, Xor(c, d));
    XorAssociates(b, c, d);
    XorCommutes(b, c);
    XorAssociates(c, b, d);
    XorAssociates(a, c, Xor(b, d));
  }

  lemma XorCancels(a: bv16, b: bv16)
    ensures Xor(a, b) == 0 <==> a == b
  {
    hide Xor;
    XorZero(a);
    XorZero(b);
    if Xor(a, b) == 0 {
      XorAssociates(a, b, b);
    }
  }

  lemma Shl1Linear(a: bv16, b: bv16)
    ensures Shl1(Xor(a, b)) == Xor(Shl1(a), Shl1(b))
  {
  }

  lemma TopLinear(a: bv16, b: bv16)
    ensures Top(Xor(a, b)) <==> Top(a) != Top(b)
  {
  }

  lemma MaskSplit(x: bv16, mask: bv16, bit: bv16)
    requires And(mask, bit) == 0
    ensures And(x, mask | bit) == Xor(And(x, mask), And(x, bit))
  {
  }

  const OneBitWords: set<bv16> :=
    {0x0001, 0x0002, 0x0004, 0x0008, 0x0010, 0x0020, 0x0040, 0x0080,
     0x0100, 0x0200, 0x0400, 0x0800, 0x1000, 0x2000, 0x4000, 0x8000}

  lemma OneBit(x: bv16, bit: bv16)
    requires bit in OneBitWords
    ensures And(x, bit) == 0 || And(x, bit) == bit
  {
  }

  lemma MaskEnds(x: bv16)
    ensures And(x, 0) == 0 && And(x, 0xffff) == x
  {
  }
}
