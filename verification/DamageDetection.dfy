/**
 Exactly which damage the CRC misses: the damage that, as a polynomial, is a multiple of the generator.
 */
module DamageDetection {
  import opened Word16
  import opened Gf2Poly
  import opened Crc
  import opened CrcPolynomial

  /** Where two messages differ, as a polynomial. */
  function Damage(a: seq<byte>, b: seq<byte>): Poly {
    Add(MessagePoly(a), MessagePoly(b))
  }

  // ---------- Multiples of the generator ----------

  lemma ShiftInjective(p: Poly, q: Poly, k: nat)
    requires Shift(p, k) == Shift(q, k)
    ensures p == q
  {
    forall e: nat
      ensures e in p <==> e in q
    {
      ShiftMembers(p, k);
      ShiftMembers(q, k);
      assert e + k in Shift(p, k) <==> e + k in Shift(q, k);
    }
  }

  // The generator has a constant term, so a product divisible by x^k has a factor that is.
  lemma DivideByShift(d: Poly, k: nat, q': Poly) returns (q: Poly)
    requires Shift(d, k) == Mul(q', G_TERMS)
    ensures d == Mul(q, G_TERMS)
  {
    hide Mul, Shift;
    if q' != {} {
      var lo, hi := Extremes(q');
      MulGeneratorAt(q', lo);
      ShiftMembers(d, k);
      assert lo >= k;
    }
    q := Unshifted(q', k);
    MulShift(q, k, G_TERMS);
    ShiftInjective(d, Mul(q, G_TERMS), k);
  }

  lemma Unshifted(p: Poly, k: nat) returns (q: Poly)
    requires forall e :: e in p ==> e >= k
    ensures Shift(q, k) == p
  {
    hide *;
    q := MovedDown(p, k);
    ShiftMembers(q, k);
    assert forall e: nat :: e in Shift(q, k) <==> e in p;
  }

  lemma MovedDown(p: Poly, k: nat) returns (q: Poly)
    requires forall e :: e in p ==> e >= k
    ensures forall e: nat :: e >= k ==> (e - k in q <==> e in p)
  {
    q := set e | e in p :: e - k;
  }

  lemma WordPolyInjective(s: bv16, t: bv16)
    requires WordPoly(s) == WordPoly(t)
    ensures s == t
  {
    var x := Xor(s, t);
    hide Bit, Xor, BitMask;
    XorPoly(s, t);
    forall j: nat | j < 16
      ensures !Bit(x, j)
    {
      assert j !in WordPoly(x);
    }
    NoBits(x);
    XorCancels(s, t);
  }

  lemma NoBits(x: bv16)
    requires forall j: nat | j < 16 :: !Bit(x, j)
    ensures x == 0
  {
    assert !Bit(x, 0) && !Bit(x, 1) && !Bit(x, 2) && !Bit(x, 3);
    assert !Bit(x, 4) && !Bit(x, 5) && !Bit(x, 6) && !Bit(x, 7);
    assert !Bit(x, 8) && !Bit(x, 9) && !Bit(x, 10) && !Bit(x, 11);
    assert !Bit(x, 12) && !Bit(x, 13) && !Bit(x, 14) && !Bit(x, 15);
  }

  // ---------- Any damage ----------

  /** Two messages have the same CRC if and only if their difference is a multiple of the generator. */
  lemma SameCrcIff(a: seq<byte>, b: seq<byte>)
    ensures Crc16(0, a) == Crc16(0, b) <==> exists q :: Damage(a, b) == Mul(q, G_TERMS)
  {
    hide Add, Mul, Shift, MessagePoly, WordPoly, Crc16;
    if Crc16(0, a) == Crc16(0, b) {
      var qa := CrcQuotient(a);
      var qb := CrcQuotient(b);
      var q' := EqualCrcMultiple(qa, qb, MessagePoly(a), MessagePoly(b), WordPoly(Crc16(0, a)));
      var q := DivideByShift(Damage(a, b), 16, q');
    }
    if q :| Damage(a, b) == Mul(q, G_TERMS) {
      MultipleUnnoticed(a, b, q);
    }
  }

  lemma MultipleUnnoticed(a: seq<byte>, b: seq<byte>, q: Poly)
    requires Damage(a, b) == Mul(q, G_TERMS)
    ensures Crc16(0, a) == Crc16(0, b)
  {
    hide Add, Mul, Shift, MessagePoly, WordPoly, Crc16;
    var ma, mb, rb := Shift(MessagePoly(a), 16), Shift(MessagePoly(b), 16), WordPoly(Crc16(0, b));
    var qb := CrcQuotient(b);
    ShiftAdd(MessagePoly(a), MessagePoly(b), 16);
    MulShift(q, 16, G_TERMS);
    var c := Shift(q, 16);
    assert Add(ma, mb) == Mul(c, G_TERMS);
    AddBack(ma, mb, Mul(c, G_TERMS), Mul(qb, G_TERMS), rb);
    MulAdd(c, qb, G_TERMS);
    assert Quotient(Add(c, qb), rb, ma);
    CrcIsRemainder(a);
    assert IsRemainder(rb, ma) by {
      assert DegreeBelow(rb, 16) by { CrcIsRemainder(b); }
    }
    WordPolyInjective(Crc16(0, a), Crc16(0, b));
  }

  lemma AddBack(ma: Poly, mb: Poly, c: Poly, b: Poly, r: Poly)
    requires Add(ma, mb) == c && mb == Add(b, r)
    ensures ma == Add(Add(c, b), r)
  {
    forall e: nat
      ensures e in ma <==> e in Add(Add(c, b), r)
    {
      assert e in Add(ma, mb) <==> e in c;
      assert e in mb <==> e in Add(b, r);
    }
  }

  // ---------- Seventeen bits ----------

  lemma MulMonomial(k: nat)
    ensures Mul({k}, G_TERMS) == Shift(G, k)
  {
    OneTimesGenerator();
    assert Shift({0}, k) == {k};
    hide Mul, Shift;
    MulShift({0}, k, G_TERMS);
  }

  lemma SmallMultiple(q: Poly, k: nat)
    requires q != {} && forall e :: e in Mul(q, G_TERMS) ==> k <= e < k + 17
    ensures q == {k}
  {
    hide Mul;
    var first, last := Extremes(q);
    MulGeneratorAt(q, first);
    MulGeneratorAt(q, last + 16);
  }

  /**
   Damage within seventeen consecutive bits goes unnoticed if and only if it is the generator itself,
   at bits k, k + 5, k + 12 and k + 16.
   */
  lemma SeventeenBitsIff(a: seq<byte>, b: seq<byte>, k: nat)
    requires |a| == |b| && a != b && forall e :: e in Damage(a, b) ==> k <= e < k + 17
    ensures Crc16(0, a) == Crc16(0, b) <==> Damage(a, b) == Shift(G, k)
  {
    hide Mul, Crc16, Shift;
    SameCrcIff(a, b);
    MulMonomial(k);
    if Crc16(0, a) == Crc16(0, b) {
      var q :| Damage(a, b) == Mul(q, G_TERMS);
      var e := MessagesDiffer(a, b);
      hide MessagePoly;
      MulNothing();
      SmallMultiple(q, k);
    }
  }

  // ---------- Odd damage ----------

  lemma AddParity(p: Poly, q: Poly)
    ensures Parity(|Add(p, q)|) == Parity(|p| + |q|)
  {
    assert p == (p - q) + (p * q) && q == (q - p) + (p * q);
    assert |p| == |p - q| + |p * q|;
    assert |q| == |q - p| + |p * q|;
    assert |Add(p, q)| == |p - q| + |q - p|;
  }

  lemma {:induction false} ShiftSize(p: Poly, k: nat)
    ensures |Shift(p, k)| == |p|
  {
    if p == {} {
      assert Shift(p, k) == {};
    } else {
      var x :| x in p;
      var rest := p - {x};
      ShiftSize(rest, k);
      ShiftMembers(rest, k);
      ShiftMembers(p, k);
      assert Shift(p, k) == Shift(rest, k) + {x + k};
    }
  }

  lemma MulHead(p: Poly, terms: seq<nat>)
    requires terms != []
    ensures Mul(p, terms) == Add(Shift(p, terms[0]), Mul(p, terms[1..]))
  {
  }

  lemma MulNoTerms(p: Poly)
    ensures Parity(|Mul(p, [])|) == 0 && Parity(0) == 0
  {
  }

  function Parity(n: nat): nat { n % 2 }

  lemma MulOneMore(p: Poly, terms: seq<nat>, m: nat)
    requires terms != [] && m == |Mul(p, terms[1..])|
    ensures Parity(|Mul(p, terms)|) == Parity(|p| + m)
  {
    hide *;
    MulHead(p, terms);
    ShiftSize(p, terms[0]);
    AddParity(Shift(p, terms[0]), Mul(p, terms[1..]));
  }

  // A product with an even number of terms has an even number of terms.
  lemma {:induction false} MulParity(p: Poly, terms: seq<nat>)
    ensures Parity(|Mul(p, terms)|) == if Parity(|terms|) == 0 then 0 else Parity(|p|)
    decreases terms
  {
    hide *;
    if terms == [] {
      MulNoTerms(p);
    } else {
      var m := |Mul(p, terms[1..])|;
      MulParity(p, terms[1..]);
      MulOneMore(p, terms, m);
      OneMoreTerm(|Mul(p, terms)|, |p|, m, |terms|, |terms[1..]|);
    }
  }

  lemma OneMoreTerm(sum: nat, n: nat, m: nat, c: nat, d: nat)
    requires c == d + 1 && Parity(sum) == Parity(n + m) && Parity(m) == if Parity(d) == 0 then 0 else Parity(n)
    ensures Parity(sum) == if Parity(c) == 0 then 0 else Parity(n)
  {
    var i, j, k := n / 2, m / 2, d / 2;
    assert n == 2 * i + n % 2 && m == 2 * j + m % 2 && d == 2 * k + d % 2;
  }

  /** An odd number of flipped bits, anywhere in a message of any length, changes the CRC. */
  lemma OddDamageDetected(a: seq<byte>, b: seq<byte>)
    requires |Damage(a, b)| % 2 == 1
    ensures Crc16(0, a) != Crc16(0, b)
  {
    hide Damage, Mul, Crc16;
    SameCrcIff(a, b);
    if Crc16(0, a) == Crc16(0, b) {
      var q :| Damage(a, b) == Mul(q, G_TERMS);
      MulParity(q, G_TERMS);
    }
  }
}
