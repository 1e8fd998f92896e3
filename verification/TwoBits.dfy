/**
 Two flipped bits.  The register that starts at 1 comes back to 1 after 32767 shifts and not before,
 so two flipped bits cancel exactly at distances divisible by 32767; and up to three flipped bits in a
 message of at most 32767 bits change its CRC.
 */
module TwoBits {
  import opened Word16
  import opened Gf2Poly
  import opened Crc
  import opened CrcPolynomial
  import opened DamageDetection

  // ---------- Shifts compose ----------

  lemma {:induction false} StepsAdd(m: nat, n: nat, s: bv16)
    ensures Steps(m + n, s) == Steps(m, Steps(n, s))
    decreases n
  {
    hide Step;
    if n > 0 {
      StepsAdd(m, n - 1, Step(s));
    }
  }

  lemma StepAfter(n: nat, s: bv16)
    ensures Steps(n, Step(s)) == Step(Steps(n, s)) == Steps(n + 1, s)
  {
    hide Step;
    StepsAdd(1, n, s);
    assert Steps(1, Steps(n, s)) == Steps(0, Step(Steps(n, s)));
  }

  lemma StepInjective(s: bv16, t: bv16)
    requires Step(s) == Step(t)
    ensures s == t
  {
    hide Step, Xor;
    StepLinear(s, t);
    XorCancels(Step(s), Step(t));
    StepNonzero(Xor(s, t));
    XorCancels(s, t);
  }

  lemma StepNonzero(x: bv16)
    ensures Step(x) == 0 <==> x == 0
  {
  }

  lemma {:induction false} StepsZero(n: nat)
    ensures Steps(n, 0) == 0
  {
    StepZero();
    hide Step;
    if n > 0 {
      StepsZero(n - 1);
    }
  }

  lemma StepZero()
    ensures Step(0) == 0
  {
  }

  // ---------- Multiplication modulo the generator ----------

  function Shr1(x: bv16): bv16 { x >> 1 }

  predicate Odd(x: bv16) { x & 1 == 1 }

  // One turn of Horner's rule: the lowest bit of `x` decides.
  function MultiplyAdd(acc: bv16, x: bv16, c: bv16): bv16 {
    if Odd(x) then Xor(Step(acc), c) else Step(acc)
  }

  function FourBits(acc: bv16, x: bv16, c: bv16): bv16 {
    MultiplyAdd(MultiplyAdd(MultiplyAdd(MultiplyAdd(acc, Shr1(Shr1(Shr1(x))), c), Shr1(Shr1(x)), c), Shr1(x), c), x, c)
  }

  function Shr4(x: bv16): bv16 { Shr1(Shr1(Shr1(Shr1(x)))) }

  /** The product of two words modulo the generator, by Horner's rule over the bits of `x`. */
  function Times(x: bv16, c: bv16): bv16 {
    FourBits(FourBits(FourBits(FourBits(0, Shr4(Shr4(Shr4(x))), c), Shr4(Shr4(x)), c), Shr4(x), c), x, c)
  }

  lemma LowBit(x: bv16)
    ensures x == if Odd(x) then Xor(Step(Shr1(x)), 1) else Step(Shr1(x))
  {
  }

  lemma StepsByLowBit(n: nat, x: bv16)
    ensures Steps(n, x) == MultiplyAdd(Steps(n, Shr1(x)), x, Steps(n, 1))
  {
    hide Step, Steps, Odd, Shr1, Xor;
    LowBit(x);
    StepsLinear(n, Step(Shr1(x)), 1);
    StepAfter(n, Shr1(x));
  }

  lemma StepsByFourBits(n: nat, x: bv16)
    ensures Steps(n, x) == FourBits(Steps(n, Shr4(x)), x, Steps(n, 1))
  {
    hide Steps, MultiplyAdd, Shr1;
    StepsByLowBit(n, x);
    StepsByLowBit(n, Shr1(x));
    StepsByLowBit(n, Shr1(Shr1(x)));
    StepsByLowBit(n, Shr1(Shr1(Shr1(x))));
  }

  lemma NothingLeft(x: bv16)
    ensures Shr4(Shr4(Shr4(Shr4(x)))) == 0
  {
  }

  /** `n` shifts of any word multiply it by what they make of 1. */
  lemma StepsIsTimes(n: nat, x: bv16)
    ensures Steps(n, x) == Times(x, Steps(n, 1))
  {
    hide Steps, FourBits, Shr4;
    StepsByFourBits(n, x);
    StepsByFourBits(n, Shr4(x));
    StepsByFourBits(n, Shr4(Shr4(x)));
    StepsByFourBits(n, Shr4(Shr4(Shr4(x))));
    NothingLeft(x);
    StepsZero(n);
  }

  // ---------- Powers of x ----------

  /** x^n modulo the generator. */
  function Power(n: nat): bv16 { Steps(n, 1) }

  lemma Double(n: nat, a: bv16, r: bv16)
    requires Power(n) == a && Times(a, a) == r
    ensures Power(2 * n) == r
  {
    hide Steps, Times;
    StepsAdd(n, n, 1);
    StepsIsTimes(n, a);
  }

  lemma DoublePlusOne(n: nat, a: bv16, r: bv16)
    requires Power(n) == a && Step(Times(a, a)) == r
    ensures Power(2 * n + 1) == r
  {
    hide Steps, Times, Step;
    Double(n, a, Times(a, a));
    StepAfter(2 * n, 1);
  }

  lemma SmallPowers()
    ensures Power(1) == 2 && Power(8) == 0x0100 && Power(9) == 0x0200 && Power(13) == 0x2000 && Power(16) == 0x1021
  {
    EightSteps(1);
    FourSteps(0, 0x0200);
    assert Step(1) == 2 && StepEightTimes(1) == 0x0100 && Step(0x0100) == 0x0200;
    assert Step(Step(Step(Step(0x0200)))) == 0x2000;
    EightSteps(0x0100);
    assert StepEightTimes(0x0100) == 0x1021;
    hide Step, StepEightTimes;
    StepAfter(0, 1);
    StepAfter(8, 1);
    StepsAdd(4, 9, 1);
    StepsAdd(8, 8, 1);
  }

  lemma SquaresTo64()
    ensures Times(0x0100, 0x0100) == 0x1021 && Times(0x1021, 0x1021) == 0x3730 && Times(0x3730, 0x3730) == 0xb861
  {
  }

  lemma SquaresTo512()
    ensures Times(0xb861, 0xb861) == 0xaefc && Times(0xaefc, 0xaefc) == 0x8e29 && Times(0x8e29, 0x8e29) == 0x13fc
  {
  }

  lemma SquaresTo4096()
    ensures Times(0x13fc, 0x13fc) == 0x36c4 && Times(0x36c4, 0x36c4) == 0xfd50 && Times(0xfd50, 0xfd50) == 0xaa9e
  {
  }

  lemma SquaresTo32768()
    ensures Times(0xaa9e, 0xaa9e) == 0x881c && Times(0x881c, 0x881c) == 0x4458 && Times(0x4458, 0x4458) == 0x0002
  {
  }

  lemma PowerOf32768()
    ensures Power(32768) == 2
  {
    hide Times, Step;
    SmallPowers();
    SquaresTo64();
    SquaresTo512();
    SquaresTo4096();
    SquaresTo32768();
    hide Power;
    Double(8, 0x0100, 0x1021);
    Double(16, 0x1021, 0x3730);
    Double(32, 0x3730, 0xb861);
    Double(64, 0xb861, 0xaefc);
    Double(128, 0xaefc, 0x8e29);
    Double(256, 0x8e29, 0x13fc);
    Double(512, 0x13fc, 0x36c4);
    Double(1024, 0x36c4, 0xfd50);
    Double(2048, 0xfd50, 0xaa9e);
    Double(4096, 0xaa9e, 0x881c);
    Double(8192, 0x881c, 0x4458);
    Double(16384, 0x4458, 0x0002);
  }

  lemma SquaresTo108()
    ensures Step(Times(0x2000, 0x2000)) == 0x89a9 && Times(0x89a9, 0x89a9) == 0x1168 && Times(0x1168, 0x1168) == 0x3750
  {
  }

  lemma SquaresTo217()
    ensures Step(Times(0x3750, 0x3750)) == 0x48e3
  {
  }

  lemma PowerOf217()
    ensures Power(217) != 1
  {
    hide Times, Step;
    SmallPowers();
    SquaresTo108();
    SquaresTo217();
    hide Power;
    DoublePlusOne(13, 0x2000, 0x89a9);
    Double(27, 0x89a9, 0x1168);
    Double(54, 0x1168, 0x3750);
    DoublePlusOne(108, 0x3750, 0x48e3);
  }

  lemma SquaresTo132()
    ensures Step(Times(0x1021, 0x1021)) == 0x6e60 && Times(0x6e60, 0x6e60) == 0xc1c6 && Times(0xc1c6, 0xc1c6) == 0x4e8a
  {
  }

  lemma SquaresTo1057()
    ensures Times(0x4e8a, 0x4e8a) == 0x5946 && Times(0x5946, 0x5946) == 0x78b3 && Step(Times(0x78b3, 0x78b3)) == 0xf2af
  {
  }

  lemma PowerOf1057()
    ensures Power(1057) != 1
  {
    hide Times, Step;
    SmallPowers();
    SquaresTo132();
    SquaresTo1057();
    hide Power;
    DoublePlusOne(16, 0x1021, 0x6e60);
    Double(33, 0x6e60, 0xc1c6);
    Double(66, 0xc1c6, 0x4e8a);
    Double(132, 0x4e8a, 0x5946);
    Double(264, 0x5946, 0x78b3);
    DoublePlusOne(528, 0x78b3, 0xf2af);
  }

  lemma SquaresTo73()
    ensures Times(0x0200, 0x0200) == 0x4084 && Times(0x4084, 0x4084) == 0x4363 && Step(Times(0x4363, 0x4363)) == 0x8fa6
  {
  }

  lemma SquaresTo585()
    ensures Times(0x8fa6, 0x8fa6) == 0x4388 && Times(0x4388, 0x4388) == 0x1396 && Step(Times(0x1396, 0x1396)) == 0x4500
  {
  }

  lemma SquaresTo4681()
    ensures Times(0x4500, 0x4500) == 0x0163 && Times(0x0163, 0x0163) == 0x0424 && Step(Times(0x0424, 0x0424)) == 0x2c42
  {
  }

  lemma PowerOf4681()
    ensures Power(4681) != 1
  {
    hide Times, Step;
    SmallPowers();
    SquaresTo73();
    SquaresTo585();
    SquaresTo4681();
    hide Power;
    Double(9, 0x0200, 0x4084);
    Double(18, 0x4084, 0x4363);
    DoublePlusOne(36, 0x4363, 0x8fa6);
    Double(73, 0x8fa6, 0x4388);
    Double(146, 0x4388, 0x1396);
    DoublePlusOne(292, 0x1396, 0x4500);
    Double(585, 0x4500, 0x0163);
    Double(1170, 0x0163, 0x0424);
    DoublePlusOne(2340, 0x0424, 0x2c42);
  }

  // ---------- The period of the register ----------

  predicate Period(n: nat) {
    Power(n) == 1
  }

  lemma PeriodSum(m: nat, n: nat)
    requires Period(m)
    ensures Period(m + n) <==> Period(n)
  {
    hide Steps;
    StepsAdd(n, m, 1);
  }

  lemma {:induction false} PeriodTimes(n: nat, q: nat)
    requires Period(n)
    ensures Period(n * q)
  {
    if q == 0 {
      assert n * q == 0;
    } else {
      hide Period;
      PeriodTimes(n, q - 1);
      PeriodSum(n, n * (q - 1));
      assert n + n * (q - 1) == n * q;
    }
  }

  lemma PeriodOf32767()
    ensures Period(32767)
  {
    PowerOf32768();
    assert Step(1) == 2;
    hide Steps, Step;
    StepAfter(32767, 1);
    StepInjective(Steps(32767, 1), 1);
  }

  lemma DivideBy(x: nat, y: nat, n: nat)
    requires y > 0
    ensures (n * y) * (x / y) + n * (x % y) == n * x
  {
    assert x == y * (x / y) + x % y;
    assert n * (y * (x / y)) == (n * y) * (x / y);
  }

  predicate Prime(p: nat) {
    p > 1 && forall r :: 1 < r < p ==> p % r != 0
  }

  // Euclid's steps from p and r down to 1.
  lemma {:induction false} PeriodDown(n: nat, p: nat, r: nat)
    requires Prime(p) && 0 < r < p && Period(n * p) && Period(n * r)
    ensures Period(n)
    decreases r
  {
    hide Period;
    if r == 1 {
      assert n * r == n;
    } else {
      DivideBy(p, r, n);
      PeriodTimes(n * r, p / r);
      PeriodSum((n * r) * (p / r), n * (p % r));
      PeriodDown(n, p, p % r);
    }
  }

  lemma PeriodDivisible(n: nat, p: nat, d: nat)
    requires Prime(p) && Period(n * p) && !Period(n) && Period(d)
    ensures d % p == 0
  {
    hide Period;
    PeriodTimes(d, n);
    assert d * n == n * d;
    DivideBy(d, p, n);
    PeriodTimes(n * p, d / p);
    PeriodSum((n * p) * (d / p), n * (d % p));
    if d % p != 0 {
      PeriodDown(n, p, d % p);
    }
  }

  lemma NotADivisor(p: nat, r: nat)
    requires (p == 7 || p == 31 || p == 151) && 1 < r < p
    ensures p % r != 0
  {
  }

  lemma SmallPrime(p: nat)
    requires p == 7 || p == 31 || p == 151
    ensures Prime(p)
  {
    forall r | 1 < r < p
      ensures p % r != 0
    {
      NotADivisor(p, r);
    }
  }

  lemma Combined(d: nat, a: nat, b: nat, c: nat)
    requires d == 7 * a && d == 31 * b && d == 151 * c
    ensures d == 32767 * (207 * b - 46 * a - 16 * c)
  {
  }

  lemma AllThree(d: nat)
    requires d % 7 == 0 && d % 31 == 0 && d % 151 == 0
    ensures d % 32767 == 0
  {
    var a, b, c := d / 7, d / 31, d / 151;
    assert d == 7 * a && d == 31 * b && d == 151 * c;
    Combined(d, a, b, c);
    Multiple(d, 207 * b - 46 * a - 16 * c);
  }

  lemma Multiple(d: nat, k: int)
    requires d == 32767 * k
    ensures d % 32767 == 0
  {
  }

  /** The register that starts at 1 is back at 1 after exactly the multiples of 32767 shifts. */
  lemma PeriodIff(d: nat)
    ensures Steps(d, 1) == 1 <==> d % 32767 == 0
  {
    PeriodOf32767();
    if Period(d) {
      PowerOf217();
      PowerOf1057();
      PowerOf4681();
      SmallPrime(7);
      SmallPrime(31);
      SmallPrime(151);
      hide Prime;
      PeriodDivisible(4681, 7, d);
      PeriodDivisible(1057, 31, d);
      PeriodDivisible(217, 151, d);
      AllThree(d);
    }
    if d % 32767 == 0 {
      PeriodTimes(32767, d / 32767);
    }
  }

  // ---------- Two flipped bits ----------

  // x^d + 1 is a multiple of the generator exactly if x^d leaves 1.
  lemma BinomialIff(d: nat)
    requires d > 0
    ensures (exists q :: {0, d} == Mul(q, G_TERMS)) <==> Steps(d, 1) == 1
  {
    hide Mul, Steps, Shift, WordPoly;
    OneWord();
    var left := StepsPoly(d, 1);
    assert Shift({0}, d) == {d} by { ShiftMembers({0}, d); }
    if Steps(d, 1) == 1 {
      assert {0, d} == Mul(left, G_TERMS) by { MoveOver({d}, Mul(left, G_TERMS), {0}); }
    }
    if q :| {0, d} == Mul(q, G_TERMS) {
      assert {d} == Add({0, d}, {0});
      assert Quotient(q, {0}, {d});
      assert IsRemainder({0}, {d});
      WordPolyBelow(Steps(d, 1));
      assert IsRemainder(WordPoly(Steps(d, 1)), {d});
      RemainderUnique({0}, WordPoly(Steps(d, 1)), {d});
      WordPolyInjective(Steps(d, 1), 1);
    }
  }

  lemma OneWord()
    ensures WordPoly(1) == {0}
  {
  }

  lemma WordPolyBelow(s: bv16)
    ensures DegreeBelow(WordPoly(s), 16)
  {
  }

  lemma MoveOver(p: Poly, q: Poly, r: Poly)
    requires p == Add(q, r)
    ensures Add(r, p) == q
  {
  }

  /**
   Two flipped bits, at any places of messages of any length, go unnoticed if and only if their distance
   is a multiple of 32767.
   */
  lemma TwoBitsIff(a: seq<byte>, b: seq<byte>, i: nat, d: nat)
    requires d > 0 && Damage(a, b) == {i, i + d}
    ensures Crc16(0, a) == Crc16(0, b) <==> d % 32767 == 0
  {
    hide Mul, Steps, Shift, Damage, Crc16;
    SameCrcIff(a, b);
    BinomialIff(d);
    PeriodIff(d);
    assert Shift({0, d}, i) == {i, i + d} by { ShiftMembers({0, d}, i); }
    if q' :| {i, i + d} == Mul(q', G_TERMS) {
      var q := DivideByShift({0, d}, i, q');
    }
    if q :| {0, d} == Mul(q, G_TERMS) {
      MulShift(q, i, G_TERMS);
    }
  }

  /** Up to three flipped bits in messages of at most 32767 bits always change the CRC. */
  lemma ThreeBitsDetected(a: seq<byte>, b: seq<byte>)
    requires |a| == |b| && 8 * |a| <= 32767 && 1 <= |Damage(a, b)| <= 3
    ensures Crc16(0, a) != Crc16(0, b)
  {
    hide *;
    if |Damage(a, b)| == 2 {
      var i, d := TwoMembers(Damage(a, b));
      DamageInside(a, b, i + d);
      TwoBitsIff(a, b, i, d);
    } else {
      OddDamageDetected(a, b);
    }
  }

  lemma DamageInside(a: seq<byte>, b: seq<byte>, e: nat)
    requires |a| == |b| && e in Damage(a, b)
    ensures e < 8 * |a|
  {
    hide ByteBit;
  }

  lemma TwoMembers(p: Poly) returns (i: nat, d: nat)
    requires |p| == 2
    ensures d > 0 && p == {i, i + d} && i + d in p
  {
    var x :| x in p;
    assert |p - {x}| == 1;
    var y :| y in p - {x};
    assert |p - {x} - {y}| == 0;
    assert p == {x, y};
    i, d := if x < y then x else y, if x < y then y - x else x - y;
  }
}
