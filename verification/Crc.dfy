/**
 The CRC-16 of the serial stack (x^16 + x^12 + x^5 + 1, most significant bit first).

 The tree holds four programs for it: a bit loop in C, a bit loop in Python, a loop-free form and
 a table form.  `CrcByte` is the specification they are all proved against (the table form in
 CrcTable.dfy).  The polynomial meaning of the specification is proved in CrcPolynomial.dfy, what
 damage it detects there and in DamageDetection.dfy.
 */
module Crc {
  import opened Word16

  type byte = bv8

  /** One shift of the register, with feedback when the top bit falls out. */
  function Step(s: bv16): bv16 {
    if Top(s) then Xor(Shl1(s), 0x1021) else Shl1(s)
  }

  /** `n` shifts of the register. */
  function Steps(n: nat, s: bv16): bv16 {
    if n == 0 then s else Steps(n - 1, Step(s))
  }

  /** A message byte in the top half of a word. */
  function HighByte(b: byte): bv16 { (b as bv16) << 8 }

  /** The register after one more message byte. */
  function CrcByte(s: bv16, b: byte): bv16 {
    Steps(8, Xor(s, HighByte(b)))
  }

  /** The register after a whole message. */
  function Crc16(s: bv16, msg: seq<byte>): bv16
    decreases msg
  {
    if msg == [] then s else Crc16(CrcByte(s, msg[0]), msg[1..])
  }

  // ---------- Linearity ----------

  lemma StepLinear(s: bv16, t: bv16)
    ensures Step(Xor(s, t)) == Xor(Step(s), Step(t))
  {
    hide Xor, Shl1, Top;
    var a, b, g := Shl1(s), Shl1(t), 0x1021;
    Shl1Linear(s, t);
    TopLinear(s, t);
    XorExchange(a, g, b, g);
    XorZero(g);
    XorZero(Xor(a, b));
    XorAssociates(a, b, g);
    XorAssociates(a, g, b);
    XorCommutes(b, g);
  }

  lemma {:induction false} StepsLinear(n: nat, s: bv16, t: bv16)
    ensures Steps(n, Xor(s, t)) == Xor(Steps(n, s), Steps(n, t))
  {
    hide Step, Xor;
    if n > 0 {
      StepLinear(s, t);
      StepsLinear(n - 1, Step(s), Step(t));
    }
  }

  // ---------- The bit loop in C ----------

  method BitLoopCrcByte(crc0: bv16, b: byte) returns (crc: bv16)
    ensures crc == CrcByte(crc0, b)
  {
    crc := Xor(crc0, HighByte(b));
    hide Xor, Shl1, Top, HighByte;
    var i := 8;
    while i != 0
      invariant 0 <= i <= 8
      invariant Steps(i, crc) == CrcByte(crc0, b)
    {
      if Top(crc) {
        crc := Xor(Shl1(crc), 0x1021);
      } else {
        crc := Shl1(crc);
      }
      i := i - 1;
    }
  }

  // ---------- The bit loop in Python ----------

  // Python integers do not wrap.  Neither do these vectors here: every shift asks for a number of at
  // most 16 bits, and `NoBitLost` says that it loses none.
  type PyInt = bv32

  predicate Masked(crc: PyInt) { crc <= 0xffff }

  function Wide(s: bv16): PyInt { s as PyInt }
  function PyShl8(b: byte): PyInt { (b as PyInt) << 8 }
  function PyXorByte(crc: PyInt, b: byte): PyInt { crc ^ PyShl8(b) }
  predicate PyTop(crc: PyInt) { crc & 0x8000 == 0x8000 }

  function PyShl1(crc: PyInt): PyInt
    requires Masked(crc)
  {
    crc << 1
  }

  function PyXor(a: PyInt, b: PyInt): PyInt { a ^ b }
  function PyMask(crc: PyInt): PyInt { crc & 0xffff }

  /** No shift of the loop, and no XOR after it, ever needs more than 17 bits. */
  lemma NoBitLost(crc: PyInt, b: byte)
    requires Masked(crc)
    ensures PyShl8(b) >> 8 == b as PyInt && Masked(PyXorByte(crc, b))
    ensures PyShl1(crc) >> 1 == crc && PyShl1(crc) <= 0x1_ffff && PyXor(PyShl1(crc), 0x1021) <= 0x1_ffff
  {
  }

  lemma WideTop(s: bv16)
    ensures PyTop(Wide(s)) <==> Top(s)
  {
  }

  lemma WideShift(s: bv16)
    ensures Masked(Wide(s))
    ensures PyMask(PyShl1(Wide(s))) == Wide(Shl1(s))
  {
    ShiftedWide(s, Shl1(s));
  }

  lemma ShiftedWide(s: bv16, t: bv16)
    requires t == s << 1
    ensures Masked(Wide(s)) && PyMask(PyShl1(Wide(s))) == Wide(t)
  {
    hide Shl1, Top, Xor;
    assert (s << 1) as PyInt == ((s as PyInt) << 1) & 0xffff;
  }

  lemma MaskXor(a: PyInt, b: PyInt)
    ensures PyMask(PyXor(a, b)) == PyXor(PyMask(a), PyMask(b))
  {
  }

  lemma WideXor(a: bv16, b: bv16)
    ensures PyXor(Wide(a), Wide(b)) == Wide(Xor(a, b))
  {
  }

  lemma WideGenerator()
    ensures PyMask(0x1021) == 0x1021 && Wide(0x1021) == 0x1021
  {
  }

  lemma WideXorByte(s: bv16, b: byte)
    ensures PyXorByte(Wide(s), b) == Wide(Xor(s, HighByte(b)))
  {
  }

  lemma WideNarrow(s: bv16)
    ensures Masked(Wide(s)) && Wide(s) as bv16 == s
  {
  }

  method PythonCrc16(baseCrc: bv16, frameData: seq<byte>) returns (r: bv16)
    ensures r == Crc16(baseCrc, frameData)
  {
    hide Wide, PyShl8, PyXorByte, PyTop, PyShl1, PyXor, PyMask, Xor, HighByte, Top, Shl1;
    var crc := Wide(baseCrc);
    ghost var s := baseCrc;
    for n := 0 to |frameData|
      invariant crc == Wide(s)
      invariant Crc16(s, frameData[n..]) == Crc16(baseCrc, frameData)
    {
      var b := frameData[n];
      WideXorByte(s, b);
      crc := PyXorByte(crc, b);
      ghost var t := Xor(s, HighByte(b));
      for i := 0 to 8
        invariant crc == Wide(t)
        invariant Steps(8 - i, t) == CrcByte(s, b)
      {
        WideTop(t);
        WideShift(t);
        MaskXor(PyShl1(crc), 0x1021);
        WideXor(Shl1(t), 0x1021);
        WideGenerator();
        if PyTop(crc) {
          crc := PyXor(PyShl1(crc), 0x1021);
        } else {
          crc := PyShl1(crc);
        }
        crc := PyMask(crc);
        t := Step(t);
      }
      assert frameData[n..][1..] == frameData[n + 1..];
      s := t;
    }
    WideNarrow(s);
    r := crc as bv16;
  }

  // ---------- The loop-free form ----------

  // The statements of the loop-free form.  The first two together swap the bytes of s ^ b << 8;
  // the other three are linear over XOR, as the eight shifts are.
  function HighHalf(x: bv16): bv16 { (x >> 8) & 0xff }
  function Shl8(x: bv16): bv16 { x << 8 }
  function LowNibbleUp(x: bv16): bv16 { (x & 0xff) >> 4 }
  function Shl12(x: bv16): bv16 { x << 12 }
  function LowByteShl5(x: bv16): bv16 { (x & 0xff) << 5 }

  function SwapBytes(x: bv16): bv16 { Xor(HighHalf(x), Shl8(x)) }
  function FoldNibble(x: bv16): bv16 { Xor(x, LowNibbleUp(x)) }
  function FoldTwelve(x: bv16): bv16 { Xor(x, Shl12(x)) }
  function FoldFive(x: bv16): bv16 { Xor(x, LowByteShl5(x)) }

  function LoopFree(x: bv16): bv16 {
    FoldFive(FoldTwelve(FoldNibble(SwapBytes(x))))
  }

  lemma HighHalfLinear(x: bv16, y: bv16)
    ensures HighHalf(Xor(x, y)) == Xor(HighHalf(x), HighHalf(y))
  {
  }

  lemma Shl8Linear(x: bv16, y: bv16)
    ensures Shl8(Xor(x, y)) == Xor(Shl8(x), Shl8(y))
  {
  }

  lemma LowNibbleUpLinear(x: bv16, y: bv16)
    ensures LowNibbleUp(Xor(x, y)) == Xor(LowNibbleUp(x), LowNibbleUp(y))
  {
  }

  lemma Shl12Linear(x: bv16, y: bv16)
    ensures Shl12(Xor(x, y)) == Xor(Shl12(x), Shl12(y))
  {
  }

  lemma LowByteShl5Linear(x: bv16, y: bv16)
    ensures LowByteShl5(Xor(x, y)) == Xor(LowByteShl5(x), LowByteShl5(y))
  {
  }

  lemma SwapBytesLinear(x: bv16, y: bv16)
    ensures SwapBytes(Xor(x, y)) == Xor(SwapBytes(x), SwapBytes(y))
  {
    hide Xor, HighHalf, Shl8;
    HighHalfLinear(x, y);
    Shl8Linear(x, y);
    XorExchange(HighHalf(x), HighHalf(y), Shl8(x), Shl8(y));
  }

  lemma FoldsLinear(x: bv16, y: bv16)
    ensures FoldNibble(Xor(x, y)) == Xor(FoldNibble(x), FoldNibble(y))
    ensures FoldTwelve(Xor(x, y)) == Xor(FoldTwelve(x), FoldTwelve(y))
    ensures FoldFive(Xor(x, y)) == Xor(FoldFive(x), FoldFive(y))
  {
    hide Xor, LowNibbleUp, Shl12, LowByteShl5;
    LowNibbleUpLinear(x, y);
    Shl12Linear(x, y);
    LowByteShl5Linear(x, y);
    XorExchange(x, y, LowNibbleUp(x), LowNibbleUp(y));
    XorExchange(x, y, Shl12(x), Shl12(y));
    XorExchange(x, y, LowByteShl5(x), LowByteShl5(y));
  }

  lemma LoopFreeLinear(x: bv16, y: bv16)
    ensures LoopFree(Xor(x, y)) == Xor(LoopFree(x), LoopFree(y))
  {
    hide Xor, SwapBytes, FoldNibble, FoldTwelve, FoldFive;
    var a, b := SwapBytes(x), SwapBytes(y);
    SwapBytesLinear(x, y);
    FoldsLinear(a, b);
    FoldsLinear(FoldNibble(a), FoldNibble(b));
    FoldsLinear(FoldTwelve(FoldNibble(a)), FoldTwelve(FoldNibble(b)));
  }

  // Two linear maps that agree on the sixteen one-bit words agree on every word.
  predicate Agree(x: bv16) {
    Steps(8, x) == LoopFree(x)
  }

  lemma FourSteps(n: nat, s: bv16)
    ensures Steps(n + 4, s) == Steps(n, Step(Step(Step(Step(s)))))
  {
    hide Step;
    calc {
      Steps(n + 4, s);
      Steps(n + 3, Step(s));
      Steps(n + 2, Step(Step(s)));
      Steps(n + 1, Step(Step(Step(s))));
    }
  }

  function StepEightTimes(s: bv16): bv16 {
    Step(Step(Step(Step(Step(Step(Step(Step(s))))))))
  }

  lemma EightSteps(s: bv16)
    ensures Steps(8, s) == StepEightTimes(s)
  {
    hide Step;
    FourSteps(4, s);
    FourSteps(0, Step(Step(Step(Step(s)))));
  }

  lemma LowBits()
    ensures Agree(0x0001) && Agree(0x0002) && Agree(0x0004) && Agree(0x0008)
    ensures Agree(0x0010) && Agree(0x0020) && Agree(0x0040) && Agree(0x0080)
  {
    EightSteps(0x0001);
    EightSteps(0x0002);
    EightSteps(0x0004);
    EightSteps(0x0008);
    EightSteps(0x0010);
    EightSteps(0x0020);
    EightSteps(0x0040);
    EightSteps(0x0080);
    hide Steps;
  }

  lemma HighBits()
    ensures Agree(0x0100) && Agree(0x0200) && Agree(0x0400) && Agree(0x0800)
    ensures Agree(0x1000) && Agree(0x2000) && Agree(0x4000) && Agree(0x8000)
    ensures Agree(0)
  {
    EightSteps(0x0100);
    EightSteps(0x0200);
    EightSteps(0x0400);
    EightSteps(0x0800);
    EightSteps(0x1000);
    EightSteps(0x2000);
    EightSteps(0x4000);
    EightSteps(0x8000);
    EightSteps(0x0000);
    hide Steps;
  }

  lemma AgreeOnBits(bit: bv16)
    requires bit == 0 || bit in OneBitWords
    ensures Agree(bit)
  {
    hide Agree;
    LowBits();
    HighBits();
  }

  lemma AgreeXor(x: bv16, y: bv16)
    requires Agree(x) && Agree(y)
    ensures Agree(Xor(x, y))
  {
    hide Steps, LoopFree, Xor;
    StepsLinear(8, x, y);
    LoopFreeLinear(x, y);
  }

  lemma AgreeOneMoreBit(x: bv16, mask: bv16, bit: bv16)
    requires bit in OneBitWords && And(mask, bit) == 0
    requires Agree(And(x, mask))
    ensures Agree(And(x, mask | bit))
  {
    hide Agree, And, Xor;
    AgreeOnBits(bit);
    AgreeOnBits(0);
    OneBit(x, bit);
    MaskSplit(x, mask, bit);
    AgreeXor(And(x, mask), And(x, bit));
  }

  lemma AgreeOnLowHalf(x: bv16)
    ensures Agree(And(x, 0x00ff))
  {
    hide Agree;
    AgreeOnBits(0);
    MaskEnds(x);
    AgreeOneMoreBit(x, 0x0000, 0x0001);
    AgreeOneMoreBit(x, 0x0001, 0x0002);
    AgreeOneMoreBit(x, 0x0003, 0x0004);
    AgreeOneMoreBit(x, 0x0007, 0x0008);
    AgreeOneMoreBit(x, 0x000f, 0x0010);
    AgreeOneMoreBit(x, 0x001f, 0x0020);
    AgreeOneMoreBit(x, 0x003f, 0x0040);
    AgreeOneMoreBit(x, 0x007f, 0x0080);
  }

  lemma AgreeEverywhere(x: bv16)
    ensures Agree(x)
  {
    hide Agree;
    AgreeOnLowHalf(x);
    AgreeOneMoreBit(x, 0x00ff, 0x0100);
    AgreeOneMoreBit(x, 0x01ff, 0x0200);
    AgreeOneMoreBit(x, 0x03ff, 0x0400);
    AgreeOneMoreBit(x, 0x07ff, 0x0800);
    AgreeOneMoreBit(x, 0x0fff, 0x1000);
    AgreeOneMoreBit(x, 0x1fff, 0x2000);
    AgreeOneMoreBit(x, 0x3fff, 0x4000);
    AgreeOneMoreBit(x, 0x7fff, 0x8000);
    MaskEnds(x);
  }

  // The code swaps the bytes with an inclusive or, and XORs `b` in afterwards.
  function SwapBytesCode(s: bv16): bv16 { ((s >> 8) & 0xff) | (s << 8) }

  lemma SwapBytesXorByte(s: bv16, b: byte)
    ensures Xor(SwapBytesCode(s), b as bv16) == SwapBytes(Xor(s, HighByte(b)))
  {
  }

  method LoopFreeCrcByte(crc0: bv16, b: byte) returns (crc: bv16)
    ensures crc == CrcByte(crc0, b)
  {
    hide Steps, HighByte, Xor, SwapBytesCode, SwapBytes, LowNibbleUp, Shl12, LowByteShl5;
    crc := SwapBytesCode(crc0);
    crc := Xor(crc, b as bv16);
    SwapBytesXorByte(crc0, b);
    crc := Xor(crc, LowNibbleUp(crc));
    crc := Xor(crc, Shl12(crc));
    crc := Xor(crc, LowByteShl5(crc));
    AgreeEverywhere(Xor(crc0, HighByte(b)));
  }
}
