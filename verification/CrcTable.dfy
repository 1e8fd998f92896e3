/**
 The table form of the CRC: the 256 entries are the eight-shift images of the high bytes, and one
 look-up per message byte computes `CrcByte`.
 */
module CrcTable {
  import opened Word16
  import opened Crc

  /** The table of the source, in its rows of eight. */
  const CCITT_CRC16_ROWS: seq<seq<bv16>> := [
    [0x0000, 0x1021, 0x2042, 0x3063, 0x4084, 0x50a5, 0x60c6, 0x70e7],
    [0x8108, 0x9129, 0xa14a, 0xb16b, 0xc18c, 0xd1ad, 0xe1ce, 0xf1ef],
    [0x1231, 0x0210, 0x3273, 0x2252, 0x52b5, 0x4294, 0x72f7, 0x62d6],
    [0x9339, 0x8318, 0xb37b, 0xa35a, 0xd3bd, 0xc39c, 0xf3ff, 0xe3de],
    [0x2462, 0x3443, 0x0420, 0x1401, 0x64e6, 0x74c7, 0x44a4, 0x5485],
    [0xa56a, 0xb54b, 0x8528, 0x9509, 0xe5ee, 0xf5cf, 0xc5ac, 0xd58d],
    [0x3653, 0x2672, 0x1611, 0x0630, 0x76d7, 0x66f6, 0x5695, 0x46b4],
    [0xb75b, 0xa77a, 0x9719, 0x8738, 0xf7df, 0xe7fe, 0xd79d, 0xc7bc],
    [0x48c4, 0x58e5, 0x6886, 0x78a7, 0x0840, 0x1861, 0x2802, 0x3823],
    [0xc9cc, 0xd9ed, 0xe98e, 0xf9af, 0x8948, 0x9969, 0xa90a, 0xb92b],
    [0x5af5, 0x4ad4, 0x7ab7, 0x6a96, 0x1a71, 0x0a50, 0x3a33, 0x2a12],
    [0xdbfd, 0xcbdc, 0xfbbf, 0xeb9e, 0x9b79, 0x8b58, 0xbb3b, 0xab1a],
    [0x6ca6, 0x7c87, 0x4ce4, 0x5cc5, 0x2c22, 0x3c03, 0x0c60, 0x1c41],
    [0xedae, 0xfd8f, 0xcdec, 0xddcd, 0xad2a, 0xbd0b, 0x8d68, 0x9d49],
    [0x7e97, 0x6eb6, 0x5ed5, 0x4ef4, 0x3e13, 0x2e32, 0x1e51, 0x0e70],
    [0xff9f, 0xefbe, 0xdfdd, 0xcffc, 0xbf1b, 0xaf3a, 0x9f59, 0x8f78],
    [0x9188, 0x81a9, 0xb1ca, 0xa1eb, 0xd10c, 0xc12d, 0xf14e, 0xe16f],
    [0x1080, 0x00a1, 0x30c2, 0x20e3, 0x5004, 0x4025, 0x7046, 0x6067],
    [0x83b9, 0x9398, 0xa3fb, 0xb3da, 0xc33d, 0xd31c, 0xe37f, 0xf35e],
    [0x02b1, 0x1290, 0x22f3, 0x32d2, 0x4235, 0x5214, 0x6277, 0x7256],
    [0xb5ea, 0xa5cb, 0x95a8, 0x8589, 0xf56e, 0xe54f, 0xd52c, 0xc50d],
    [0x34e2, 0x24c3, 0x14a0, 0x0481, 0x7466, 0x6447, 0x5424, 0x4405],
    [0xa7db, 0xb7fa, 0x8799, 0x97b8, 0xe75f, 0xf77e, 0xc71d, 0xd73c],
    [0x26d3, 0x36f2, 0x0691, 0x16b0, 0x6657, 0x7676, 0x4615, 0x5634],
    [0xd94c, 0xc96d, 0xf90e, 0xe92f, 0x99c8, 0x89e9, 0xb98a, 0xa9ab],
    [0x5844, 0x4865, 0x7806, 0x6827, 0x18c0, 0x08e1, 0x3882, 0x28a3],
    [0xcb7d, 0xdb5c, 0xeb3f, 0xfb1e, 0x8bf9, 0x9bd8, 0xabbb, 0xbb9a],
    [0x4a75, 0x5a54, 0x6a37, 0x7a16, 0x0af1, 0x1ad0, 0x2ab3, 0x3a92],
    [0xfd2e, 0xed0f, 0xdd6c, 0xcd4d, 0xbdaa, 0xad8b, 0x9de8, 0x8dc9],
    [0x7c26, 0x6c07, 0x5c64, 0x4c45, 0x3ca2, 0x2c83, 0x1ce0, 0x0cc1],
    [0xef1f, 0xff3e, 0xcf5d, 0xdf7c, 0xaf9b, 0xbfba, 0x8fd9, 0x9ff8],
    [0x6e17, 0x7e36, 0x4e55, 0x5e74, 0x2e93, 0x3eb2, 0x0ed1, 0x1ef0]]

  function Entry(i: byte): bv16 {
    CCITT_CRC16_ROWS[(i >> 3) as int][(i & 7) as int]
  }

  /** One look-up per message byte. */
  function TableCrcByte(fcs: bv16, c: byte): bv16 {
    Xor(Entry(TableIndex(fcs, c)), Shl8(fcs))
  }

  function TableIndex(fcs: bv16, c: byte): byte {
    IndexFits(fcs, c);
    And(Xor(fcs >> 8, c as bv16), 0xff) as byte
  }

  lemma IndexFits(fcs: bv16, c: byte)
    ensures And(Xor(fcs >> 8, c as bv16), 0xff) <= 0xff
  {
  }

  // ---------- The table is right ----------

  // Entry `8 * r + c`, read at a literal row and column.
  predicate RowCorrect(r: int, first: bv16)
    requires 0 <= r < 32
  {
    var row := CCITT_CRC16_ROWS[r];
    && Steps(8, first) == row[0]
    && Steps(8, first + 0x100) == row[1]
    && Steps(8, first + 0x200) == row[2]
    && Steps(8, first + 0x300) == row[3]
    && Steps(8, first + 0x400) == row[4]
    && Steps(8, first + 0x500) == row[5]
    && Steps(8, first + 0x600) == row[6]
    && Steps(8, first + 0x700) == row[7]
  }

  lemma EightStepsOfRow(first: bv16)
    ensures Steps(8, first) == StepEightTimes(first)
    ensures Steps(8, first + 0x100) == StepEightTimes(first + 0x100)
    ensures Steps(8, first + 0x200) == StepEightTimes(first + 0x200)
    ensures Steps(8, first + 0x300) == StepEightTimes(first + 0x300)
    ensures Steps(8, first + 0x400) == StepEightTimes(first + 0x400)
    ensures Steps(8, first + 0x500) == StepEightTimes(first + 0x500)
    ensures Steps(8, first + 0x600) == StepEightTimes(first + 0x600)
    ensures Steps(8, first + 0x700) == StepEightTimes(first + 0x700)
  {
    hide StepEightTimes, Steps;
    EightSteps(first);
    EightSteps(first + 0x100);
    EightSteps(first + 0x200);
    EightSteps(first + 0x300);
    EightSteps(first + 0x400);
    EightSteps(first + 0x500);
    EightSteps(first + 0x600);
    EightSteps(first + 0x700);
  }

  lemma Row0() ensures RowCorrect(0, 0x0000) { EightStepsOfRow(0x0000); hide Steps; }

  lemma Row1() ensures RowCorrect(1, 0x0800) { EightStepsOfRow(0x0800); hide Steps; }

  lemma Row2() ensures RowCorrect(2, 0x1000) { EightStepsOfRow(0x1000); hide Steps; }

  lemma Row3() ensures RowCorrect(3, 0x1800) { EightStepsOfRow(0x1800); hide Steps; }

  lemma Row4() ensures RowCorrect(4, 0x2000) { EightStepsOfRow(0x2000); hide Steps; }

  lemma Row5() ensures RowCorrect(5, 0x2800) { EightStepsOfRow(0x2800); hide Steps; }

  lemma Row6() ensures RowCorrect(6, 0x3000) { EightStepsOfRow(0x3000); hide Steps; }

  lemma Row7() ensures RowCorrect(7, 0x3800) { EightStepsOfRow(0x3800); hide Steps; }

  lemma Row8() ensures RowCorrect(8, 0x4000) { EightStepsOfRow(0x4000); hide Steps; }

  lemma Row9() ensures RowCorrect(9, 0x4800) { EightStepsOfRow(0x4800); hide Steps; }

  lemma Row10() ensures RowCorrect(10, 0x5000) { EightStepsOfRow(0x5000); hide Steps; }

  lemma Row11() ensures RowCorrect(11, 0x5800) { EightStepsOfRow(0x5800); hide Steps; }

  lemma Row12() ensures RowCorrect(12, 0x6000) { EightStepsOfRow(0x6000); hide Steps; }

  lemma Row13() ensures RowCorrect(13, 0x6800) { EightStepsOfRow(0x6800); hide Steps; }

  lemma Row14() ensures RowCorrect(14, 0x7000) { EightStepsOfRow(0x7000); hide Steps; }

  lemma Row15() ensures RowCorrect(15, 0x7800) { EightStepsOfRow(0x7800); hide Steps; }

  lemma Row16() ensures RowCorrect(16, 0x8000) { EightStepsOfRow(0x8000); hide Steps; }

  lemma Row17() ensures RowCorrect(17, 0x8800) { EightStepsOfRow(0x8800); hide Steps; }

  lemma Row18() ensures RowCorrect(18, 0x9000) { EightStepsOfRow(0x9000); hide Steps; }

  lemma Row19() ensures RowCorrect(19, 0x9800) { EightStepsOfRow(0x9800); hide Steps; }

  lemma Row20() ensures RowCorrect(20, 0xa000) { EightStepsOfRow(0xa000); hide Steps; }

  lemma Row21() ensures RowCorrect(21, 0xa800) { EightStepsOfRow(0xa800); hide Steps; }

  lemma Row22() ensures RowCorrect(22, 0xb000) { EightStepsOfRow(0xb000); hide Steps; }

  lemma Row23() ensures RowCorrect(23, 0xb800) { EightStepsOfRow(0xb800); hide Steps; }

  lemma Row24() ensures RowCorrect(24, 0xc000) { EightStepsOfRow(0xc000); hide Steps; }

  lemma Row25() ensures RowCorrect(25, 0xc800) { EightStepsOfRow(0xc800); hide Steps; }

  lemma Row26() ensures RowCorrect(26, 0xd000) { EightStepsOfRow(0xd000); hide Steps; }

  lemma Row27() ensures RowCorrect(27, 0xd800) { EightStepsOfRow(0xd800); hide Steps; }

  lemma Row28() ensures RowCorrect(28, 0xe000) { EightStepsOfRow(0xe000); hide Steps; }

  lemma Row29() ensures RowCorrect(29, 0xe800) { EightStepsOfRow(0xe800); hide Steps; }

  lemma Row30() ensures RowCorrect(30, 0xf000) { EightStepsOfRow(0xf000); hide Steps; }

  lemma Row31() ensures RowCorrect(31, 0xf800) { EightStepsOfRow(0xf800); hide Steps; }

  lemma EveryRow(hi: byte)
    requires hi < 32
    ensures RowCorrect(hi as int, (hi as bv16) << 11)
  {
    hide RowCorrect;
    if hi == 0 {
      Row0();
    } else if hi == 1 {
      Row1();
    } else if hi == 2 {
      Row2();
    } else if hi == 3 {
      Row3();
    } else if hi == 4 {
      Row4();
    } else if hi == 5 {
      Row5();
    } else if hi == 6 {
      Row6();
    } else if hi == 7 {
      Row7();
    } else if hi == 8 {
      Row8();
    } else if hi == 9 {
      Row9();
    } else if hi == 10 {
      Row10();
    } else if hi == 11 {
      Row11();
    } else if hi == 12 {
      Row12();
    } else if hi == 13 {
      Row13();
    } else if hi == 14 {
      Row14();
    } else if hi == 15 {
      Row15();
    } else if hi == 16 {
      Row16();
    } else if hi == 17 {
      Row17();
    } else if hi == 18 {
      Row18();
    } else if hi == 19 {
      Row19();
    } else if hi == 20 {
      Row20();
    } else if hi == 21 {
      Row21();
    } else if hi == 22 {
      Row22();
    } else if hi == 23 {
      Row23();
    } else if hi == 24 {
      Row24();
    } else if hi == 25 {
      Row25();
    } else if hi == 26 {
      Row26();
    } else if hi == 27 {
      Row27();
    } else if hi == 28 {
      Row28();
    } else if hi == 29 {
      Row29();
    } else if hi == 30 {
      Row30();
    } else {
      assert hi == 31;
      Row31();
    }
  }

  lemma EntryIsEightSteps(i: byte)
    ensures Entry(i) == Steps(8, HighByte(i))
  {
    hide Steps;
    var hi, lo := i >> 3, i & 7;
    EveryRow(hi);
    HighByteSplit(i);
    assert lo == 0 || lo == 1 || lo == 2 || lo == 3 || lo == 4 || lo == 5 || lo == 6 || lo == 7;
  }

  lemma HighByteSplit(i: byte)
    ensures HighByte(i) == (((i >> 3) as bv16) << 11) + (((i & 7) as bv16) << 8)
  {
  }

  // ---------- The table form computes the CRC ----------

  lemma HighByteOfIndex(fcs: bv16, c: byte)
    ensures HighByte(TableIndex(fcs, c)) == Shl8(Xor(HighHalf(fcs), c as bv16))
  {
    var w := And(Xor(fcs >> 8, c as bv16), 0xff);
    assert w == Xor(HighHalf(fcs), c as bv16);
    ByteRoundTrip(w);
    hide Xor, And, HighHalf, HighByte, Shl8;
  }

  lemma ByteRoundTrip(w: bv16)
    requires w <= 0xff
    ensures HighByte(w as byte) == Shl8(w)
  {
  }

  lemma Halves(fcs: bv16)
    ensures fcs == Xor(Shl8(HighHalf(fcs)), And(fcs, 0xff))
  {
  }

  lemma SplitAtByte(fcs: bv16, c: byte)
    ensures Xor(fcs, HighByte(c)) == Xor(HighByte(TableIndex(fcs, c)), And(fcs, 0xff))
  {
    assert HighByte(c) == Shl8(c as bv16);
    hide Xor, HighByte, And, Shl8, HighHalf, TableIndex;
    var h, low, b := Shl8(HighHalf(fcs)), And(fcs, 0xff), HighByte(c);
    HighByteOfIndex(fcs, c);
    Shl8Linear(HighHalf(fcs), c as bv16);
    Halves(fcs);
    XorAssociates(h, low, b);
    XorCommutes(low, b);
    XorAssociates(h, b, low);
  }

  // The low byte meets no feedback in eight shifts.
  lemma LowByteShifts(s: bv16)
    ensures Steps(8, And(s, 0xff)) == Shl8(s)
  {
    AgreeEverywhere(And(s, 0xff));
    LoopFreeOfLowByte(s);
    hide Steps;
  }

  lemma LoopFreeOfLowByte(s: bv16)
    ensures LoopFree(And(s, 0xff)) == Shl8(s)
  {
    var x := And(s, 0xff);
    assert SwapBytes(x) == Shl8(s);
    assert LowNibbleUp(Shl8(s)) == 0;
    assert Shl12(Shl8(s)) == 0;
    assert LowByteShl5(Shl8(s)) == 0;
    XorZero(Shl8(s));
    hide Xor, And, SwapBytes, LowNibbleUp, Shl12, LowByteShl5, Shl8;
  }

  lemma TableFormIsCrcByte(fcs: bv16, c: byte)
    ensures TableCrcByte(fcs, c) == CrcByte(fcs, c)
  {
    hide Entry, Steps, TableIndex, Xor, HighByte, And, Shl8;
    var i := TableIndex(fcs, c);
    SplitAtByte(fcs, c);
    StepsLinear(8, HighByte(i), And(fcs, 0xff));
    EntryIsEightSteps(i);
    LowByteShifts(fcs);
  }
}
