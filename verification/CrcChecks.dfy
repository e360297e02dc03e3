/** The published check values of the three CRCs, and a YMODEM packet and a Modbus answer with theirs. */
module CrcChecks {
  import opened Bytes
  import opened ByteBits
  import Crc16
  import ReflectedCrc
  import Modbus
  import Ymodem

  /** The characters 1 to 9. */
  const DIGITS: seq<byte> := [0x31, 0x32, 0x33, 0x34, 0x35, 0x36, 0x37, 0x38, 0x39]

  const BITS: seq<bv8> := [0x31, 0x32, 0x33, 0x34, 0x35, 0x36, 0x37, 0x38, 0x39]

  lemma {:induction false} EachBits()
    ensures BitsOf(0x31) == 0x31 && BitsOf(0x32) == 0x32 && BitsOf(0x33) == 0x33 && BitsOf(0x34) == 0x34
    ensures BitsOf(0x35) == 0x35 && BitsOf(0x36) == 0x36 && BitsOf(0x37) == 0x37 && BitsOf(0x38) == 0x38
    ensures BitsOf(0x39) == 0x39
  {
  }

  lemma {:induction false} DigitBits()
    ensures ToBits(DIGITS) == BITS
  {
    hide BitsOf;
    EachBits();
  }

  // ----- the CRC of polynomial 0x1021

  lemma {:induction false} One(c: bv16, data: seq<bv8>, i: nat, next: bv16)
    requires i < |data| && Crc16.EightShifts(Crc16.Xor(c, Crc16.High(data[i]))) == next
    ensures Crc16.StepAll(c, data[i..]) == Crc16.StepAll(next, data[i + 1..])
  {
    hide Crc16.Shift8, Crc16.EightShifts, Crc16.Xor, Crc16.High;
    Crc16.EightShiftsIs(Crc16.Xor(c, Crc16.High(data[i])));
    assert data[i..][1..] == data[i + 1..];
  }

  lemma {:induction false} Done(c: bv16)
    ensures Crc16.StepAll(c, []) == c
  {
  }

  lemma {:induction false} XmodemCheck()
    ensures Crc16.StepAll(0x0000, BITS) == 0x31C3
  {
    hide Crc16.StepAll;
    assert BITS[0..] == BITS && BITS[9..] == [];
    One(0x0000, BITS, 0, 0x2672);
    One(0x2672, BITS, 1, 0x20B5);
    One(0x20B5, BITS, 2, 0x9752);
    One(0x9752, BITS, 3, 0xD789);
    One(0xD789, BITS, 4, 0x546C);
    One(0x546C, BITS, 5, 0x20E4);
    One(0x20E4, BITS, 6, 0x86D6);
    One(0x86D6, BITS, 7, 0x9015);
    One(0x9015, BITS, 8, 0x31C3);
    Done(0x31C3);
  }

  lemma {:induction false} CcittCheck()
    ensures Crc16.StepAll(0xFFFF, BITS) == 0x29B1
  {
    hide Crc16.StepAll;
    assert BITS[0..] == BITS && BITS[9..] == [];
    One(0xFFFF, BITS, 0, 0xC782);
    One(0xC782, BITS, 1, 0x3DBA);
    One(0x3DBA, BITS, 2, 0x5BCE);
    One(0x5BCE, BITS, 3, 0x5349);
    One(0x5349, BITS, 4, 0x4560);
    One(0x4560, BITS, 5, 0x2EF4);
    One(0x2EF4, BITS, 6, 0x7718);
    One(0x7718, BITS, 7, 0xA12B);
    One(0xA12B, BITS, 8, 0x29B1);
    Done(0x29B1);
  }

  // ----- the reflected ones

  function FourRight(c: bv32, poly: bv32): bv32 {
    ReflectedCrc.Right1(ReflectedCrc.Right1(ReflectedCrc.Right1(ReflectedCrc.Right1(c, poly), poly), poly), poly)
  }

  function EightRight(c: bv32, poly: bv32): bv32 { FourRight(FourRight(c, poly), poly) }

  lemma {:induction false} FourRightIs(c: bv32, poly: bv32, n: nat)
    ensures ReflectedCrc.RightN(c, poly, 4 + n) == ReflectedCrc.RightN(FourRight(c, poly), poly, n)
  {
    hide ReflectedCrc.Right1;
    var c1 := ReflectedCrc.Right1(c, poly);
    var c2 := ReflectedCrc.Right1(c1, poly);
    var c3 := ReflectedCrc.Right1(c2, poly);
    assert ReflectedCrc.RightN(c, poly, 4 + n) == ReflectedCrc.RightN(c1, poly, 3 + n) == ReflectedCrc.RightN(c2, poly, 2 + n)
        == ReflectedCrc.RightN(c3, poly, 1 + n) == ReflectedCrc.RightN(ReflectedCrc.Right1(c3, poly), poly, n);
  }

  lemma {:induction false} EightRightIs(c: bv32, poly: bv32)
    ensures EightRight(c, poly) == ReflectedCrc.RightN(c, poly, 8)
  {
    hide FourRight;
    FourRightIs(c, poly, 4);
    FourRightIs(FourRight(c, poly), poly, 0);
  }

  lemma {:induction false} OneRight(c: bv32, data: seq<bv8>, poly: bv32, i: nat, next: bv32)
    requires i < |data| && EightRight(ReflectedCrc.Xor(c, ReflectedCrc.Wide(data[i])), poly) == next
    ensures ReflectedCrc.StepAll(c, data[i..], poly) == ReflectedCrc.StepAll(next, data[i + 1..], poly)
  {
    hide EightRight, ReflectedCrc.RightN, ReflectedCrc.Xor, ReflectedCrc.Wide;
    EightRightIs(ReflectedCrc.Xor(c, ReflectedCrc.Wide(data[i])), poly);
    assert data[i..][1..] == data[i + 1..];
  }

  lemma {:induction false} DoneRight(c: bv32, poly: bv32)
    ensures ReflectedCrc.StepAll(c, [], poly) == c
  {
  }

  const ANSWER: seq<bv8> := [1, 3, 2, 0, 10]

  lemma {:induction false} LfsRegister()
    ensures ReflectedCrc.StepAll(0xFFFFFFFF, BITS, ReflectedCrc.LFS_POLY) == 0x340BC6D9
  {
    hide ReflectedCrc.StepAll;
    var p := ReflectedCrc.LFS_POLY;
    assert BITS[0..] == BITS && BITS[9..] == [];
    OneRight(0xFFFFFFFF, BITS, p, 0, 0x7C231048);
    OneRight(0x7C231048, BITS, p, 1, 0xB0ACBB32);
    OneRight(0xB0ACBB32, BITS, p, 2, 0x77B79C2D);
    OneRight(0x77B79C2D, BITS, p, 3, 0x641C1F5C);
    OneRight(0x641C1F5C, BITS, p, 4, 0x340AC5E3);
    OneRight(0x340AC5E3, BITS, p, 5, 0xF68D2C9E);
    OneRight(0xF68D2C9E, BITS, p, 6, 0xAFFC9660);
    OneRight(0xAFFC9660, BITS, p, 7, 0x651F2550);
    OneRight(0x651F2550, BITS, p, 8, 0x340BC6D9);
    DoneRight(0x340BC6D9, p);
  }

  lemma {:induction false} ModbusRegister()
    ensures ReflectedCrc.StepAll(0x0000FFFF, BITS, ReflectedCrc.MODBUS_POLY) == 0x00004B37
  {
    hide ReflectedCrc.StepAll;
    var p := ReflectedCrc.MODBUS_POLY;
    assert BITS[0..] == BITS && BITS[9..] == [];
    OneRight(0x0000FFFF, BITS, p, 0, 0x0000947E);
    OneRight(0x0000947E, BITS, p, 1, 0x0000F595);
    OneRight(0x0000F595, BITS, p, 2, 0x00007A75);
    OneRight(0x00007A75, BITS, p, 3, 0x000030BA);
    OneRight(0x000030BA, BITS, p, 4, 0x0000A471);
    OneRight(0x0000A471, BITS, p, 5, 0x000032E4);
    OneRight(0x000032E4, BITS, p, 6, 0x00009D73);
    OneRight(0x00009D73, BITS, p, 7, 0x000037DD);
    OneRight(0x000037DD, BITS, p, 8, 0x00004B37);
    DoneRight(0x00004B37, p);
  }

  lemma {:induction false} AnswerRegister()
    ensures ReflectedCrc.StepAll(0x0000FFFF, ANSWER, ReflectedCrc.MODBUS_POLY) == 0x00004338
  {
    hide ReflectedCrc.StepAll;
    var p := ReflectedCrc.MODBUS_POLY;
    assert ANSWER[0..] == ANSWER && ANSWER[5..] == [];
    OneRight(0x0000FFFF, ANSWER, p, 0, 0x0000807E);
    OneRight(0x0000807E, ANSWER, p, 1, 0x00002140);
    OneRight(0x00002140, ANSWER, p, 2, 0x000031A1);
    OneRight(0x000031A1, ANSWER, p, 3, 0x0000B8F0);
    OneRight(0x0000B8F0, ANSWER, p, 4, 0x00004338);
    DoneRight(0x00004338, p);
  }

  // ----- the results

  /** Both uses of util_crc16_ccitt.c and the one of littlefs have the check values of their catalogue entries. */
  lemma {:induction false} CheckValues()
    ensures Crc16.StepAll(0, ToBits(DIGITS)) == 0x31C3 && Crc16.StepAll(0xFFFF, ToBits(DIGITS)) == 0x29B1
    ensures ReflectedCrc.StepAll(0xFFFF_FFFF, ToBits(DIGITS), ReflectedCrc.LFS_POLY) ^ 0xFFFF_FFFF == 0xCBF4_3926
  {
    hide ToBits, Crc16.StepAll, ReflectedCrc.StepAll, ReflectedCrc.LFS_POLY;
    DigitBits();
    XmodemCheck();
    CcittCheck();
    LfsRegister();
  }

  /** The same for the CRC of a YMODEM packet's data, over integer bytes. */
  lemma {:induction false} YmodemCheck()
    ensures Ymodem.Crc(DIGITS) == 0x31C3
  {
    hide Crc16.StepAll, Crc16.Augmented, ToBits;
    DigitBits();
    XmodemCheck();
    Crc16.SerialIsTable(BITS);
  }

  /** calcCRC returns the register with its bytes exchanged: 0x4B37 as 0x374B. */
  lemma {:induction false} ModbusCheck()
    ensures Modbus.Crc(DIGITS) == 0x374B
  {
    hide ReflectedCrc.StepAll, ToBits, ReflectedCrc.MODBUS_POLY;
    DigitBits();
    ModbusRegister();
  }

  lemma {:induction false} AnswerBits()
    ensures ToBits([1, 3, 2, 0, 10]) == ANSWER
  {
  }

  lemma {:induction false} AnswerCrc()
    ensures Modbus.Crc([1, 3, 2, 0, 10]) == 0x3843
  {
    hide ReflectedCrc.StepAll, ToBits, ReflectedCrc.MODBUS_POLY;
    AnswerBits();
    AnswerRegister();
  }

  /** A slave answers a read of one holding register with the value 10. */
  lemma {:induction false} AnswerAccepted()
    ensures Modbus.ReceiveResult(120, [1, 3, 2], [0, 10, 0x38, 0x43]) == 7
    ensures Modbus.Registers([1, 3, 2], [0, 10, 0x38, 0x43], [0]) == [10]
  {
    hide Modbus.Crc;
    AnswerCrc();
    var frame: seq<byte> := [1, 3, 2] + [0, 10, 0x38, 0x43];
    assert frame == [1, 3, 2, 0, 10, 0x38, 0x43] && frame[..5] == [1, 3, 2, 0, 10];
    assert Modbus.CrcMatches(frame);
  }

  function Zeros(n: nat): (s: seq<bv8>)
    ensures |s| == n
  {
    seq(n, _ => 0)
  }

  lemma {:induction false} ZerosLeaveZero(n: nat)
    ensures Crc16.StepAll(0, Zeros(n)) == 0
    decreases n
  {
    hide Crc16.Shift8;
    if n > 0 {
      assert Zeros(n)[1..] == Zeros(n - 1);
      Crc16.ZeroByte();
      assert Crc16.Xor(0, Crc16.High(0)) == 0;
      ZerosLeaveZero(n - 1);
    }
  }

  /** Packet 1 with 127 zeros and a 1, as its sender puts it on the line behind SOH. */
  lemma {:induction false} PacketExample(zeros: seq<byte>)
    requires |zeros| == 127 && forall k :: 0 <= k < 127 ==> zeros[k] == 0
    ensures Ymodem.Framed(1, zeros + [1]) == [1, 254] + zeros + [1, 0x10, 0x21]
  {
    hide Crc16.StepAll, Crc16.Augmented;
    assert ToBits(zeros + [1]) == Zeros(127) + [1];
    Crc16.SerialIsTable(Zeros(127) + [1]);
    Crc16.StepAppend(0, Zeros(127), [1]);
    ZerosLeaveZero(127);
    One(0, [1], 0, 0x1021);
    assert [1 as bv8][0..] == [1] && [1 as bv8][1..] == [];
    Done(0x1021);
  }
}
