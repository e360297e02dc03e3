/** The CRC-16 of polynomial 0x1021: bit-serial in ymodem.c, by table in util_crc16_ccitt.c. */
module Crc16 {
  // ----- bit operations as functions, so that the algebra below can treat them as symbols

  function Xor(a: bv16, b: bv16): bv16 { a ^ b }
  function Shl(a: bv16): bv16 { a << 1 }

  lemma {:induction false} XorAssoc(a: bv16, b: bv16, c: bv16)
    ensures Xor(Xor(a, b), c) == Xor(a, Xor(b, c))
  {
  }

  lemma {:induction false} XorComm(a: bv16, b: bv16)
    ensures Xor(a, b) == Xor(b, a)
  {
  }

  lemma {:induction false} XorZero(a: bv16)
    ensures Xor(a, 0) == a && Xor(0, a) == a && Xor(a, a) == 0
  {
  }

  lemma {:induction false} XorCancel(a: bv16, b: bv16, c: bv16)
    requires Xor(a, b) == Xor(a, c)
    ensures b == c
  {
    hide Xor;
    XorAssoc(a, a, b);
    XorAssoc(a, a, c);
    XorZero(a);
    XorZero(b);
    XorZero(c);
  }

  lemma {:induction false} XorMix(a: bv16, b: bv16, c: bv16, d: bv16)
    ensures Xor(Xor(a, b), Xor(c, d)) == Xor(Xor(a, c), Xor(b, d))
  {
    hide Xor;
    XorAssoc(a, b, Xor(c, d));
    XorAssoc(b, c, d);
    XorComm(b, c);
    XorAssoc(c, b, d);
    XorAssoc(a, c, Xor(b, d));
  }

  // ----- reference: multiplication by x and its powers, modulo the polynomial

  function Feedback(c: bv16): bv16 { if c & 0x8000 != 0 then 0x1021 else 0 }

  function Shift1(c: bv16): bv16 { Xor(Shl(c), Feedback(c)) }

  function ShiftN(c: bv16, n: nat): bv16
    decreases n
  {
    if n == 0 then c else ShiftN(Shift1(c), n - 1)
  }

  function Shift8(c: bv16): bv16 { ShiftN(c, 8) }

  lemma {:induction false} Shift8Is(c: bv16)
    ensures Shift8(c) == Shift1(Shift1(Shift1(Shift1(Shift1(Shift1(Shift1(Shift1(c))))))))
  {
    hide Shift1;
    var c1 := Shift1(c);
    var c2 := Shift1(c1);
    var c3 := Shift1(c2);
    var c4 := Shift1(c3);
    assert ShiftN(c, 8) == ShiftN(c1, 7) == ShiftN(c2, 6) == ShiftN(c3, 5) == ShiftN(c4, 4);
    var c5 := Shift1(c4);
    var c6 := Shift1(c5);
    var c7 := Shift1(c6);
    assert ShiftN(c4, 4) == ShiftN(c5, 3) == ShiftN(c6, 2) == ShiftN(c7, 1) == ShiftN(Shift1(c7), 0);
  }

  lemma {:induction false} FeedbackBits(a: bv16, b: bv16)
    ensures (if (a ^ b) & 0x8000 != 0 then 0x1021 as bv16 else 0) ==
            (if a & 0x8000 != 0 then 0x1021 as bv16 else 0) ^ (if b & 0x8000 != 0 then 0x1021 else 0)
  {
  }

  lemma {:induction false} FeedbackLinear(a: bv16, b: bv16)
    ensures Feedback(Xor(a, b)) == Xor(Feedback(a), Feedback(b))
  {
    FeedbackBits(a, b);
  }

  lemma {:induction false} ShlLinear(a: bv16, b: bv16)
    ensures Shl(Xor(a, b)) == Xor(Shl(a), Shl(b))
  {
  }

  lemma {:induction false} Linear1(a: bv16, b: bv16)
    ensures Shift1(Xor(a, b)) == Xor(Shift1(a), Shift1(b))
  {
    hide Xor, Shl, Feedback;
    FeedbackLinear(a, b);
    ShlLinear(a, b);
    XorMix(Shl(a), Shl(b), Feedback(a), Feedback(b));
  }

  lemma {:induction false} Linear(a: bv16, b: bv16, n: nat)
    ensures ShiftN(Xor(a, b), n) == Xor(ShiftN(a, n), ShiftN(b, n))
    decreases n
  {
    hide Shift1, Xor;
    if n > 0 {
      Linear1(a, b);
      Linear(Shift1(a), Shift1(b), n - 1);
    }
  }

  lemma {:induction false} Linear8(a: bv16, b: bv16)
    ensures Shift8(Xor(a, b)) == Xor(Shift8(a), Shift8(b))
  {
    hide Xor, ShiftN;
    Linear(a, b, 8);
  }

  lemma {:induction false} ShiftZero(n: nat)
    ensures ShiftN(0, n) == 0
    decreases n
  {
    if n > 0 {
      ShiftZero(n - 1);
    }
  }

  lemma {:induction false} LowBit(c: bv16)
    ensures ((c << 1) ^ (if c & 0x8000 != 0 then 0x1021 as bv16 else 0)) & 1 == (c >> 15)
  {
  }

  /** What comes in at the low end is what went out at the high end. */
  lemma {:induction false} LowBitIs(c: bv16)
    ensures Shift1(c) & 1 == c >> 15
  {
    LowBit(c);
  }

  lemma {:induction false} TopBit(c: bv16)
    ensures c >> 15 == 0 || c >> 15 == 1
    ensures c >> 15 == 1 ==> Feedback(c) == 0x1021
    ensures c >> 15 == 0 ==> Feedback(c) == 0
  {
  }

  lemma {:induction false} ShlInjective(a: bv16, b: bv16)
    requires Shl(a) == Shl(b) && a >> 15 == b >> 15
    ensures a == b
  {
  }

  lemma {:induction false} Injective1(a: bv16, b: bv16)
    requires Shift1(a) == Shift1(b)
    ensures a == b
  {
    hide Xor, Shl, Feedback;
    LowBitIs(a);
    LowBitIs(b);
    TopBit(a);
    TopBit(b);
    assert Feedback(a) == Feedback(b);
    XorComm(Shl(a), Feedback(a));
    XorComm(Shl(b), Feedback(b));
    XorCancel(Feedback(a), Shl(a), Shl(b));
    ShlInjective(a, b);
  }

  /** The constant term of the polynomial makes shifting reversible. */
  lemma {:induction false} Injective(a: bv16, b: bv16, n: nat)
    requires ShiftN(a, n) == ShiftN(b, n)
    ensures a == b
    decreases n
  {
    hide Shift1;
    if n > 0 {
      Injective(Shift1(a), Shift1(b), n - 1);
      Injective1(a, b);
    }
  }

  lemma {:induction false} Clear1(c: bv16)
    requires c & 0x8000 == 0
    ensures Shift1(c) == Shl(c)
  {
    hide Xor, Shl;
    XorZero(Shl(c));
  }

  function High(b: bv8): bv16 { (b as bv16) << 8 }

  lemma {:induction false} LowByteBits(b: bv8)
    ensures var c := b as bv16;
            && Shl(c) == c << 1 && Shl(c << 1) == c << 2 && Shl(c << 2) == c << 3 && Shl(c << 3) == c << 4
            && Shl(c << 4) == c << 5 && Shl(c << 5) == c << 6 && Shl(c << 6) == c << 7 && Shl(c << 7) == High(b)
            && c & 0x8000 == 0 && (c << 1) & 0x8000 == 0 && (c << 2) & 0x8000 == 0 && (c << 3) & 0x8000 == 0
            && (c << 4) & 0x8000 == 0 && (c << 5) & 0x8000 == 0 && (c << 6) & 0x8000 == 0 && (c << 7) & 0x8000 == 0
  {
  }

  /** A byte in the low half meets no feedback. */
  lemma {:induction false} LowByte(b: bv8)
    ensures Shift8(b as bv16) == High(b)
  {
    hide Shift1, Shift8, Shl, High;
    var c := b as bv16;
    Shift8Is(c);
    LowByteBits(b);
    Clear1(c);
    Clear1(c << 1);
    Clear1(c << 2);
    Clear1(c << 3);
    Clear1(c << 4);
    Clear1(c << 5);
    Clear1(c << 6);
    Clear1(c << 7);
  }

  // ----- the bit-serial form

  /** Multiply by x^8 and add a byte at the low end. */
  function Update(c: bv16, b: bv8): bv16 { Xor(Shift8(c), b as bv16) }

  /** The bit of the byte that turn n of the do/while loop reads: the top one first. */
  function BitAt(b: bv8, n: nat): bv16
    requires n < 8
  {
    ((b as bv16) >> (7 - n)) & 1
  }

  function Wide(b: bv8): bv16 { b as bv16 }

  /** What n turns have read of the byte. */
  function Read(b: bv8, n: nat): bv16
    requires n <= 8
  {
    Wide(b) >> (8 - n)
  }

  lemma {:induction false} ReadStep(b: bv8, n: nat)
    requires n < 8
    ensures Read(b, n) & 0x8000 == 0 && Xor(Shl(Read(b, n)), BitAt(b, n)) == Read(b, n + 1)
  {
    assert n == 0 || n == 1 || n == 2 || n == 3 || n == 4 || n == 5 || n == 6 || n == 7;
  }

  lemma {:induction false} ShiftSnoc(c: bv16, n: nat)
    ensures ShiftN(c, n + 1) == Shift1(ShiftN(c, n))
    decreases n
  {
    hide Shift1;
    if n > 0 {
      ShiftSnoc(Shift1(c), n - 1);
    }
  }

  /** The low 16 bits of the register after n turns from c. */
  function RegisterAt(c: bv16, b: bv8, n: nat): bv16
    requires n <= 8
  {
    Xor(ShiftN(c, n), Read(b, n))
  }

  lemma {:induction false} RegisterStep(c: bv16, b: bv8, n: nat)
    requires n < 8
    ensures Xor(Shift1(RegisterAt(c, b, n)), BitAt(b, n)) == RegisterAt(c, b, n + 1)
  {
    hide Xor, Shl, Shift1, ShiftN, BitAt, Read;
    var s, r := ShiftN(c, n), Read(b, n);
    Linear1(s, r);
    ShiftSnoc(c, n);
    ReadStep(b, n);
    Clear1(r);
    XorAssoc(Shift1(s), Shl(r), BitAt(b, n));
  }

  lemma {:induction false} RegisterEnds(c: bv16, b: bv8)
    ensures RegisterAt(c, b, 0) == c && RegisterAt(c, b, 8) == Update(c, b)
  {
    hide Xor;
    assert Read(b, 0) == 0 && Read(b, 8) == b as bv16;
    XorZero(c);
  }

  function InputAt(b: bv8, n: nat): bv32
    requires n <= 8
  {
    ((b as bv32) | 0x100) << n
  }

  // The operations of the loop on its 32-bit registers.

  function Twice(x: bv32): bv32 { x << 1 }
  function Plus1(x: bv32): bv32 { x + 1 }
  function Fold(x: bv32): bv32 { x ^ 0x1021 }
  function Carry(x: bv32): bool { x & 0x10000 != 0 }
  function Tapped(input: bv32): bool { input & 0x100 != 0 }

  function Low16(x: bv32): bv16 { (x & 0xFFFF) as bv16 }

  lemma {:induction false} InputShift(b: bv8, n: nat)
    requires n < 8
    ensures Twice(InputAt(b, n)) == InputAt(b, n + 1)
  {
    assert n == 0 || n == 1 || n == 2 || n == 3 || n == 4 || n == 5 || n == 6 || n == 7;
  }

  lemma {:induction false} InputBits(b: bv8, n: nat)
    requires n < 8
    ensures Carry(InputAt(b, n + 1)) <==> n + 1 == 8
    ensures BitAt(b, n) == if Tapped(InputAt(b, n + 1)) then 1 else 0
  {
    assert n == 0 || n == 1 || n == 2 || n == 3 || n == 4 || n == 5 || n == 6 || n == 7;
  }

  /** The marker bit 0x100 reaches 0x10000 after eight turns and not before. */
  lemma {:induction false} InputStep(b: bv8, n: nat)
    requires n < 8
    ensures Twice(InputAt(b, n)) == InputAt(b, n + 1)
    ensures Carry(InputAt(b, n + 1)) <==> n + 1 == 8
    ensures BitAt(b, n) == if Tapped(InputAt(b, n + 1)) then 1 else 0
  {
    hide InputAt, Carry, Tapped, BitAt, Twice;
    InputShift(b, n);
    InputBits(b, n);
  }

  lemma {:induction false} LowShiftBits(x: bv32)
    ensures Low16(x << 1) == Shl(Low16(x))
  {
  }

  lemma {:induction false} LowShift(x: bv32)
    ensures Low16(Twice(x)) == Shl(Low16(x))
  {
    hide Low16, Shl;
    LowShiftBits(x);
  }

  lemma {:induction false} LowOr(x: bv32)
    ensures Low16((x << 1) | 1) == Xor(Shl(Low16(x)), 1)
  {
  }

  lemma {:induction false} PlusIsOr(x: bv32)
    ensures Plus1(Twice(x)) == (x << 1) | 1
  {
  }

  lemma {:induction false} LowShiftOne(x: bv32)
    ensures Low16(Plus1(Twice(x))) == Xor(Shl(Low16(x)), 1)
  {
    hide Low16, Plus1, Twice, Xor, Shl;
    PlusIsOr(x);
    LowOr(x);
  }

  lemma {:induction false} LowFoldBits(x: bv32)
    ensures Low16(x ^ 0x1021) == Xor(Low16(x), 0x1021)
  {
  }

  lemma {:induction false} LowFold(x: bv32)
    ensures Low16(Fold(x)) == Xor(Low16(x), 0x1021)
  {
    hide Low16, Xor;
    LowFoldBits(x);
  }

  lemma {:induction false} CarryTwice(x: bv32)
    ensures Feedback(Low16(x)) == if Carry(Twice(x)) then 0x1021 else 0
  {
  }

  lemma {:induction false} CarryOr(x: bv32)
    ensures Carry(Twice(x)) == (((x << 1) | 1) & 0x10000 != 0)
  {
  }

  lemma {:induction false} CarryPlus(x: bv32)
    ensures Carry(Plus1(Twice(x))) == Carry(Twice(x))
  {
    hide Plus1, Twice;
    PlusIsOr(x);
    CarryOr(x);
  }

  /** What one turn leaves in the register. */
  function Turned(x: bv32, bit: bool): bv32 {
    var d := if bit then Plus1(Twice(x)) else Twice(x);
    if Carry(d) then Fold(d) else d
  }

  /** One turn on the 32-bit register, seen in its low half. */
  lemma {:induction false} RegisterTurn(x: bv32, bit: bool)
    ensures Low16(Turned(x, bit)) == Xor(Shift1(Low16(x)), if bit then 1 else 0)
  {
    hide Xor, Shl, Low16, Plus1, Twice, Carry, Fold, Feedback;
    var l := Low16(x);
    var f := Feedback(l);
    LowShift(x);
    LowShiftOne(x);
    LowFold(Twice(x));
    LowFold(Plus1(Twice(x)));
    CarryTwice(x);
    CarryPlus(x);
    XorZero(Shl(l));
    XorZero(Shift1(l));
    XorAssoc(Shl(l), 1, f);
    XorAssoc(Shl(l), f, 1);
    XorComm(1, f);
    XorZero(Xor(Shl(l), 1));
  }

  lemma {:induction false} Widened(c: bv16, b: bv8)
    ensures Low16(c as bv32) == c && ((b as bv32) | 0x100) == InputAt(b, 0)
  {
  }

  method UpdateCRC16(crcIn: bv16, b: bv8) returns (r: bv16)
    ensures r == Update(crcIn, b)
  {
    hide Xor, Shift1, Update, RegisterAt, InputAt, BitAt, Low16, Tapped, Twice, Carry, Fold, Plus1;
    var crc: bv32 := crcIn as bv32;
    var input: bv32 := (b as bv32) | 0x100;
    Widened(crcIn, b);
    RegisterEnds(crcIn, b);
    ghost var n := 0;
    var more := true;
    while more
      invariant n <= 8 && (more <==> n < 8)
      invariant input == InputAt(b, n) && Low16(crc) == RegisterAt(crcIn, b, n)
      decreases 8 - n
    {
      InputStep(b, n);
      RegisterStep(crcIn, b, n);
      RegisterTurn(crc, Tapped(Twice(input)));
      crc := Twice(crc);
      input := Twice(input);
      if Tapped(input) {
        crc := Plus1(crc);
      }
      if Carry(crc) {
        crc := Fold(crc);
      }
      n := n + 1;
      more := !Carry(input);
    }
    r := Low16(crc);
  }

  function UpdateAll(c: bv16, data: seq<bv8>): bv16
    decreases |data|
  {
    if data == [] then c else UpdateAll(Update(c, data[0]), data[1..])
  }

  /** What Cal_CRC16 computes: the message and two zero bytes through the bit-serial update. */
  function Augmented(data: seq<bv8>): bv16 { Update(Update(UpdateAll(0, data), 0), 0) }

  method CalCRC16(data: seq<bv8>) returns (crc: bv16)
    ensures crc == Augmented(data)
  {
    hide Update;
    crc := 0;
    var i := 0;
    while i < |data|
      invariant i <= |data| && UpdateAll(crc, data[i..]) == UpdateAll(0, data)
    {
      assert data[i..][1..] == data[i + 1..];
      crc := UpdateCRC16(crc, data[i]);
      i := i + 1;
    }
    crc := UpdateCRC16(crc, 0);
    crc := UpdateCRC16(crc, 0);
  }

  // ----- the table

  /** The 256 constants of crc16Table, sixteen to a row. */
  const ROWS: seq<seq<bv16>> := [
    [0x0000, 0x1021, 0x2042, 0x3063, 0x4084, 0x50A5, 0x60C6, 0x70E7, 0x8108, 0x9129, 0xA14A, 0xB16B, 0xC18C, 0xD1AD, 0xE1CE, 0xF1EF],
    [0x1231, 0x0210, 0x3273, 0x2252, 0x52B5, 0x4294, 0x72F7, 0x62D6, 0x9339, 0x8318, 0xB37B, 0xA35A, 0xD3BD, 0xC39C, 0xF3FF, 0xE3DE],
    [0x2462, 0x3443, 0x0420, 0x1401, 0x64E6, 0x74C7, 0x44A4, 0x5485, 0xA56A, 0xB54B, 0x8528, 0x9509, 0xE5EE, 0xF5CF, 0xC5AC, 0xD58D],
    [0x3653, 0x2672, 0x1611, 0x0630, 0x76D7, 0x66F6, 0x5695, 0x46B4, 0xB75B, 0xA77A, 0x9719, 0x8738, 0xF7DF, 0xE7FE, 0xD79D, 0xC7BC],
    [0x48C4, 0x58E5, 0x6886, 0x78A7, 0x0840, 0x1861, 0x2802, 0x3823, 0xC9CC, 0xD9ED, 0xE98E, 0xF9AF, 0x8948, 0x9969, 0xA90A, 0xB92B],
    [0x5AF5, 0x4AD4, 0x7AB7, 0x6A96, 0x1A71, 0x0A50, 0x3A33, 0x2A12, 0xDBFD, 0xCBDC, 0xFBBF, 0xEB9E, 0x9B79, 0x8B58, 0xBB3B, 0xAB1A],
    [0x6CA6, 0x7C87, 0x4CE4, 0x5CC5, 0x2C22, 0x3C03, 0x0C60, 0x1C41, 0xEDAE, 0xFD8F, 0xCDEC, 0xDDCD, 0xAD2A, 0xBD0B, 0x8D68, 0x9D49],
    [0x7E97, 0x6EB6, 0x5ED5, 0x4EF4, 0x3E13, 0x2E32, 0x1E51, 0x0E70, 0xFF9F, 0xEFBE, 0xDFDD, 0xCFFC, 0xBF1B, 0xAF3A, 0x9F59, 0x8F78],
    [0x9188, 0x81A9, 0xB1CA, 0xA1EB, 0xD10C, 0xC12D, 0xF14E, 0xE16F, 0x1080, 0x00A1, 0x30C2, 0x20E3, 0x5004, 0x4025, 0x7046, 0x6067],
    [0x83B9, 0x9398, 0xA3FB, 0xB3DA, 0xC33D, 0xD31C, 0xE37F, 0xF35E, 0x02B1, 0x1290, 0x22F3, 0x32D2, 0x4235, 0x5214, 0x6277, 0x7256],
    [0xB5EA, 0xA5CB, 0x95A8, 0x8589, 0xF56E, 0xE54F, 0xD52C, 0xC50D, 0x34E2, 0x24C3, 0x14A0, 0x0481, 0x7466, 0x6447, 0x5424, 0x4405],
    [0xA7DB, 0xB7FA, 0x8799, 0x97B8, 0xE75F, 0xF77E, 0xC71D, 0xD73C, 0x26D3, 0x36F2, 0x0691, 0x16B0, 0x6657, 0x7676, 0x4615, 0x5634],
    [0xD94C, 0xC96D, 0xF90E, 0xE92F, 0x99C8, 0x89E9, 0xB98A, 0xA9AB, 0x5844, 0x4865, 0x7806, 0x6827, 0x18C0, 0x08E1, 0x3882, 0x28A3],
    [0xCB7D, 0xDB5C, 0xEB3F, 0xFB1E, 0x8BF9, 0x9BD8, 0xABBB, 0xBB9A, 0x4A75, 0x5A54, 0x6A37, 0x7A16, 0x0AF1, 0x1AD0, 0x2AB3, 0x3A92],
    [0xFD2E, 0xED0F, 0xDD6C, 0xCD4D, 0xBDAA, 0xAD8B, 0x9DE8, 0x8DC9, 0x7C26, 0x6C07, 0x5C64, 0x4C45, 0x3CA2, 0x2C83, 0x1CE0, 0x0CC1],
    [0xEF1F, 0xFF3E, 0xCF5D, 0xDF7C, 0xAF9B, 0xBFBA, 0x8FD9, 0x9FF8, 0x6E17, 0x7E36, 0x4E55, 0x5E74, 0x2E93, 0x3EB2, 0x0ED1, 0x1EF0]
  ]

  function EightShifts(c: bv16): bv16 {
    Shift1(Shift1(Shift1(Shift1(Shift1(Shift1(Shift1(Shift1(c))))))))
  }

  function Row(b: bv16): seq<bv16> {
    [EightShifts(b), EightShifts(b + 0x100), EightShifts(b + 0x200), EightShifts(b + 0x300),
     EightShifts(b + 0x400), EightShifts(b + 0x500), EightShifts(b + 0x600), EightShifts(b + 0x700),
     EightShifts(b + 0x800), EightShifts(b + 0x900), EightShifts(b + 0xA00), EightShifts(b + 0xB00),
     EightShifts(b + 0xC00), EightShifts(b + 0xD00), EightShifts(b + 0xE00), EightShifts(b + 0xF00)]
  }

  lemma {:induction false} Row0()
    ensures |ROWS| == 16 && ROWS[0] == Row(0x0000)
  {
  }

  lemma {:induction false} Row1()
    ensures |ROWS| == 16 && ROWS[1] == Row(0x1000)
  {
  }

  lemma {:induction false} Row2()
    ensures |ROWS| == 16 && ROWS[2] == Row(0x2000)
  {
  }

  lemma {:induction false} Row3()
    ensures |ROWS| == 16 && ROWS[3] == Row(0x3000)
  {
  }

  lemma {:induction false} Row4()
    ensures |ROWS| == 16 && ROWS[4] == Row(0x4000)
  {
  }

  lemma {:induction false} Row5()
    ensures |ROWS| == 16 && ROWS[5] == Row(0x5000)
  {
  }

  lemma {:induction false} Row6()
    ensures |ROWS| == 16 && ROWS[6] == Row(0x6000)
  {
  }

  lemma {:induction false} Row7()
    ensures |ROWS| == 16 && ROWS[7] == Row(0x7000)
  {
  }

  lemma {:induction false} Row8()
    ensures |ROWS| == 16 && ROWS[8] == Row(0x8000)
  {
  }

  lemma {:induction false} Row9()
    ensures |ROWS| == 16 && ROWS[9] == Row(0x9000)
  {
  }

  lemma {:induction false} RowA()
    ensures |ROWS| == 16 && ROWS[10] == Row(0xA000)
  {
  }

  lemma {:induction false} RowB()
    ensures |ROWS| == 16 && ROWS[11] == Row(0xB000)
  {
  }

  lemma {:induction false} RowC()
    ensures |ROWS| == 16 && ROWS[12] == Row(0xC000)
  {
  }

  lemma {:induction false} RowD()
    ensures |ROWS| == 16 && ROWS[13] == Row(0xD000)
  {
  }

  lemma {:induction false} RowE()
    ensures |ROWS| == 16 && ROWS[14] == Row(0xE000)
  {
  }

  lemma {:induction false} RowF()
    ensures |ROWS| == 16 && ROWS[15] == Row(0xF000)
  {
  }

  lemma {:induction false} RowIs(hi: bv8)
    requires hi < 16
    ensures |ROWS| == 16 && ROWS[hi as int] == Row((hi as bv16) << 12)
  {
    hide Row;
    Row0();
    Row1();
    Row2();
    Row3();
    Row4();
    Row5();
    Row6();
    Row7();
    Row8();
    Row9();
    RowA();
    RowB();
    RowC();
    RowD();
    RowE();
    RowF();
    assert hi == 0 || hi == 1 || hi == 2 || hi == 3 || hi == 4 || hi == 5 || hi == 6 || hi == 7
        || hi == 8 || hi == 9 || hi == 10 || hi == 11 || hi == 12 || hi == 13 || hi == 14 || hi == 15;
  }

  /** Entry `i` of the flat table. */
  function Entry(i: bv8): bv16 {
    RowIs(i >> 4);
    ROWS[(i >> 4) as int][(i & 15) as int]
  }

  lemma {:induction false} EightShiftsIs(c: bv16)
    ensures EightShifts(c) == Shift8(c)
  {
    hide Shift1, Shift8;
    Shift8Is(c);
  }

  lemma {:induction false} ColumnIs(b: bv16, lo: bv8)
    requires lo < 16
    ensures Row(b)[lo as int] == Shift8(b + ((lo as bv16) << 8))
  {
    hide Shift8, EightShifts;
    EightShiftsIs(b + ((lo as bv16) << 8));
    assert lo == 0 || lo == 1 || lo == 2 || lo == 3 || lo == 4 || lo == 5 || lo == 6 || lo == 7
        || lo == 8 || lo == 9 || lo == 10 || lo == 11 || lo == 12 || lo == 13 || lo == 14 || lo == 15;
  }

  /** Every entry of the table is the byte in the high half, multiplied by x^8. */
  lemma {:induction false} EntryIs(i: bv8)
    ensures Entry(i) == Shift8(High(i))
  {
    hide Shift8, Row;
    RowIs(i >> 4);
    ColumnIs(((i >> 4) as bv16) << 12, i & 15);
    assert (((i >> 4) as bv16) << 12) + (((i & 15) as bv16) << 8) == (i as bv16) << 8;
  }

  /** Add a byte at the high end and multiply by x^8. */
  function Step(c: bv16, b: bv8): bv16 { Shift8(Xor(c, High(b))) }

  function HighHalf(c: bv16): bv8 { (c >> 8) as bv8 }
  function Index(c: bv16, b: bv8): bv8 { HighHalf(c) ^ b }
  function LowHalf(c: bv16): bv8 { (c & 0xFF) as bv8 }

  lemma {:induction false} Halves(c: bv16)
    ensures Xor(Wide(LowHalf(c)), High(HighHalf(c))) == c
  {
  }

  lemma {:induction false} HighXor(a: bv8, b: bv8)
    ensures Xor(High(a), High(b)) == High(a ^ b)
  {
  }

  lemma {:induction false} StepIs(c: bv16, b: bv8)
    ensures Xor(c, High(b)) == Xor(Wide(LowHalf(c)), High(Index(c, b)))
  {
    hide Xor, High, LowHalf, Wide, HighHalf;
    Halves(c);
    HighXor(HighHalf(c), b);
    XorAssoc(Wide(LowHalf(c)), High(HighHalf(c)), High(b));
  }

  lemma {:induction false} ShiftIs(c: bv16)
    ensures c << 8 == High(LowHalf(c))
  {
  }

  lemma {:induction false} TableStep(c: bv16, b: bv8)
    ensures Xor(c << 8, Entry(Index(c, b))) == Step(c, b)
  {
    hide Xor, Shift8, Entry, High, Index, LowHalf;
    StepIs(c, b);
    ShiftIs(c);
    EntryIs(Index(c, b));
    LowByte(LowHalf(c));
    Linear8(LowHalf(c) as bv16, High(Index(c, b)));
  }

  function StepAll(c: bv16, data: seq<bv8>): bv16
    decreases |data|
  {
    if data == [] then c else StepAll(Step(c, data[0]), data[1..])
  }

  /** The table-driven loop: Cal_CRC16_xmodem starts from 0, crc16_ccitt_table from 0xFFFF. */
  method TableCRC(init: bv16, data: seq<bv8>) returns (crc: bv16)
    requires |data| < 0x10000
    ensures crc == StepAll(init, data)
  {
    hide Step, Entry, Xor, Index;
    crc := init;
    var i := 0;
    while i < |data|
      invariant i <= |data| && StepAll(crc, data[i..]) == StepAll(init, data)
    {
      assert data[i..][1..] == data[i + 1..];
      var index := Index(crc, data[i]);
      TableStep(crc, data[i]);
      crc := Xor(crc << 8, Entry(index));
      i := i + 1;
    }
  }

  // ----- main results

  /** Two zero bytes at the low end are one byte position at the high end. */
  lemma {:induction false} AugmentedStep(u: bv16, t: bv16, b: bv8)
    requires t == Shift8(Shift8(u))
    ensures Step(t, b) == Shift8(Shift8(Update(u, b)))
  {
    hide Xor, Shift8, High;
    var w := b as bv16;
    Linear8(Shift8(u), w);
    LowByte(b);
    assert Shift8(Update(u, b)) == Xor(t, High(b));
  }

  lemma {:induction false} AugmentedAll(u: bv16, t: bv16, data: seq<bv8>)
    requires t == Shift8(Shift8(u))
    ensures StepAll(t, data) == Shift8(Shift8(UpdateAll(u, data)))
    decreases |data|
  {
    hide Shift8, Update, Step;
    if data != [] {
      AugmentedStep(u, t, data[0]);
      AugmentedAll(Update(u, data[0]), Step(t, data[0]), data[1..]);
    }
  }

  lemma {:induction false} ZeroByte()
    ensures Shift8(0) == 0
  {
    ShiftZero(8);
  }

  /** The bit-serial CRC with its two zero bytes is the table-driven CRC, for every message. */
  lemma {:induction false} SerialIsTable(data: seq<bv8>)
    ensures Augmented(data) == StepAll(0, data)
  {
    hide Shift8, StepAll, UpdateAll, Xor;
    ShiftZero(8);
    assert Shift8(0) == 0 by { ZeroByte(); }
    AugmentedAll(0, 0, data);
    var u := UpdateAll(0, data);
    XorZero(Shift8(u));
    XorZero(Shift8(Shift8(u)));
  }

  lemma {:induction false} StepAppend(c: bv16, a: seq<bv8>, b: seq<bv8>)
    ensures StepAll(c, a + b) == StepAll(StepAll(c, a), b)
    decreases |a|
  {
    hide Step;
    if a == [] {
      assert a + b == b;
    } else {
      assert (a + b)[1..] == a[1..] + b;
      StepAppend(Step(c, a[0]), a[1..], b);
    }
  }

  function Word(hi: bv8, lo: bv8): bv16 { Xor(High(hi), lo as bv16) }

  /** Two bytes go in as one 16-bit word. */
  lemma {:induction false} TwoSteps(c: bv16, a: bv8, b: bv8)
    ensures StepAll(c, [a, b]) == Shift8(Shift8(Xor(c, Word(a, b))))
  {
    hide Xor, Shift8, High;
    var w := b as bv16;
    assert [a, b][1..] == [b] && [b][1..] == [];
    assert StepAll(c, [a, b]) == StepAll(Step(c, a), [b]) == Step(Step(c, a), b);
    LowByte(b);
    Linear8(Xor(c, High(a)), w);
    XorAssoc(c, High(a), w);
  }

  lemma {:induction false} WordBits(c: bv16)
    ensures Word((c >> 8) as bv8, (c & 0xFF) as bv8) == c
  {
  }

  /** A message followed by its own CRC, high byte first, leaves zero; with any start value. */
  lemma {:induction false} Residue(init: bv16, data: seq<bv8>)
    ensures var c := StepAll(init, data); StepAll(init, data + [(c >> 8) as bv8, (c & 0xFF) as bv8]) == 0
  {
    hide Xor, Shift8, StepAll, Word;
    var c := StepAll(init, data);
    var a, b := (c >> 8) as bv8, (c & 0xFF) as bv8;
    StepAppend(init, data, [a, b]);
    TwoSteps(c, a, b);
    WordBits(c);
    XorZero(c);
    ZeroByte();
  }

  // ----- error bursts, bit by bit

  function BitWord(bit: bool): bv16 { if bit then 0x8000 else 0 }

  function BitStep(c: bv16, bit: bool): bv16 { Shift1(Xor(c, BitWord(bit))) }

  /** The CRC as it takes a message bit by bit, most significant bit of each byte first. */
  function BitAll(c: bv16, bits: seq<bool>): bv16
    decreases |bits|
  {
    if bits == [] then c else BitAll(BitStep(c, bits[0]), bits[1..])
  }

  function ByteBits(b: bv8): seq<bool> {
    [b & 0x80 != 0, b & 0x40 != 0, b & 0x20 != 0, b & 0x10 != 0, b & 8 != 0, b & 4 != 0, b & 2 != 0, b & 1 != 0]
  }

  function Bits(data: seq<bv8>): seq<bool> {
    if data == [] then [] else ByteBits(data[0]) + Bits(data[1..])
  }

  function Shr(w: bv16): bv16 { w >> 1 }

  /** Up to 16 bits, aligned at the top of a word. */
  function TopWord(bits: seq<bool>): bv16
    decreases |bits|
  {
    if bits == [] then 0 else Xor(BitWord(bits[0]), Shr(TopWord(bits[1..])))
  }

  function BitOf(w: bv16, j: nat): bv16
    requires j < 16
  {
    (w >> j) & 1
  }

  lemma {:induction false} BitBelow(bit: bool, w: bv16, j: nat)
    requires j < 15
    ensures BitOf(Xor(BitWord(bit), Shr(w)), j) == BitOf(w, j + 1)
  {
    assert j == 0 || j == 1 || j == 2 || j == 3 || j == 4 || j == 5 || j == 6 || j == 7
        || j == 8 || j == 9 || j == 10 || j == 11 || j == 12 || j == 13 || j == 14;
  }

  lemma {:induction false} ZeroBit(j: nat)
    requires j < 16
    ensures BitOf(0, j) == 0
  {
  }

  /** The word holds nothing below its top |bits| bits. */
  lemma {:induction false} LowClear(bits: seq<bool>, j: nat)
    requires |bits| + j <= 15
    ensures BitOf(TopWord(bits), j) == 0
    decreases |bits|
  {
    hide Xor, BitWord, BitOf, Shr;
    if bits == [] {
      ZeroBit(j);
    } else {
      BitBelow(bits[0], TopWord(bits[1..]), j);
      LowClear(bits[1..], j + 1);
    }
  }

  lemma {:induction false} Halved(w: bv16)
    requires BitOf(w, 0) == 0
    ensures Shl(Shr(w)) == w
  {
  }

  lemma {:induction false} ShrTop(w: bv16)
    ensures Shr(w) & 0x8000 == 0
  {
  }

  /** The rest of the word, one place down, meets no feedback on its way up. */
  lemma {:induction false} WordIn(c: bv16, b: bv16, w: bv16)
    requires BitOf(w, 0) == 0
    ensures Xor(Shift1(Xor(c, b)), w) == Shift1(Xor(c, Xor(b, Shr(w))))
  {
    hide Xor, Shift1, Shl, Shr, BitOf;
    Halved(w);
    ShrTop(w);
    Clear1(Shr(w));
    Linear1(Xor(c, b), Shr(w));
    XorAssoc(c, b, Shr(w));
  }

  /** Up to 16 bits go in as one word, shifted out together. */
  lemma {:induction false} BitsTogether(c: bv16, bits: seq<bool>)
    requires |bits| <= 16
    ensures BitAll(c, bits) == ShiftN(Xor(c, TopWord(bits)), |bits|)
    decreases |bits|
  {
    hide Xor, BitWord, Shift1, Shl, Shr, BitOf;
    if bits == [] {
      XorZero(c);
    } else {
      var rest := bits[1..];
      LowClear(rest, 0);
      BitsTogether(BitStep(c, bits[0]), rest);
      WordIn(c, BitWord(bits[0]), TopWord(rest));
    }
  }

  lemma {:induction false} SplitTop(p: bool, q: bool, v: bv16, w: bv16)
    requires Xor(BitWord(p), Shr(v)) == Xor(BitWord(q), Shr(w))
    ensures p == q && Shr(v) == Shr(w)
  {
  }

  lemma {:induction false} TopWordInjective(a: seq<bool>, b: seq<bool>)
    requires |a| == |b| <= 16 && TopWord(a) == TopWord(b)
    ensures a == b
    decreases |a|
  {
    hide Xor, BitWord, Shl, Shr, BitOf;
    if a != [] {
      var v, w := TopWord(a[1..]), TopWord(b[1..]);
      LowClear(a[1..], 0);
      LowClear(b[1..], 0);
      Halved(v);
      Halved(w);
      SplitTop(a[0], b[0], v, w);
      TopWordInjective(a[1..], b[1..]);
      assert a == [a[0]] + a[1..] && b == [b[0]] + b[1..];
    }
  }

  lemma {:induction false} EightBitWord(b: bv8)
    ensures Xor(BitWord(b & 0x80 != 0), Shr(Xor(BitWord(b & 0x40 != 0), Shr(Xor(BitWord(b & 0x20 != 0),
            Shr(Xor(BitWord(b & 0x10 != 0), Shr(Xor(BitWord(b & 8 != 0), Shr(Xor(BitWord(b & 4 != 0),
            Shr(Xor(BitWord(b & 2 != 0), Shr(BitWord(b & 1 != 0))))))))))))))) == High(b)
  {
  }

  lemma {:induction false} TopWordAt(s: seq<bool>, k: nat)
    requires k < |s|
    ensures TopWord(s[k..]) == Xor(BitWord(s[k]), Shr(TopWord(s[k + 1..])))
  {
    hide Xor, BitWord, Shr;
    assert s[k..][1..] == s[k + 1..];
  }

  lemma {:induction false} TopWordOne(bit: bool)
    ensures TopWord([bit]) == BitWord(bit)
  {
    hide BitWord;
    assert TopWord([bit][1..]) == 0;
    XorZero(BitWord(bit));
    assert Shr(0) == 0;
  }

  lemma {:induction false} TopWordEight(s: seq<bool>)
    requires |s| == 8
    ensures TopWord(s) == Xor(BitWord(s[0]), Shr(Xor(BitWord(s[1]), Shr(Xor(BitWord(s[2]),
            Shr(Xor(BitWord(s[3]), Shr(Xor(BitWord(s[4]), Shr(Xor(BitWord(s[5]),
            Shr(Xor(BitWord(s[6]), Shr(BitWord(s[7])))))))))))))))
  {
    hide Xor, BitWord, Shr, TopWord;
    TopWordAt(s, 0);
    TopWordAt(s, 1);
    TopWordAt(s, 2);
    TopWordAt(s, 3);
    TopWordAt(s, 4);
    TopWordAt(s, 5);
    TopWordAt(s, 6);
    TopWordOne(s[7]);
    assert s[7..] == [s[7]] && s[0..] == s;
  }

  lemma {:induction false} ByteWord(b: bv8)
    ensures TopWord(ByteBits(b)) == High(b)
  {
    hide Xor, BitWord, Shr, High, TopWord;
    var s := ByteBits(b);
    EightBitWord(b);
    TopWordEight(s);
  }

  lemma {:induction false} BitAppend(c: bv16, a: seq<bool>, b: seq<bool>)
    ensures BitAll(c, a + b) == BitAll(BitAll(c, a), b)
    decreases |a|
  {
    hide BitStep;
    if a == [] {
      assert a + b == b;
    } else {
      assert (a + b)[1..] == a[1..] + b;
      BitAppend(BitStep(c, a[0]), a[1..], b);
    }
  }

  lemma {:induction false} EightBits(b: bv8)
    ensures |ByteBits(b)| == 8
  {
  }

  /** Taking a message byte by byte or bit by bit is the same. */
  lemma {:induction false} BytesAreBits(c: bv16, data: seq<bv8>)
    ensures StepAll(c, data) == BitAll(c, Bits(data))
    decreases |data|
  {
    hide Xor, High, ShiftN, TopWord, ByteBits, BitStep;
    if data != [] {
      var s := ByteBits(data[0]);
      BitAppend(c, s, Bits(data[1..]));
      assert |s| == 8 by { EightBits(data[0]); }
      BitsTogether(c, s);
      ByteWord(data[0]);
      BytesAreBits(Step(c, data[0]), data[1..]);
    }
  }

  lemma {:induction false} BitInjective(a: bv16, b: bv16, bits: seq<bool>)
    requires BitAll(a, bits) == BitAll(b, bits)
    ensures a == b
    decreases |bits|
  {
    hide Xor, Shift1, BitWord;
    if bits != [] {
      BitInjective(BitStep(a, bits[0]), BitStep(b, bits[0]), bits[1..]);
      var w := BitWord(bits[0]);
      Injective1(Xor(a, w), Xor(b, w));
      XorComm(a, w);
      XorComm(b, w);
      XorCancel(w, a, b);
    }
  }

  /**
   * Two messages of any length whose bits differ only within 16 consecutive bits, wherever those
   * stand and whatever surrounds them, have different CRCs.
   */
  lemma {:induction false} BurstDetected(init: bv16, m: seq<bv8>, n: seq<bv8>, p: seq<bool>, v: seq<bool>, w: seq<bool>, q: seq<bool>)
    requires Bits(m) == p + v + q && Bits(n) == p + w + q && |v| == |w| <= 16 && v != w
    ensures StepAll(init, m) != StepAll(init, n)
  {
    hide BitAll, StepAll, Bits, Xor, TopWord, ShiftN;
    BytesAreBits(init, m);
    BytesAreBits(init, n);
    BitAppend(init, p + v, q);
    BitAppend(init, p, v);
    BitAppend(init, p + w, q);
    BitAppend(init, p, w);
    var c := BitAll(init, p);
    if StepAll(init, m) == StepAll(init, n) {
      BitInjective(BitAll(c, v), BitAll(c, w), q);
      BitsTogether(c, v);
      BitsTogether(c, w);
      Injective(Xor(c, TopWord(v)), Xor(c, TopWord(w)), |v|);
      XorCancel(c, TopWord(v), TopWord(w));
      TopWordInjective(v, w);
    }
  }

  lemma {:induction false} TwoBytes(a: bv8, b: bv8)
    ensures Bits([a, b]) == ByteBits(a) + ByteBits(b) && |ByteBits(a)| == 8 && |ByteBits(b)| == 8
  {
    hide ByteBits;
    EightBits(a);
    EightBits(b);
    assert [a, b][1..] == [b] && [b][1..] == [];
    assert Bits([b]) == ByteBits(b) + Bits([]) == ByteBits(b);
  }

  lemma {:induction false} ByteBitsInjective(a: bv8, b: bv8)
    requires ByteBits(a) == ByteBits(b)
    ensures a == b
  {
    hide TopWord;
    ByteWord(a);
    ByteWord(b);
    assert (a as bv16) << 8 == (b as bv16) << 8 ==> a == b;
  }

  lemma {:induction false} BitsAppend(a: seq<bv8>, b: seq<bv8>)
    ensures Bits(a + b) == Bits(a) + Bits(b)
    decreases |a|
  {
    hide ByteBits;
    if a == [] {
      assert a + b == b;
    } else {
      assert (a + b)[1..] == a[1..] + b;
      BitsAppend(a[1..], b);
    }
  }

  /** In particular when they differ only within two adjacent bytes. */
  lemma {:induction false} TwoBytesDetected(init: bv16, p: seq<bv8>, a: bv8, b: bv8, c: bv8, d: bv8, q: seq<bv8>)
    requires a != c || b != d
    ensures StepAll(init, p + [a, b] + q) != StepAll(init, p + [c, d] + q)
  {
    hide ByteBits, StepAll;
    BitsAppend(p + [a, b], q);
    BitsAppend(p, [a, b]);
    BitsAppend(p + [c, d], q);
    BitsAppend(p, [c, d]);
    TwoBytes(a, b);
    TwoBytes(c, d);
    if ByteBits(a) + ByteBits(b) == ByteBits(c) + ByteBits(d) {
      assert (ByteBits(a) + ByteBits(b))[..8] == ByteBits(a) && (ByteBits(c) + ByteBits(d))[..8] == ByteBits(c);
      assert (ByteBits(a) + ByteBits(b))[8..] == ByteBits(b) && (ByteBits(c) + ByteBits(d))[8..] == ByteBits(d);
      ByteBitsInjective(a, c);
      ByteBitsInjective(b, d);
      assert false;
    }
    BurstDetected(init, p + [a, b] + q, p + [c, d] + q, Bits(p), ByteBits(a) + ByteBits(b), ByteBits(c) + ByteBits(d), Bits(q));
  }
}
