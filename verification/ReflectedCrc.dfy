/**
 * The two CRCs that shift to the right: the 16-bit one of Modbus and the 32-bit one of littlefs.
 *
 * modbus_master.c keeps its register in an unsigned int and returns it with the bytes swapped;
 * lfs_util.c takes four bits at a time through a table of sixteen words.
 */
module ReflectedCrc {

  // ----- bit operations as functions, so that the algebra below can treat them as symbols

  function Xor(a: bv32, b: bv32): bv32 { a ^ b }
  function Shr(a: bv32): bv32 { a >> 1 }
  function Odd(a: bv32): bool { a & 1 != 0 }
  function Wide(b: bv8): bv32 { b as bv32 }

  /** The byte with `n` zero bits below it. */
  function Place(b: bv8, n: nat): bv32
    requires n <= 24
  {
    (b as bv32) << n
  }

  lemma {:induction false} XorAssoc(a: bv32, b: bv32, c: bv32)
    ensures Xor(Xor(a, b), c) == Xor(a, Xor(b, c))
  {
  }

  lemma {:induction false} XorComm(a: bv32, b: bv32)
    ensures Xor(a, b) == Xor(b, a)
  {
  }

  lemma {:induction false} XorZero(a: bv32)
    ensures Xor(a, 0) == a && Xor(0, a) == a && Xor(a, a) == 0
  {
  }

  lemma {:induction false} XorCancel(a: bv32, b: bv32, c: bv32)
    requires Xor(a, b) == Xor(a, c)
    ensures b == c
  {
    hide Xor;
    XorAssoc(a, a, b);
    XorAssoc(a, a, c);
    XorZero(a);
    XorZero(b);
    XorZero(c);
  }

  lemma {:induction false} XorMix(a: bv32, b: bv32, c: bv32, d: bv32)
    ensures Xor(Xor(a, b), Xor(c, d)) == Xor(Xor(a, c), Xor(b, d))
  {
    hide Xor;
    XorAssoc(a, b, Xor(c, d));
    XorAssoc(b, c, d);
    XorComm(b, c);
    XorAssoc(c, b, d);
    XorAssoc(a, c, Xor(b, d));
  }

  lemma {:induction false} OddXor(a: bv32, b: bv32)
    ensures Odd(Xor(a, b)) == (Odd(a) != Odd(b))
  {
  }

  lemma {:induction false} ShrXor(a: bv32, b: bv32)
    ensures Shr(Xor(a, b)) == Xor(Shr(a), Shr(b))
  {
  }

  // ----- reference: one bit at a time, to the right

  function Feedback(c: bv32, poly: bv32): bv32 { if Odd(c) then poly else 0 }

  function Right1(c: bv32, poly: bv32): bv32 { Xor(Shr(c), Feedback(c, poly)) }

  function RightN(c: bv32, poly: bv32, n: nat): bv32
    decreases n
  {
    if n == 0 then c else RightN(Right1(c, poly), poly, n - 1)
  }

  lemma {:induction false} Linear1(a: bv32, b: bv32, poly: bv32)
    ensures Right1(Xor(a, b), poly) == Xor(Right1(a, poly), Right1(b, poly))
  {
    hide Xor, Shr, Odd;
    OddXor(a, b);
    ShrXor(a, b);
    XorZero(poly);
    XorZero(0);
    XorMix(Shr(a), Shr(b), Feedback(a, poly), Feedback(b, poly));
  }

  lemma {:induction false} Linear(a: bv32, b: bv32, poly: bv32, n: nat)
    ensures RightN(Xor(a, b), poly, n) == Xor(RightN(a, poly, n), RightN(b, poly, n))
    decreases n
  {
    hide Right1, Xor;
    if n > 0 {
      Linear1(a, b, poly);
      Linear(Right1(a, poly), Right1(b, poly), poly, n - 1);
    }
  }

  lemma {:induction false} RightAdd(c: bv32, poly: bv32, m: nat, n: nat)
    ensures RightN(RightN(c, poly, m), poly, n) == RightN(c, poly, m + n)
    decreases m
  {
    hide Right1;
    if m > 0 {
      RightAdd(Right1(c, poly), poly, m - 1, n);
    }
  }

  lemma {:induction false} RightZero(poly: bv32, n: nat)
    ensures RightN(0, poly, n) == 0
    decreases n
  {
    hide Xor;
    if n > 0 {
      XorZero(0);
      assert Shr(0) == 0 && !Odd(0);
      RightZero(poly, n - 1);
    }
  }

  lemma {:induction false} PlaceShr(b: bv8, n: nat)
    requires 0 < n <= 24
    ensures Shr(Place(b, n)) == Place(b, n - 1)
  {
    assert n == 1 || n == 2 || n == 3 || n == 4 || n == 5 || n == 6 || n == 7 || n == 8
        || n == 9 || n == 10 || n == 11 || n == 12 || n == 13 || n == 14 || n == 15 || n == 16
        || n == 17 || n == 18 || n == 19 || n == 20 || n == 21 || n == 22 || n == 23 || n == 24;
  }

  lemma {:induction false} PlaceEven(b: bv8, n: nat)
    requires 0 < n <= 24
    ensures !Odd(Place(b, n))
  {
    assert n == 1 || n == 2 || n == 3 || n == 4 || n == 5 || n == 6 || n == 7 || n == 8
        || n == 9 || n == 10 || n == 11 || n == 12 || n == 13 || n == 14 || n == 15 || n == 16
        || n == 17 || n == 18 || n == 19 || n == 20 || n == 21 || n == 22 || n == 23 || n == 24;
  }

  /** A byte with zeros below it comes down through them without feedback. */
  lemma {:induction false} Fall(b: bv8, n: nat, k: nat, poly: bv32)
    requires k <= n <= 24
    ensures RightN(Place(b, n), poly, k) == Place(b, n - k)
    decreases k
  {
    hide Xor, Shr, Odd, Place;
    if k > 0 {
      PlaceShr(b, n);
      PlaceEven(b, n);
      XorZero(Shr(Place(b, n)));
      Fall(b, n - 1, k - 1, poly);
    }
  }

  lemma {:induction false} Ground(b: bv8)
    ensures Place(b, 0) == Wide(b)
  {
  }

  /** Add a byte at the low end and shift it through. */
  function Step(c: bv32, b: bv8, poly: bv32): bv32 { RightN(Xor(c, Wide(b)), poly, 8) }

  function StepAll(c: bv32, data: seq<bv8>, poly: bv32): bv32
    decreases |data|
  {
    if data == [] then c else StepAll(Step(c, data[0], poly), data[1..], poly)
  }

  lemma {:induction false} StepAppend(c: bv32, a: seq<bv8>, b: seq<bv8>, poly: bv32)
    ensures StepAll(c, a + b, poly) == StepAll(StepAll(c, a, poly), b, poly)
    decreases |a|
  {
    hide Step;
    if a == [] {
      assert a + b == b;
    } else {
      assert (a + b)[1..] == a[1..] + b;
      StepAppend(Step(c, a[0], poly), a[1..], b, poly);
    }
  }

  /** Two bytes as one word, the first one at the low end. */
  function Pair(a: bv8, b: bv8): bv32 { Xor(Wide(a), Place(b, 8)) }

  lemma {:induction false} TwoSteps(c: bv32, a: bv8, b: bv8, poly: bv32)
    ensures StepAll(c, [a, b], poly) == RightN(Xor(c, Pair(a, b)), poly, 16)
  {
    hide Xor, Wide, Place, RightN;
    assert [a, b][1..] == [b] && [b][1..] == [];
    assert StepAll(c, [a, b], poly) == StepAll(Step(c, a, poly), [b], poly) == Step(Step(c, a, poly), b, poly);
    var x := Xor(c, Wide(a));
    Fall(b, 8, 8, poly);
    Ground(b);
    Linear(x, Place(b, 8), poly, 8);
    RightAdd(Xor(x, Place(b, 8)), poly, 8, 8);
    XorAssoc(c, Wide(a), Place(b, 8));
  }

  // ----- Modbus

  const MODBUS_POLY: bv32 := 0xA001

  /** The register stays within sixteen bits. */
  predicate Fits(c: bv32) { c & 0xFFFF_0000 == 0 }

  lemma {:induction false} FitsXor(a: bv32, b: bv32)
    requires Fits(a) && Fits(b)
    ensures Fits(Xor(a, b))
  {
  }

  lemma {:induction false} FitsWide(b: bv8)
    ensures Fits(Wide(b)) && Fits(MODBUS_POLY) && Fits(0) && Fits(0xFFFF)
  {
  }

  lemma {:induction false} FitsPlace(b: bv8)
    ensures Fits(Place(b, 8))
  {
  }

  lemma {:induction false} FitsShr(a: bv32)
    requires Fits(a)
    ensures Fits(Shr(a)) && Shr(a) & 0x8000 == 0
  {
  }

  lemma {:induction false} FitsRight(c: bv32, n: nat)
    requires Fits(c)
    ensures Fits(RightN(c, MODBUS_POLY, n))
    decreases n
  {
    hide Xor, Shr, Odd, Fits, MODBUS_POLY;
    if n > 0 {
      FitsShr(c);
      FitsWide(0);
      FitsXor(Shr(c), Feedback(c, MODBUS_POLY));
      FitsRight(Right1(c, MODBUS_POLY), n - 1);
    }
  }

  lemma {:induction false} FitsAll(c: bv32, data: seq<bv8>)
    requires Fits(c)
    ensures Fits(StepAll(c, data, MODBUS_POLY))
    decreases |data|
  {
    hide Xor, Wide, Fits, RightN, MODBUS_POLY;
    if data != [] {
      FitsWide(data[0]);
      FitsXor(c, Wide(data[0]));
      FitsRight(Xor(c, Wide(data[0])), 8);
      FitsAll(Step(c, data[0], MODBUS_POLY), data[1..]);
    }
  }

  lemma {:induction false} FedBack(x: bv32)
    requires x & 0x8000 == 0
    ensures Xor(x, MODBUS_POLY) & 0x8000 != 0
  {
  }

  lemma {:induction false} SameHalf(a: bv32, b: bv32)
    requires Shr(a) == Shr(b) && Odd(a) == Odd(b)
    ensures a == b
  {
  }

  lemma {:induction false} Injective1(a: bv32, b: bv32)
    requires Fits(a) && Fits(b) && Right1(a, MODBUS_POLY) == Right1(b, MODBUS_POLY)
    ensures a == b
  {
    hide Xor, Shr, Odd, Fits, MODBUS_POLY;
    FitsShr(a);
    FitsShr(b);
    FedBack(Shr(a));
    FedBack(Shr(b));
    XorZero(Shr(a));
    XorZero(Shr(b));
    assert Odd(a) == Odd(b);
    XorComm(Shr(a), MODBUS_POLY);
    XorComm(Shr(b), MODBUS_POLY);
    if Odd(a) {
      XorCancel(MODBUS_POLY, Shr(a), Shr(b));
    }
    SameHalf(a, b);
  }

  lemma {:induction false} Injective(a: bv32, b: bv32, n: nat)
    requires Fits(a) && Fits(b) && RightN(a, MODBUS_POLY, n) == RightN(b, MODBUS_POLY, n)
    ensures a == b
    decreases n
  {
    hide Right1, Fits, MODBUS_POLY;
    if n > 0 {
      FitsRight(a, 1);
      FitsRight(b, 1);
      assert RightN(a, MODBUS_POLY, 1) == RightN(Right1(a, MODBUS_POLY), MODBUS_POLY, 0);
      assert RightN(b, MODBUS_POLY, 1) == RightN(Right1(b, MODBUS_POLY), MODBUS_POLY, 0);
      Injective(Right1(a, MODBUS_POLY), Right1(b, MODBUS_POLY), n - 1);
      Injective1(a, b);
    }
  }

  lemma {:induction false} StepInjective(a: bv32, b: bv32, data: seq<bv8>)
    requires Fits(a) && Fits(b) && StepAll(a, data, MODBUS_POLY) == StepAll(b, data, MODBUS_POLY)
    ensures a == b
    decreases |data|
  {
    hide Xor, Wide, Fits, RightN, MODBUS_POLY;
    if data != [] {
      var w := Wide(data[0]);
      FitsWide(data[0]);
      FitsXor(a, w);
      FitsXor(b, w);
      FitsRight(Xor(a, w), 8);
      FitsRight(Xor(b, w), 8);
      StepInjective(Step(a, data[0], MODBUS_POLY), Step(b, data[0], MODBUS_POLY), data[1..]);
      Injective(Xor(a, w), Xor(b, w), 8);
      XorComm(a, w);
      XorComm(b, w);
      XorCancel(w, a, b);
    }
  }

  /** The bytes of a 16-bit register exchanged, as calcCRC returns them. */
  function Swapped(c: bv32): bv32 { ((c << 8) | (c >> 8)) & 0xFFFF }

  /** What calcCRC returns. */
  function ModbusCRC(data: seq<bv8>): bv32 { Swapped(StepAll(0xFFFF, data, MODBUS_POLY)) }

  function Shifted(c: bv32, poly: bv32): bv32 {
    var t := Shr(c);
    if Odd(c) then Xor(t, poly) else t
  }

  lemma {:induction false} ShiftedIs(c: bv32, poly: bv32)
    ensures Shifted(c, poly) == Right1(c, poly)
  {
    hide Xor, Shr, Odd;
    XorZero(Shr(c));
  }

  method CalcCRC(buffer: seq<bv8>) returns (r: bv32)
    ensures r == ModbusCRC(buffer)
  {
    hide Xor, Shr, Odd, Swapped, Wide, MODBUS_POLY;
    var temp: bv32 := 0xFFFF;
    var i := 0;
    while i < |buffer|
      invariant i <= |buffer|
      invariant StepAll(temp, buffer[i..], MODBUS_POLY) == StepAll(0xFFFF, buffer, MODBUS_POLY)
    {
      assert buffer[i..][1..] == buffer[i + 1..];
      ghost var start := temp;
      temp := Xor(temp, Wide(buffer[i]));
      var j := 1;
      while j <= 8
        invariant 1 <= j <= 9
        invariant RightN(temp, MODBUS_POLY, 9 - j) == Step(start, buffer[i], MODBUS_POLY)
      {
        var flag := Odd(temp);
        ShiftedIs(temp, MODBUS_POLY);
        temp := Shr(temp);
        if flag {
          temp := Xor(temp, MODBUS_POLY);
        }
        j := j + 1;
      }
      i := i + 1;
    }
    r := Swapped(temp);
  }

  function HighByte(c: bv32): bv8 { ((c >> 8) & 0xFF) as bv8 }
  function LowByte(c: bv32): bv8 { (c & 0xFF) as bv8 }

  lemma {:induction false} SwappedBits(c: bv32)
    requires Fits(c)
    ensures Pair(HighByte(Swapped(c)), LowByte(Swapped(c))) == c
  {
  }

  lemma {:induction false} SwappedInjective(a: bv32, b: bv32)
    requires Fits(a) && Fits(b) && Swapped(a) == Swapped(b)
    ensures a == b
  {
    hide Fits, Swapped, Pair, HighByte, LowByte;
    SwappedBits(a);
    SwappedBits(b);
  }

  lemma {:induction false} SwappedZero()
    ensures Swapped(0) == 0
  {
  }

  /** A message followed by its own CRC in transmission order leaves zero. */
  lemma {:induction false} ModbusResidue(data: seq<bv8>)
    ensures ModbusCRC(data + [HighByte(ModbusCRC(data)), LowByte(ModbusCRC(data))]) == 0
  {
    hide Xor, StepAll, RightN, Pair, HighByte, LowByte, Swapped, Fits, MODBUS_POLY;
    var c := StepAll(0xFFFF, data, MODBUS_POLY);
    FitsWide(0);
    FitsAll(0xFFFF, data);
    var a, b := HighByte(Swapped(c)), LowByte(Swapped(c));
    StepAppend(0xFFFF, data, [a, b], MODBUS_POLY);
    TwoSteps(c, a, b, MODBUS_POLY);
    SwappedBits(c);
    XorZero(c);
    RightZero(MODBUS_POLY, 16);
    SwappedZero();
  }

  lemma {:induction false} PairLow(a: bv8, b: bv8)
    ensures LowByte(Pair(a, b)) == a
  {
  }

  lemma {:induction false} PairHigh(a: bv8, b: bv8)
    ensures HighByte(Pair(a, b)) == b
  {
  }

  lemma {:induction false} PairInjective(a: bv8, b: bv8, c: bv8, d: bv8)
    requires Pair(a, b) == Pair(c, d)
    ensures a == c && b == d
  {
    hide Pair, HighByte, LowByte;
    PairLow(a, b);
    PairLow(c, d);
    PairHigh(a, b);
    PairHigh(c, d);
  }

  lemma {:induction false} FitsPair(a: bv8, b: bv8)
    ensures Fits(Pair(a, b))
  {
    hide Fits, Xor, Wide, Place;
    FitsWide(a);
    FitsPlace(b);
    FitsXor(Wide(a), Place(b, 8));
  }

  lemma {:induction false} SamePair(s: bv32, a: bv8, b: bv8, c: bv8, d: bv8)
    requires Fits(s) && StepAll(s, [a, b], MODBUS_POLY) == StepAll(s, [c, d], MODBUS_POLY)
    ensures a == c && b == d
  {
    hide Xor, StepAll, RightN, Pair, Fits, MODBUS_POLY;
    TwoSteps(s, a, b, MODBUS_POLY);
    TwoSteps(s, c, d, MODBUS_POLY);
    FitsPair(a, b);
    FitsPair(c, d);
    FitsXor(s, Pair(a, b));
    FitsXor(s, Pair(c, d));
    Injective(Xor(s, Pair(a, b)), Xor(s, Pair(c, d)), 16);
    XorCancel(s, Pair(a, b), Pair(c, d));
    PairInjective(a, b, c, d);
  }

  /**
   * Two messages of any length that differ only within two adjacent bytes have different CRCs,
   * wherever the bytes stand.
   */
  lemma {:induction false} ModbusTwoBytesDetected(p: seq<bv8>, a: bv8, b: bv8, c: bv8, d: bv8, q: seq<bv8>)
    requires a != c || b != d
    ensures ModbusCRC(p + [a, b] + q) != ModbusCRC(p + [c, d] + q)
  {
    hide Xor, StepAll, RightN, Pair, Swapped, Fits, MODBUS_POLY;
    var s := StepAll(0xFFFF, p, MODBUS_POLY);
    var x, y := StepAll(s, [a, b], MODBUS_POLY), StepAll(s, [c, d], MODBUS_POLY);
    StepAppend(0xFFFF, p + [a, b], q, MODBUS_POLY);
    StepAppend(0xFFFF, p, [a, b], MODBUS_POLY);
    StepAppend(0xFFFF, p + [c, d], q, MODBUS_POLY);
    StepAppend(0xFFFF, p, [c, d], MODBUS_POLY);
    FitsWide(0);
    FitsAll(0xFFFF, p);
    FitsAll(s, [a, b]);
    FitsAll(s, [c, d]);
    FitsAll(x, q);
    FitsAll(y, q);
    if ModbusCRC(p + [a, b] + q) == ModbusCRC(p + [c, d] + q) {
      SwappedInjective(StepAll(x, q, MODBUS_POLY), StepAll(y, q, MODBUS_POLY));
      StepInjective(x, y, q);
      SamePair(s, a, b, c, d);
    }
  }

  // ----- littlefs

  const LFS_POLY: bv32 := 0xEDB8_8320

  const RTABLE: seq<bv32> := [
    0x00000000, 0x1db71064, 0x3b6e20c8, 0x26d930ac,
    0x76dc4190, 0x6b6b51f4, 0x4db26158, 0x5005713c,
    0xedb88320, 0xf00f9344, 0xd6d6a3e8, 0xcb61b38c,
    0x9b64c2b0, 0x86d3d2d4, 0xa00ae278, 0xbdbdf21c
  ]

  function Nibble(c: bv32): bv32 { c & 0xF }
  function Shr4(c: bv32): bv32 { c >> 4 }

  function Four(c: bv32): bv32 {
    Right1(Right1(Right1(Right1(c, LFS_POLY), LFS_POLY), LFS_POLY), LFS_POLY)
  }

  lemma {:induction false} FourIs(c: bv32)
    ensures Four(c) == RightN(c, LFS_POLY, 4)
  {
    hide Right1, LFS_POLY;
    var c1 := Right1(c, LFS_POLY);
    var c2 := Right1(c1, LFS_POLY);
    assert RightN(c, LFS_POLY, 4) == RightN(c1, LFS_POLY, 3) == RightN(c2, LFS_POLY, 2);
    var c3 := Right1(c2, LFS_POLY);
    assert RightN(c2, LFS_POLY, 2) == RightN(c3, LFS_POLY, 1) == RightN(Right1(c3, LFS_POLY), LFS_POLY, 0);
  }

  lemma {:induction false} Table0()
    ensures |RTABLE| == 16 && RTABLE[0] == Four(0) && RTABLE[1] == Four(1)
  {
  }

  lemma {:induction false} Table2()
    ensures |RTABLE| == 16 && RTABLE[2] == Four(2) && RTABLE[3] == Four(3)
  {
  }

  lemma {:induction false} Table4()
    ensures |RTABLE| == 16 && RTABLE[4] == Four(4) && RTABLE[5] == Four(5)
  {
  }

  lemma {:induction false} Table6()
    ensures |RTABLE| == 16 && RTABLE[6] == Four(6) && RTABLE[7] == Four(7)
  {
  }

  lemma {:induction false} Table8()
    ensures |RTABLE| == 16 && RTABLE[8] == Four(8) && RTABLE[9] == Four(9)
  {
  }

  lemma {:induction false} TableA()
    ensures |RTABLE| == 16 && RTABLE[10] == Four(10) && RTABLE[11] == Four(11)
  {
  }

  lemma {:induction false} TableC()
    ensures |RTABLE| == 16 && RTABLE[12] == Four(12) && RTABLE[13] == Four(13)
  {
  }

  lemma {:induction false} TableE()
    ensures |RTABLE| == 16 && RTABLE[14] == Four(14) && RTABLE[15] == Four(15)
  {
  }

  /** Every entry of the table is its index, shifted through four bits. */
  lemma {:induction false} TableIs(i: bv32)
    requires i < 16
    ensures |RTABLE| == 16 && RTABLE[i as int] == Four(i)
  {
    hide Four;
    Table0();
    Table2();
    Table4();
    Table6();
    Table8();
    TableA();
    TableC();
    TableE();
    assert i == 0 || i == 1 || i == 2 || i == 3 || i == 4 || i == 5 || i == 6 || i == 7
        || i == 8 || i == 9 || i == 10 || i == 11 || i == 12 || i == 13 || i == 14 || i == 15;
  }

  lemma {:induction false} NibbleSmall(c: bv32)
    ensures Nibble(c) < 16
  {
  }

  function Lookup(c: bv32): bv32 {
    NibbleSmall(c);
    TableIs(Nibble(c));
    RTABLE[Nibble(c) as int]
  }

  function Above(c: bv32): bv32 { c & 0xFFFF_FFF0 }

  lemma {:induction false} Parted(c: bv32)
    ensures Xor(Above(c), Nibble(c)) == c
  {
  }

  lemma {:induction false} AboveEven(c: bv32)
    ensures var a := Above(c); !Odd(a) && !Odd(Shr(a)) && !Odd(Shr(Shr(a))) && !Odd(Shr(Shr(Shr(a))))
  {
  }

  lemma {:induction false} AboveDown(c: bv32)
    ensures Shr(Shr(Shr(Shr(Above(c))))) == Shr4(c)
  {
  }

  lemma {:induction false} AboveFalls(c: bv32)
    ensures Four(Above(c)) == Shr4(c)
  {
    hide Xor, Shr, Odd, Above, LFS_POLY;
    var a := Above(c);
    AboveEven(c);
    XorZero(Shr(a));
    XorZero(Shr(Shr(a)));
    XorZero(Shr(Shr(Shr(a))));
    XorZero(Shr(Shr(Shr(Shr(a)))));
    AboveDown(c);
  }

  /** One table step is four bit steps. */
  lemma {:induction false} NibbleStep(c: bv32)
    ensures Xor(Shr4(c), Lookup(c)) == RightN(c, LFS_POLY, 4)
  {
    hide Xor, Four, Shr4, Nibble, Above, LFS_POLY, RightN;
    NibbleSmall(c);
    TableIs(Nibble(c));
    Parted(c);
    AboveFalls(c);
    FourIs(Above(c));
    FourIs(Nibble(c));
    Linear(Above(c), Nibble(c), LFS_POLY, 4);
  }

  function HighNibble(b: bv8): bv8 { b >> 4 }

  lemma {:induction false} ByteParts(b: bv8)
    ensures Xor(Place(HighNibble(b), 4), Nibble(Wide(b))) == Wide(b)
  {
  }

  lemma {:induction false} IndexBits(c: bv32, b: bv8)
    ensures Nibble(Xor(c, Wide(b))) == Nibble(Xor(c, Nibble(Wide(b))))
  {
  }

  lemma {:induction false} ShiftBits(c: bv32, b: bv8)
    ensures Shr4(Xor(c, Nibble(Wide(b)))) == Shr4(c)
  {
  }

  lemma {:induction false} ShiftHigh(c: bv32, b: bv8)
    ensures Shr4(Xor(c, Wide(HighNibble(b)))) == Shr4(c)
  {
  }

  /** Two table steps are one byte step. */
  lemma {:induction false} ByteStep(c: bv32, b: bv8)
    ensures var d := Xor(Shr4(c), Lookup(Xor(c, Wide(b))));
            Xor(Shr4(d), Lookup(Xor(d, Wide(HighNibble(b))))) == Step(c, b, LFS_POLY)
  {
    hide Xor, Shr4, Nibble, Wide, HighNibble, Place, LFS_POLY, RightN;
    var lo, hi := Nibble(Wide(b)), HighNibble(b);
    var d := Xor(Shr4(c), Lookup(Xor(c, Wide(b))));
    IndexBits(c, b);
    ShiftBits(c, b);
    NibbleStep(Xor(c, lo));
    assert d == RightN(Xor(c, lo), LFS_POLY, 4);
    ShiftHigh(d, b);
    NibbleStep(Xor(d, Wide(hi)));
    Fall(hi, 4, 4, LFS_POLY);
    Ground(hi);
    Linear(Xor(c, lo), Place(hi, 4), LFS_POLY, 4);
    RightAdd(Xor(Xor(c, lo), Place(hi, 4)), LFS_POLY, 4, 4);
    XorAssoc(c, lo, Place(hi, 4));
    XorComm(lo, Place(hi, 4));
    ByteParts(b);
  }

  /** The nibble-table loop is the bit-by-bit CRC-32, from any starting register. */
  method LfsCRC(init: bv32, buffer: seq<bv8>) returns (crc: bv32)
    ensures crc == StepAll(init, buffer, LFS_POLY)
  {
    hide Xor, Shr4, Lookup, Wide, HighNibble, Step, LFS_POLY;
    crc := init;
    var i := 0;
    while i < |buffer|
      invariant i <= |buffer| && StepAll(crc, buffer[i..], LFS_POLY) == StepAll(init, buffer, LFS_POLY)
    {
      assert buffer[i..][1..] == buffer[i + 1..];
      ByteStep(crc, buffer[i]);
      crc := Xor(Shr4(crc), Lookup(Xor(crc, Wide(buffer[i]))));
      crc := Xor(Shr4(crc), Lookup(Xor(crc, Wide(HighNibble(buffer[i])))));
      i := i + 1;
    }
  }
}
