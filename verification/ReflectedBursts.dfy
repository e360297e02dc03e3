/** What the two right-shifting CRCs detect: every burst as long as the register, wherever it stands. */
module ReflectedBursts {
  import opened ReflectedCrc

  // ----- nothing is lost in a shift

  predicate Known(poly: bv32) { poly == MODBUS_POLY || poly == LFS_POLY }

  /** A register as it comes up with this polynomial: 16 bits for Modbus, all 32 for littlefs. */
  predicate Within(c: bv32, poly: bv32) { poly == MODBUS_POLY ==> Fits(c) }

  function Width(poly: bv32): (n: nat)
    ensures n == 16 || n == 32
  {
    if poly == MODBUS_POLY then 16 else 32
  }

  lemma {:induction false} ShrTop(a: bv32)
    ensures Shr(a) & 0x8000_0000 == 0
  {
  }

  lemma {:induction false} FedTop(x: bv32)
    requires x & 0x8000_0000 == 0
    ensures Xor(x, LFS_POLY) & 0x8000_0000 != 0
  {
  }

  lemma {:induction false} LfsInjective1(a: bv32, b: bv32)
    requires Right1(a, LFS_POLY) == Right1(b, LFS_POLY)
    ensures a == b
  {
    hide Xor, Shr, Odd, LFS_POLY;
    ShrTop(a);
    ShrTop(b);
    FedTop(Shr(a));
    FedTop(Shr(b));
    XorZero(Shr(a));
    XorZero(Shr(b));
    assert Odd(a) == Odd(b);
    XorComm(Shr(a), LFS_POLY);
    XorComm(Shr(b), LFS_POLY);
    if Odd(a) {
      XorCancel(LFS_POLY, Shr(a), Shr(b));
    }
    SameHalf(a, b);
  }

  lemma {:induction false} RightInjective(a: bv32, b: bv32, poly: bv32)
    requires Known(poly) && Within(a, poly) && Within(b, poly) && Right1(a, poly) == Right1(b, poly)
    ensures a == b
  {
    hide Right1, Fits, MODBUS_POLY, LFS_POLY;
    if poly == MODBUS_POLY {
      Injective1(a, b);
    } else {
      LfsInjective1(a, b);
    }
  }

  lemma {:induction false} WithinRight(c: bv32, poly: bv32)
    requires Within(c, poly)
    ensures Within(Right1(c, poly), poly)
  {
    hide Right1, Fits, MODBUS_POLY;
    if poly == MODBUS_POLY {
      FitsRight(c, 1);
      assert RightN(c, poly, 1) == RightN(Right1(c, poly), poly, 0);
    }
  }

  // ----- one bit of the message at a time

  function Unit(bit: bool): bv32 { if bit then 1 else 0 }

  function BitStep(c: bv32, bit: bool, poly: bv32): bv32 { Right1(Xor(c, Unit(bit)), poly) }

  function BitAll(c: bv32, bits: seq<bool>, poly: bv32): bv32
    decreases |bits|
  {
    if bits == [] then c else BitAll(BitStep(c, bits[0], poly), bits[1..], poly)
  }

  lemma {:induction false} BitAppend(c: bv32, a: seq<bool>, b: seq<bool>, poly: bv32)
    ensures BitAll(c, a + b, poly) == BitAll(BitAll(c, a, poly), b, poly)
    decreases |a|
  {
    hide BitStep;
    if a == [] {
      assert a + b == b;
    } else {
      assert (a + b)[1..] == a[1..] + b;
      BitAppend(BitStep(c, a[0], poly), a[1..], b, poly);
    }
  }

  lemma {:induction false} FitsUnit(bit: bool)
    ensures Fits(Unit(bit))
  {
  }

  lemma {:induction false} WithinBit(c: bv32, bit: bool, poly: bv32)
    requires Within(c, poly)
    ensures Within(Xor(c, Unit(bit)), poly) && Within(BitStep(c, bit, poly), poly)
  {
    hide Xor, Unit, Right1, Fits, MODBUS_POLY;
    if poly == MODBUS_POLY {
      FitsUnit(bit);
      FitsXor(c, Unit(bit));
    }
    WithinRight(Xor(c, Unit(bit)), poly);
  }

  lemma {:induction false} WithinAll(c: bv32, bits: seq<bool>, poly: bv32)
    requires Within(c, poly)
    ensures Within(BitAll(c, bits, poly), poly)
    decreases |bits|
  {
    hide BitStep, Within;
    if bits != [] {
      WithinBit(c, bits[0], poly);
      WithinAll(BitStep(c, bits[0], poly), bits[1..], poly);
    }
  }

  lemma {:induction false} BitInjective(a: bv32, b: bv32, bits: seq<bool>, poly: bv32)
    requires Known(poly) && Within(a, poly) && Within(b, poly) && BitAll(a, bits, poly) == BitAll(b, bits, poly)
    ensures a == b
    decreases |bits|
  {
    hide Xor, Unit, Right1, Within, Known;
    if bits != [] {
      var u := Unit(bits[0]);
      WithinBit(a, bits[0], poly);
      WithinBit(b, bits[0], poly);
      BitInjective(BitStep(a, bits[0], poly), BitStep(b, bits[0], poly), bits[1..], poly);
      RightInjective(Xor(a, u), Xor(b, u), poly);
      XorComm(a, u);
      XorComm(b, u);
      XorCancel(u, a, b);
    }
  }

  // ----- bytes are eight bits, the lowest first

  function BitsFrom(x: bv8, n: nat): seq<bool>
    decreases n
  {
    if n == 0 then [] else [x & 1 != 0] + BitsFrom(x >> 1, n - 1)
  }

  function Bits(data: seq<bv8>): seq<bool> {
    if data == [] then [] else BitsFrom(data[0], 8) + Bits(data[1..])
  }

  predicate Small(x: bv8, n: nat)
    decreases n
  {
    if n == 0 then x == 0 else Small(x >> 1, n - 1)
  }

  lemma {:induction false} EightGone(x: bv8)
    ensures x >> 1 >> 1 >> 1 >> 1 >> 1 >> 1 >> 1 >> 1 == 0
  {
  }

  lemma {:induction false} EightSmall(x: bv8)
    ensures Small(x, 8)
  {
    var y := x >> 1 >> 1 >> 1 >> 1;
    assert Small(x, 8) == Small(x >> 1, 7) == Small(x >> 1 >> 1, 6) == Small(x >> 1 >> 1 >> 1, 5) == Small(y, 4);
    assert Small(y, 4) == Small(y >> 1, 3) == Small(y >> 1 >> 1, 2) == Small(y >> 1 >> 1 >> 1, 1)
        == Small(y >> 1 >> 1 >> 1 >> 1, 0);
    EightGone(x);
  }

  function Even(x: bv8): bv32 { Wide(x & 0xFE) }

  lemma {:induction false} ByteSplit(x: bv8)
    ensures Xor(Unit(x & 1 != 0), Even(x)) == Wide(x)
  {
  }

  lemma {:induction false} EvenDown(x: bv8)
    ensures !Odd(Even(x)) && Shr(Even(x)) == Wide(x >> 1)
  {
  }

  lemma {:induction false} WideZero()
    ensures Wide(0) == 0
  {
  }

  lemma {:induction false} BitsTogether(c: bv32, x: bv8, n: nat, poly: bv32)
    requires Small(x, n)
    ensures BitAll(c, BitsFrom(x, n), poly) == RightN(Xor(c, Wide(x)), poly, n)
    decreases n
  {
    hide Xor, Shr, Odd, Unit, Even;
    if n == 0 {
      XorZero(c);
      WideZero();
    } else {
      var bit := x & 1 != 0;
      var bits := BitsFrom(x, n);
      assert bits[0] == bit && bits[1..] == BitsFrom(x >> 1, n - 1);
      ByteSplit(x);
      EvenDown(x);
      XorZero(Shr(Even(x)));
      XorAssoc(c, Unit(bit), Even(x));
      Linear1(Xor(c, Unit(bit)), Even(x), poly);
      BitsTogether(BitStep(c, bit, poly), x >> 1, n - 1, poly);
    }
  }

  lemma {:induction false} NoBits(c: bv32, poly: bv32)
    ensures BitAll(c, [], poly) == c
  {
  }

  lemma {:induction false} BytesAreBits(c: bv32, data: seq<bv8>, poly: bv32)
    ensures StepAll(c, data, poly) == BitAll(c, Bits(data), poly)
    decreases |data|
  {
    hide Xor, Wide, RightN, BitAll, BitsFrom, Small;
    if data == [] {
      NoBits(c, poly);
    } else {
      EightSmall(data[0]);
      BitsTogether(c, data[0], 8, poly);
      BitAppend(c, BitsFrom(data[0], 8), Bits(data[1..]), poly);
      BytesAreBits(Step(c, data[0], poly), data[1..], poly);
    }
  }

  // ----- how long a difference cannot vanish

  /** The top bit, shifted down by k. */
  function Mark(k: nat): bv32
    requires k < 32
  {
    (0x8000_0000 as bv32) >> k
  }

  lemma {:induction false} MarkDown(k: nat)
    requires k < 31
    ensures Shr(Mark(k)) == Mark(k + 1) && !Odd(Mark(k))
  {
    assert k == 0 || k == 1 || k == 2 || k == 3 || k == 4 || k == 5 || k == 6 || k == 7
        || k == 8 || k == 9 || k == 10 || k == 11 || k == 12 || k == 13 || k == 14 || k == 15
        || k == 16 || k == 17 || k == 18 || k == 19 || k == 20 || k == 21 || k == 22 || k == 23
        || k == 24 || k == 25 || k == 26 || k == 27 || k == 28 || k == 29 || k == 30;
  }

  /** The difference has a bit at the mark or above. */
  predicate Reaches(d: bv32, mark: bv32) { mark <= d }

  predicate Tiny(u: bv32) { u <= 1 }

  lemma {:induction false} MarkSet(k: nat)
    requires k < 32
    ensures !Reaches(0, Mark(k)) && Reaches(0x8000_0000, Mark(k)) && (k >= 16 ==> Reaches(0x8000, Mark(k)))
  {
    assert k == 0 || k == 1 || k == 2 || k == 3 || k == 4 || k == 5 || k == 6 || k == 7
        || k == 8 || k == 9 || k == 10 || k == 11 || k == 12 || k == 13 || k == 14 || k == 15
        || k == 16 || k == 17 || k == 18 || k == 19 || k == 20 || k == 21 || k == 22 || k == 23
        || k == 24 || k == 25 || k == 26 || k == 27 || k == 28 || k == 29 || k == 30 || k == 31;
  }

  lemma {:induction false} LowBitApart(d: bv32, u: bv32, m: bv32)
    requires Reaches(d, m) && !Odd(m) && Tiny(u)
    ensures Reaches(Shr(Xor(d, u)), Shr(m))
  {
  }

  lemma {:induction false} FedHigh(x: bv32)
    requires x & 0x8000_0000 == 0
    ensures Reaches(Xor(x, LFS_POLY), 0x8000_0000)
  {
  }

  lemma {:induction false} FedHalf(x: bv32)
    requires x & 0x8000 == 0
    ensures Reaches(Xor(x, MODBUS_POLY), 0x8000)
  {
  }

  lemma {:induction false} UnitSmall(a: bool, b: bool)
    ensures Tiny(Xor(Unit(a), Unit(b)))
  {
  }

  lemma {:induction false} ReachesOn(d: bv32, c: bv32, mark: bv32)
    requires Reaches(d, c) && Reaches(c, mark)
    ensures Reaches(d, mark)
  {
  }

  lemma {:induction false} FeedbackReaches(x: bv32, poly: bv32, k: nat)
    requires Known(poly) && Within(x, poly) && 32 - Width(poly) <= k < 32
    ensures Reaches(Xor(Shr(x), poly), Mark(k))
  {
    hide Xor, Shr, Mark, Reaches, MODBUS_POLY, LFS_POLY, Fits;
    MarkSet(k);
    if poly == MODBUS_POLY {
      FitsShr(x);
      FedHalf(Shr(x));
      ReachesOn(Xor(Shr(x), poly), 0x8000, Mark(k));
    } else {
      ShrTop(x);
      FedHigh(Shr(x));
      ReachesOn(Xor(Shr(x), poly), 0x8000_0000, Mark(k));
    }
  }

  /** One step on a difference that reaches the mark: it reaches the next mark. */
  lemma {:induction false} DifferenceStep(d: bv32, u: bv32, poly: bv32, k: nat)
    requires Known(poly) && Within(Xor(d, u), poly) && Tiny(u) && 32 - Width(poly) <= k < 31 && Reaches(d, Mark(k))
    ensures Reaches(Right1(Xor(d, u), poly), Mark(k + 1))
  {
    hide Xor, Shr, Odd, Mark, Reaches, Tiny, Within, Known, Width;
    var x := Xor(d, u);
    MarkDown(k);
    LowBitApart(d, u, Mark(k));
    XorZero(Shr(x));
    FeedbackReaches(x, poly, k + 1);
  }

  lemma {:induction false} StepDifference(x: bv32, y: bv32, a: bool, b: bool, poly: bv32)
    ensures Xor(BitStep(x, a, poly), BitStep(y, b, poly)) == Right1(Xor(Xor(x, y), Xor(Unit(a), Unit(b))), poly)
  {
    hide Xor, Right1, Unit;
    Linear1(Xor(x, Unit(a)), Xor(y, Unit(b)), poly);
    XorMix(x, Unit(a), y, Unit(b));
  }

  lemma {:induction false} WithinXor(a: bv32, b: bv32, poly: bv32)
    requires Within(a, poly) && Within(b, poly)
    ensures Within(Xor(a, b), poly)
  {
    hide Xor, Fits, MODBUS_POLY;
    if poly == MODBUS_POLY {
      FitsXor(a, b);
    }
  }

  /** Whatever bits follow, so few cannot bring two registers back together. */
  lemma {:induction false} StayApart(x: bv32, y: bv32, v: seq<bool>, w: seq<bool>, poly: bv32, k: nat)
    requires Known(poly) && Within(x, poly) && Within(y, poly) && |v| == |w| && 32 - Width(poly) <= k && k + |v| < 32
    requires Reaches(Xor(x, y), Mark(k))
    ensures BitAll(x, v, poly) != BitAll(y, w, poly)
    decreases |v|
  {
    hide Xor, Right1, Unit, Within, Mark, Known, Width, BitStep, Reaches, Tiny;
    if v == [] {
      MarkSet(k);
      XorZero(x);
    } else {
      var x', y' := BitStep(x, v[0], poly), BitStep(y, w[0], poly);
      var u := Xor(Unit(v[0]), Unit(w[0]));
      StepDifference(x, y, v[0], w[0], poly);
      UnitSmall(v[0], w[0]);
      WithinBit(x, v[0], poly);
      WithinBit(y, w[0], poly);
      WithinXor(Xor(x, Unit(v[0])), Xor(y, Unit(w[0])), poly);
      XorMix(x, Unit(v[0]), y, Unit(w[0]));
      DifferenceStep(Xor(x, y), u, poly, k);
      StayApart(x', y', v[1..], w[1..], poly, k + 1);
    }
  }

  lemma {:induction false} OneOnly(a: bool, b: bool)
    requires a != b
    ensures Xor(Unit(a), Unit(b)) == 1
  {
  }

  lemma {:induction false} OneDown(poly: bv32)
    ensures Right1(1, poly) == poly
  {
  }

  lemma {:induction false} PolyTop()
    ensures Reaches(MODBUS_POLY, Mark(16)) && Reaches(LFS_POLY, Mark(0))
  {
  }

  lemma {:induction false} FirstDifference(c: bv32, a: bool, b: bool, poly: bv32)
    requires Known(poly) && a != b
    ensures Xor(BitStep(c, a, poly), BitStep(c, b, poly)) == poly && Reaches(poly, Mark(32 - Width(poly)))
  {
    hide Xor, Unit, Right1, MODBUS_POLY, LFS_POLY, Mark, Reaches;
    StepDifference(c, c, a, b, poly);
    XorZero(c);
    XorZero(Xor(Unit(a), Unit(b)));
    OneOnly(a, b);
    OneDown(poly);
    PolyTop();
  }

  /** Two different runs of bits no longer than the register lead to different registers. */
  lemma {:induction false} ShortBurst(c: bv32, v: seq<bool>, w: seq<bool>, poly: bv32)
    requires Known(poly) && Within(c, poly) && |v| == |w| <= Width(poly) && v != w
    ensures BitAll(c, v, poly) != BitAll(c, w, poly)
    decreases |v|
  {
    hide Xor, Within, Mark, Known, BitStep, Width, Reaches;
    WithinBit(c, v[0], poly);
    WithinBit(c, w[0], poly);
    if v[0] != w[0] {
      FirstDifference(c, v[0], w[0], poly);
      StayApart(BitStep(c, v[0], poly), BitStep(c, w[0], poly), v[1..], w[1..], poly, 32 - Width(poly));
    } else {
      assert v == [v[0]] + v[1..] && w == [w[0]] + w[1..];
      ShortBurst(BitStep(c, v[0], poly), v[1..], w[1..], poly);
    }
  }

  /**
   * Two messages of any length that differ only within as many consecutive bits as the register has
   * leave different registers.
   */
  lemma {:induction false} BurstDetected(init: bv32, m: seq<bv8>, n: seq<bv8>, poly: bv32,
                                         p: seq<bool>, v: seq<bool>, w: seq<bool>, q: seq<bool>)
    requires Known(poly) && Within(init, poly)
    requires Bits(m) == p + v + q && Bits(n) == p + w + q && |v| == |w| <= Width(poly) && v != w
    ensures StepAll(init, m, poly) != StepAll(init, n, poly)
  {
    hide BitAll, StepAll, Bits, Within, Known, Width;
    BytesAreBits(init, m, poly);
    BytesAreBits(init, n, poly);
    BitAppend(init, p + v, q, poly);
    BitAppend(init, p, v, poly);
    BitAppend(init, p + w, q, poly);
    BitAppend(init, p, w, poly);
    var c := BitAll(init, p, poly);
    WithinAll(init, p, poly);
    WithinAll(c, v, poly);
    WithinAll(c, w, poly);
    ShortBurst(c, v, w, poly);
    if StepAll(init, m, poly) == StepAll(init, n, poly) {
      BitInjective(BitAll(c, v, poly), BitAll(c, w, poly), q, poly);
    }
  }

  /** For Modbus: 16 consecutive bits. */
  lemma {:induction false} ModbusBurst(m: seq<bv8>, n: seq<bv8>, p: seq<bool>, v: seq<bool>, w: seq<bool>, q: seq<bool>)
    requires Bits(m) == p + v + q && Bits(n) == p + w + q && |v| == |w| <= 16 && v != w
    ensures ModbusCRC(m) != ModbusCRC(n)
  {
    hide StepAll, Bits, Swapped, Fits, MODBUS_POLY;
    FitsWide(0);
    FitsAll(0xFFFF, m);
    FitsAll(0xFFFF, n);
    BurstDetected(0xFFFF, m, n, MODBUS_POLY, p, v, w, q);
    if ModbusCRC(m) == ModbusCRC(n) {
      SwappedInjective(StepAll(0xFFFF, m, MODBUS_POLY), StepAll(0xFFFF, n, MODBUS_POLY));
    }
  }

  /** For the CRC-32 of littlefs: 32 consecutive bits, from any register. */
  lemma {:induction false} LfsBurst(init: bv32, m: seq<bv8>, n: seq<bv8>, p: seq<bool>, v: seq<bool>, w: seq<bool>, q: seq<bool>)
    requires Bits(m) == p + v + q && Bits(n) == p + w + q && |v| == |w| <= 32 && v != w
    ensures StepAll(init, m, LFS_POLY) != StepAll(init, n, LFS_POLY)
  {
    hide StepAll, Bits, Fits;
    BurstDetected(init, m, n, LFS_POLY, p, v, w, q);
  }

  /** Chained over the same bytes, different registers stay different. */
  lemma {:induction false} LfsInjective(a: bv32, b: bv32, data: seq<bv8>)
    requires StepAll(a, data, LFS_POLY) == StepAll(b, data, LFS_POLY)
    ensures a == b
  {
    hide StepAll, Bits, BitAll, Fits;
    BytesAreBits(a, data, LFS_POLY);
    BytesAreBits(b, data, LFS_POLY);
    BitInjective(a, b, Bits(data), LFS_POLY);
  }

  // ----- the CRC-32 of a message with its CRC

  function ByteOf(c: bv32, k: nat): bv8
    requires k <= 24
  {
    ((c >> k) & 0xFF) as bv8
  }

  /** The four bytes of a register, lowest first, as littlefs stores it. */
  function Stored(c: bv32): seq<bv8> { [ByteOf(c, 0), ByteOf(c, 8), ByteOf(c, 16), ByteOf(c, 24)] }

  function High(a: bv8, b: bv8): bv32 { Xor(Place(a, 16), Place(b, 24)) }

  lemma {:induction false} HighFalls(a: bv8, b: bv8, poly: bv32)
    ensures RightN(High(a, b), poly, 16) == Pair(a, b)
  {
    hide Xor, Place, Wide, RightN;
    Fall(a, 16, 16, poly);
    Fall(b, 24, 16, poly);
    Ground(a);
    Linear(Place(a, 16), Place(b, 24), poly, 16);
  }

  lemma {:induction false} ByteKept(x: bv32)
    requires x <= 0xFF
    ensures (x as bv8) as bv32 == x
  {
  }

  lemma {:induction false} BytesPlaced(c: bv32)
    ensures Wide(ByteOf(c, 0)) == c & 0xFF && Place(ByteOf(c, 8), 8) == ((c >> 8) & 0xFF) << 8
    ensures Place(ByteOf(c, 16), 16) == ((c >> 16) & 0xFF) << 16 && Place(ByteOf(c, 24), 24) == ((c >> 24) & 0xFF) << 24
  {
    assert c >> 0 == c;
    ByteKept(c & 0xFF);
    ByteKept((c >> 8) & 0xFF);
    ByteKept((c >> 16) & 0xFF);
    ByteKept((c >> 24) & 0xFF);
  }

  lemma {:induction false} FourParts(c: bv32)
    ensures ((c & 0xFF) ^ (((c >> 8) & 0xFF) << 8)) ^ ((((c >> 16) & 0xFF) << 16) ^ (((c >> 24) & 0xFF) << 24)) == c
  {
  }

  lemma {:induction false} FourBytes(c: bv32)
    ensures Xor(Pair(ByteOf(c, 0), ByteOf(c, 8)), High(ByteOf(c, 16), ByteOf(c, 24))) == c
  {
    hide Wide, Place, ByteOf;
    BytesPlaced(c);
    FourParts(c);
  }

  /** A message followed by its own CRC as stored leaves zero, from any register. */
  lemma {:induction false} LfsResidue(init: bv32, data: seq<bv8>)
    ensures StepAll(init, data + Stored(StepAll(init, data, LFS_POLY)), LFS_POLY) == 0
  {
    hide Xor, RightN, Pair, High, ByteOf, StepAll, LFS_POLY;
    var c := StepAll(init, data, LFS_POLY);
    var a, b, d, e := ByteOf(c, 0), ByteOf(c, 8), ByteOf(c, 16), ByteOf(c, 24);
    StepAppend(init, data, Stored(c), LFS_POLY);
    assert Stored(c) == [a, b] + [d, e];
    StepAppend(c, [a, b], [d, e], LFS_POLY);
    TwoSteps(c, a, b, LFS_POLY);
    var x := RightN(Xor(c, Pair(a, b)), LFS_POLY, 16);
    TwoSteps(x, d, e, LFS_POLY);
    HighFalls(d, e, LFS_POLY);
    Linear(Xor(c, Pair(a, b)), High(d, e), LFS_POLY, 16);
    XorAssoc(c, Pair(a, b), High(d, e));
    FourBytes(c);
    XorZero(c);
    RightZero(LFS_POLY, 16);
  }
}
