/**
 * A byte as eight bits, for the modules that compute with bit vectors.
 *
 * The conversion is the language's own; it loses nothing and its bits are the binary digits.
 */
module ByteBits {
  import opened Bytes

  function BitsOf(a: byte): bv8 { a as bv8 }

  function ToBits(s: seq<byte>): (r: seq<bv8>)
    ensures |r| == |s|
  {
    seq(|s|, i requires 0 <= i < |s| => BitsOf(s[i]))
  }

  /** `a >> k` */
  function Half(a: nat, k: nat): nat
    decreases k
  {
    if k == 0 then a else Half(a / 2, k - 1)
  }

  /** Binary digit k of a byte. */
  function BitOf(a: byte, k: nat): bool { Half(a, k) % 2 == 1 }

  function Mask(k: nat): bv8 {
    if k == 0 then 1 else if k == 1 then 2 else if k == 2 then 4 else if k == 3 then 8
    else if k == 4 then 0x10 else if k == 5 then 0x20 else if k == 6 then 0x40 else 0x80
  }

  predicate IsSet(x: bv8, k: nat) { x & Mask(k) != 0 }

  lemma {:induction false} MasksCut(a: byte)
    ensures (a as bv8) & 1 != 0 <==> a % 2 == 1
    ensures (a as bv8) & 2 != 0 <==> a / 2 % 2 == 1
    ensures (a as bv8) & 4 != 0 <==> a / 4 % 2 == 1
    ensures (a as bv8) & 8 != 0 <==> a / 8 % 2 == 1
    ensures (a as bv8) & 0x10 != 0 <==> a / 16 % 2 == 1
    ensures (a as bv8) & 0x20 != 0 <==> a / 32 % 2 == 1
    ensures (a as bv8) & 0x40 != 0 <==> a / 64 % 2 == 1
    ensures (a as bv8) & 0x80 != 0 <==> a / 128 % 2 == 1
  {
  }

  lemma {:induction false} HalfIs(a: nat)
    ensures Half(a, 0) == a && Half(a, 1) == a / 2 && Half(a, 2) == a / 4 && Half(a, 3) == a / 8
  {
    assert Half(a, 3) == Half(a / 2, 2) == Half(a / 2 / 2, 1) == Half(a / 2 / 2 / 2, 0);
    assert Half(a, 2) == Half(a / 2, 1) == Half(a / 2 / 2, 0);
  }

  lemma {:induction false} HalfFour(a: nat, k: nat)
    ensures Half(a, 4 + k) == Half(a / 16, k)
  {
    assert Half(a, 4 + k) == Half(a / 2, 3 + k) == Half(a / 2 / 2, 2 + k) == Half(a / 2 / 2 / 2, 1 + k) == Half(a / 2 / 2 / 2 / 2, k);
    assert a / 2 / 2 / 2 / 2 == a / 16;
  }

  lemma {:induction false} Halves(a: byte)
    ensures Half(a, 0) == a && Half(a, 1) == a / 2 && Half(a, 2) == a / 4 && Half(a, 3) == a / 8
    ensures Half(a, 4) == a / 16 && Half(a, 5) == a / 32 && Half(a, 6) == a / 64 && Half(a, 7) == a / 128
    ensures Half(a, 8) == 0
  {
    hide Half;
    HalfIs(a);
    HalfIs(a / 16);
    HalfFour(a, 0);
    HalfFour(a, 1);
    HalfFour(a, 2);
    HalfFour(a, 3);
    HalfFour(a, 4);
    HalfFour(a / 16, 0);
    HalfIs(a / 16 / 16);
  }

  /** The bits of the vector are the binary digits of the number. */
  lemma {:induction false} BitIsDigit(a: byte, k: nat)
    requires k < 8
    ensures IsSet(BitsOf(a), k) <==> BitOf(a, k)
  {
    hide Half;
    Halves(a);
    MasksCut(a);
  }

  lemma {:induction false} SameDigits(a: nat, b: nat, n: nat)
    requires forall k :: 0 <= k < n ==> (Half(a, k) % 2 == 1) == (Half(b, k) % 2 == 1)
    requires Half(a, n) == Half(b, n)
    ensures a == b
    decreases n
  {
    if n > 0 {
      forall k | 0 <= k < n - 1
        ensures (Half(a / 2, k) % 2 == 1) == (Half(b / 2, k) % 2 == 1)
      {
        assert Half(a, k + 1) == Half(a / 2, k) && Half(b, k + 1) == Half(b / 2, k);
      }
      SameDigits(a / 2, b / 2, n - 1);
      assert Half(a, 0) == a && Half(b, 0) == b;
    }
  }

  /** Different bytes have different bits. */
  lemma {:induction false} BitsInjective(a: byte, b: byte)
    requires BitsOf(a) == BitsOf(b)
    ensures a == b
  {
    hide BitsOf, Half, IsSet;
    Halves(a);
    Halves(b);
    forall k | 0 <= k < 8
      ensures (Half(a, k) % 2 == 1) == (Half(b, k) % 2 == 1)
    {
      BitIsDigit(a, k);
      BitIsDigit(b, k);
    }
    SameDigits(a, b, 8);
  }

  lemma {:induction false} BitsJoin(p: seq<byte>, a: byte, b: byte, q: seq<byte>)
    ensures ToBits(p + [a, b] + q) == ToBits(p) + [BitsOf(a), BitsOf(b)] + ToBits(q)
  {
    hide BitsOf;
  }

  // ----- exclusive or

  function Xor(x: bv8, y: bv8): bv8 { x ^ y }

  function XorByte(a: byte, m: byte): byte { Xor(BitsOf(a), BitsOf(m)) as int }

  lemma {:induction false} BitsBack(v: bv8)
    ensures BitsOf(v as int) == v
  {
  }

  lemma {:induction false} XorBits(a: byte, m: byte)
    ensures BitsOf(XorByte(a, m)) == Xor(BitsOf(a), BitsOf(m))
  {
    hide BitsOf, Xor;
    BitsBack(Xor(BitsOf(a), BitsOf(m)));
  }

  lemma {:induction false} XorUndone(x: bv8, y: bv8)
    ensures Xor(Xor(x, y), y) == x
  {
  }

  lemma {:induction false} XorTwice(a: byte, m: byte)
    ensures XorByte(XorByte(a, m), m) == a
  {
    hide BitsOf, XorByte, Xor;
    XorBits(a, m);
    XorBits(XorByte(a, m), m);
    XorUndone(BitsOf(a), BitsOf(m));
    BitsInjective(XorByte(XorByte(a, m), m), a);
  }

  lemma {:induction false} XorSet(x: bv8, y: bv8, k: nat)
    ensures IsSet(Xor(x, y), k) <==> IsSet(x, k) != IsSet(y, k)
  {
  }

  /** Bit k of the result is set exactly when it is set in one operand and not in the other. */
  lemma {:induction false} XorByteBits(a: byte, m: byte, k: nat)
    requires k < 8
    ensures BitOf(XorByte(a, m), k) <==> BitOf(a, k) != BitOf(m, k)
  {
    hide BitsOf, BitOf, XorByte, Xor, IsSet;
    XorBits(a, m);
    BitIsDigit(a, k);
    BitIsDigit(m, k);
    BitIsDigit(XorByte(a, m), k);
    XorSet(BitsOf(a), BitsOf(m), k);
  }
}
