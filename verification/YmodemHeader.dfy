/**
 * What the receiver reads from the header packet that a sender writes.
 *
 * What any text in the place of the size is taken for; and with the file name and a NUL, the size
 * in decimal and a space, the size read is the size written.
 */
module YmodemHeader {
  import opened Bytes
  import opened Ymodem

  /** A decimal digit as a text has it, whatever the code takes for one. */
  predicate Digit(c: byte) { 0x30 <= c <= 0x39 }

  ghost predicate AllDigits(s: seq<byte>) { forall k :: 0 <= k < |s| ==> Digit(s[k]) }

  function Value(s: seq<byte>): int {
    if s == [] then 0 else Value(s[..|s| - 1]) * 10 + s[|s| - 1] - 48
  }

  lemma {:induction false} DigitsValue(n: nat)
    ensures AllDigits(DecimalDigits(n)) && Value(DecimalDigits(n)) == n
    decreases n
  {
    var s := DecimalDigits(n);
    if n < 10 {
      assert s[..|s| - 1] == [];
    } else {
      DigitsValue(n / 10);
      assert s[..|s| - 1] == DecimalDigits(n / 10);
    }
  }

  function PowerOfTen(k: nat): nat { if k == 0 then 1 else 10 * PowerOfTen(k - 1) }

  lemma {:induction false} DigitsCount(n: nat, k: nat)
    requires k > 0 && n < PowerOfTen(k)
    ensures |DecimalDigits(n)| <= k
    decreases k
  {
    if n >= 10 {
      assert PowerOfTen(k) == 10 * PowerOfTen(k - 1) && PowerOfTen(0) == 1;
      DigitsCount(n / 10, k - 1);
    }
  }

  lemma {:induction false} TenDigits(n: nat)
    requires n < 0x1_0000_0000
    ensures |DecimalDigits(n)| <= 10
  {
    assert PowerOfTen(2) == 100 && PowerOfTen(1) == 10;
    assert PowerOfTen(4) == 10 * PowerOfTen(3) && PowerOfTen(3) == 10 * PowerOfTen(2);
    assert PowerOfTen(6) == 10 * PowerOfTen(5) && PowerOfTen(5) == 10 * PowerOfTen(4);
    assert PowerOfTen(8) == 10 * PowerOfTen(7) && PowerOfTen(7) == 10 * PowerOfTen(6);
    assert PowerOfTen(10) == 10 * PowerOfTen(9) && PowerOfTen(9) == 10 * PowerOfTen(8);
    DigitsCount(n, 10);
  }

  lemma {:induction false} ValueSnoc(s: seq<byte>, i: nat)
    requires i < |s|
    ensures Value(s[..i + 1]) == Value(s[..i]) * 10 + s[i] - 48
  {
    assert s[..i + 1][..i] == s[..i];
  }

  // ----- every text a size field can hold

  lemma {:induction false} WrapMultiple(a: int, q: int)
    ensures Wrap32(a + 0x1_0000_0000 * q) == Wrap32(a)
  {
  }

  lemma {:induction false} WrapStep(v: int, base: int, d: int)
    ensures Wrap32(Wrap32(v) * base + d) == Wrap32(v * base + d)
  {
    var q := v / 0x1_0000_0000;
    assert v * base + d == Wrap32(v) * base + d + 0x1_0000_0000 * (q * base) by {
      assert v == Wrap32(v) + 0x1_0000_0000 * q;
    }
    WrapMultiple(Wrap32(v) * base + d, q * base);
  }

  lemma {:induction false} OneDigit(s: seq<byte>, i: nat, val: int)
    requires i < |s| && i < 11 && Digit(s[i])
    ensures DecFrom(s, i, val) == DecFrom(s, i + 1, Wrap32(val * 10 + s[i] - 48))
  {
  }

  lemma {:induction false} ZeroWraps()
    ensures Wrap32(0) == 0
  {
  }

  /** The digits in front of a text have been read. */
  lemma {:induction false} DigitsPassed(d: seq<byte>, rest: seq<byte>, i: nat)
    requires AllDigits(d) && i <= |d| && i <= 11
    ensures DecFrom(d + rest, 0, 0) == DecFrom(d + rest, i, Wrap32(Value(d[..i])))
    decreases i
  {
    hide DecFrom, Wrap32;
    if i == 0 {
      assert d[..0] == [] && Wrap32(0) == 0 by { WrapMultiple(0, 0); ZeroWraps(); }
    } else {
      DigitsPassed(d, rest, i - 1);
      ValueSnoc(d, i - 1);
      assert (d + rest)[i - 1] == d[i - 1];
      OneDigit(d + rest, i - 1, Wrap32(Value(d[..i - 1])));
      WrapStep(Value(d[..i - 1]), 10, d[i - 1] as int - 48);
    }
  }

  lemma {:induction false} NotHex(d: seq<byte>, rest: seq<byte>)
    requires AllDigits(d) && d != []
    requires |d| == 1 && d[0] == 0x30 && rest != [] ==> rest[0] != 0x78 && rest[0] != 0x58
    ensures NumberIn(d + rest) == DecFrom(d + rest, 0, 0)
  {
    hide DecFrom, HexFrom;
    var s := d + rest;
    if |s| > 1 {
      assert s[1] == if |d| > 1 then d[1] else rest[0];
    }
  }

  lemma {:induction false} TooLong(s: seq<byte>, val: int)
    ensures DecFrom(s, 11, val) == None
  {
  }

  lemma {:induction false} Behind(s: seq<byte>, n: nat, val: int)
    requires 0 < n <= |s| && n <= 10 && (n < |s| ==> !Digit(s[n]))
    ensures DecFrom(s, n, val) ==
            if n == |s| || s[n] == 0 then Some(val)
            else if s[n] == 0x4B || s[n] == 0x6B then Some(Wrap32(val * 1024))
            else if s[n] == 0x4D || s[n] == 0x6D then Some(Wrap32(val * 1048576))
            else None
  {
  }

  /**
   * A size in decimal of up to ten digits is read modulo 2^32; a K or M behind it multiplies by
   * 1024 or 1024 * 1024, anything else there refuses it, and so does an eleventh digit.
   */
  lemma {:induction false} DecimalForms(d: seq<byte>, rest: seq<byte>)
    requires AllDigits(d) && d != [] && (rest != [] ==> !Digit(rest[0]))
    requires |d| == 1 && d[0] == 0x30 && rest != [] ==> rest[0] != 0x78 && rest[0] != 0x58
    ensures NumberIn(d + rest) ==
            if |d| > 10 then None
            else if rest == [] || rest[0] == 0 then Some(Value(d) % 0x1_0000_0000)
            else if rest[0] == 0x4B || rest[0] == 0x6B then Some(Value(d) * 1024 % 0x1_0000_0000)
            else if rest[0] == 0x4D || rest[0] == 0x6D then Some(Value(d) * 1048576 % 0x1_0000_0000)
            else None
  {
    hide DecFrom, HexFrom, Value, NumberIn;
    var s, n := d + rest, |d|;
    NotHex(d, rest);
    if n > 10 {
      DigitsPassed(d, rest, 11);
      TooLong(s, Wrap32(Value(d[..11])));
    } else {
      DigitsPassed(d, rest, n);
      assert d[..n] == d && (rest != [] ==> s[n] == rest[0]);
      Behind(s, n, Wrap32(Value(d)));
      WrapStep(Value(d), 1024, 0);
      WrapStep(Value(d), 1048576, 0);
    }
  }

  /** Nothing is 0, and what begins with no digit is no number. */
  lemma {:induction false} NoDigits(s: seq<byte>)
    requires s == [] || !Digit(s[0])
    ensures NumberIn(s) == if s == [] || s[0] == 0 then Some(0) else None
  {
  }

  /** A hexadecimal digit, as a capital or a small letter from ten on. */
  function HexChar(v: nat, capital: bool): byte
    requires v < 16
  {
    if v < 10 then 0x30 + v else if capital then 0x41 + (v - 10) else 0x61 + (v - 10)
  }

  datatype Nibble = Nibble(v: nat, capital: bool)

  predicate WfNibbles(h: seq<Nibble>) { forall k :: 0 <= k < |h| ==> h[k].v < 16 }

  function HexText(h: seq<Nibble>): (s: seq<byte>)
    requires WfNibbles(h)
    ensures |s| == |h|
  {
    seq(|h|, k requires 0 <= k < |h| => HexChar(h[k].v, h[k].capital))
  }

  function Number(h: seq<Nibble>): nat {
    if h == [] then 0 else Number(h[..|h| - 1]) * 16 + h[|h| - 1].v
  }

  lemma {:induction false} OneHex(s: seq<byte>, i: nat, val: int, v: nat, capital: bool)
    requires i < |s| && i < 11 && v < 16 && s[i] == HexChar(v, capital)
    ensures HexFrom(s, i, val) == HexFrom(s, i + 1, Wrap32(val * 16 + v))
  {
  }

  lemma {:induction false} HexPassed(h: seq<Nibble>, s: seq<byte>, i: nat)
    requires WfNibbles(h) && i <= |h| && i <= 9 && |s| >= 2 + |h| && s[2..2 + |h|] == HexText(h)
    ensures HexFrom(s, 2, 0) == HexFrom(s, 2 + i, Wrap32(Number(h[..i])))
    decreases i
  {
    hide HexFrom, HexChar, Wrap32;
    if i == 0 {
      ZeroWraps();
      assert h[..0] == [];
    } else {
      HexPassed(h, s, i - 1);
      assert s[2..2 + |h|][i - 1] == s[1 + i];
      assert h[..i][..i - 1] == h[..i - 1];
      OneHex(s, 1 + i, Wrap32(Number(h[..i - 1])), h[i - 1].v, h[i - 1].capital);
      WrapStep(Number(h[..i - 1]), 16, h[i - 1].v);
    }
  }

  lemma {:induction false} HexNonZero(v: nat, capital: bool)
    requires v < 16
    ensures HexChar(v, capital) != 0
  {
  }

  lemma {:induction false} HexOver(s: seq<byte>, val: int)
    requires |s| > 11 && s[11] != 0
    ensures HexFrom(s, 11, val) == None
  {
  }

  lemma {:induction false} HexCharOf(c: byte) returns (v: nat, capital: bool)
    requires IsHex(c)
    ensures v < 16 && c == HexChar(v, capital)
  {
    v := HexValue(c);
    capital := c < 97;
  }

  lemma {:induction false} HexBehind(s: seq<byte>, n: nat, val: int)
    requires 2 <= n <= |s| && n <= 11 && (n < |s| ==> !IsHex(s[n]))
    ensures HexFrom(s, n, val) == if n == |s| || s[n] == 0 then Some(val) else None
  {
  }

  /** Behind 0x or 0X up to nine hexadecimal digits are read modulo 2^32, and nothing but digits and a NUL may follow. */
  lemma {:induction false} HexForms(x: byte, h: seq<Nibble>, rest: seq<byte>)
    requires (x == 0x78 || x == 0x58) && WfNibbles(h)
    requires rest != [] ==> forall v: nat, capital: bool :: v < 16 ==> rest[0] != HexChar(v, capital)
    ensures NumberIn([0x30, x] + HexText(h) + rest) ==
            if |h| <= 9 && (rest == [] || rest[0] == 0) then Some(Number(h) % 0x1_0000_0000) else None
  {
    hide HexFrom, DecFrom, HexChar, Number;
    var s, n := [0x30, x] + HexText(h) + rest, |h|;
    assert s[0] == 0x30 && s[1] == x && s[2..2 + n] == HexText(h);
    if n > 9 {
      HexPassed(h, s, 9);
      assert s[2..2 + n][9] == s[11] && s[11] == HexChar(h[9].v, h[9].capital);
      HexNonZero(h[9].v, h[9].capital);
      HexOver(s, Wrap32(Number(h[..9])));
    } else {
      HexPassed(h, s, n);
      assert h[..n] == h && (rest != [] ==> s[2 + n] == rest[0]);
      if rest != [] && IsHex(rest[0]) {
        var v, capital := HexCharOf(rest[0]);
      }
      HexBehind(s, 2 + n, Wrap32(Number(h)));
    }
  }

  // ----- a sender's header

  lemma {:induction false} NameEnds(data: seq<byte>, i: nat)
    requires i <= 63 < |data|
    ensures var n := NameLength(data, i); (n == 63 || data[n] == 0) && forall k | i <= k < n :: data[k] != 0
    decreases 63 - i
  {
    if i < 63 && data[i] != 0 {
      NameEnds(data, i + 1);
    }
  }

  lemma {:induction false} SizeEnds(data: seq<byte>, at: nat, i: nat)
    requires i <= 15 && at + 15 < |data|
    ensures var n := SizeEnd(data, at, i); (n == 15 || data[at + n] == 32) && forall k | at + i <= k < at + n :: data[k] != 32
    decreases 15 - i
  {
    if i < 15 && data[at + i] != 32 {
      SizeEnds(data, at, i + 1);
    }
  }

  /** Name and size in any header: up to a NUL or 63 bytes, then one is skipped, then up to a space or 15 bytes. */
  lemma {:induction false} FieldsOf(data: seq<byte>, was: int) returns (n: nat, m: nat)
    requires |data| >= 128
    ensures n <= 63 && (n == 63 || data[n] == 0) && forall k | 0 <= k < n :: data[k] != 0
    ensures m <= 15 && (m == 15 || data[n + 1 + m] == 32) && forall k | n + 1 <= k < n + 1 + m :: data[k] != 32
    ensures var field := NumberIn(data[n + 1..n + 1 + m]); DeclaredSize(data, was) == if field.Some? then field.value else was
  {
    hide NumberIn;
    n := NameLength(data, 0);
    m := SizeEnd(data, n + 1, 0);
    NameEnds(data, 0);
    SizeEnds(data, n + 1, 0);
  }

  /** A header packet's data: name, NUL, size in decimal, space, anything. */
  function Header(name: seq<byte>, size: nat, more: seq<byte>): seq<byte> {
    name + [0] + DecimalDigits(size) + [32] + more
  }

  lemma {:induction false} NameRead(data: seq<byte>, n: nat, i: nat)
    requires i <= n <= 63 < |data| && data[n] == 0 && forall k :: 0 <= k < n ==> data[k] != 0
    ensures NameLength(data, i) == n
    decreases n - i
  {
    if i < n {
      NameRead(data, n, i + 1);
    }
  }

  lemma {:induction false} SizeRead(data: seq<byte>, at: nat, n: nat, i: nat)
    requires i <= n <= 14 && at + 15 < |data| && data[at + n] == 32 && forall k :: at <= k < at + n ==> data[k] != 32
    ensures SizeEnd(data, at, i) == n
    decreases n - i
  {
    if i < n {
      SizeRead(data, at, n, i + 1);
    }
  }

  /** The receiver reads from a header exactly the size the sender wrote into it, whatever the name. */
  lemma {:induction false} HeaderUnderstood(name: seq<byte>, size: nat, more: seq<byte>, was: int)
    requires |name| <= 63 && (forall k :: 0 <= k < |name| ==> name[k] != 0) && size < 0x1_0000_0000
    requires |Header(name, size, more)| >= PACKET_SIZE
    ensures DeclaredSize(Header(name, size, more), was) == size
  {
    hide NumberIn, DecimalDigits, NameLength, SizeEnd, Value;
    var data, digits, at := Header(name, size, more), DecimalDigits(size), |name| + 1;
    DigitsValue(size);
    TenDigits(size);
    assert forall k :: at <= k < at + |digits| ==> data[k] == digits[k - at];
    NameRead(data, |name|, 0);
    SizeRead(data, at, |digits|, 0);
    assert data[at..at + |digits|] == digits;
    DecimalForms(digits, []);
    assert digits + [] == digits;
  }
}
