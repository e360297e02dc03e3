/** The UTF-8 code point scanner of core_json.c. */
module Utf8 {
  import opened Bytes

  predicate IsTail(b: byte) { 0x80 <= b <= 0xBF }

  /** UTF8-2 / UTF8-3 / UTF8-4 of section 4 of RFC 3629. */
  predicate IsMultiByte(s: seq<byte>) {
    || (|s| == 2 && 0xC2 <= s[0] <= 0xDF && IsTail(s[1]))
    || (|s| == 3 && IsTail(s[2]) &&
        ( || (s[0] == 0xE0 && 0xA0 <= s[1] <= 0xBF)
          || (0xE1 <= s[0] <= 0xEC && IsTail(s[1]))
          || (s[0] == 0xED && 0x80 <= s[1] <= 0x9F)
          || (0xEE <= s[0] <= 0xEF && IsTail(s[1]))))
    || (|s| == 4 && IsTail(s[2]) && IsTail(s[3]) &&
        ( || (s[0] == 0xF0 && 0x90 <= s[1] <= 0xBF)
          || (0xF1 <= s[0] <= 0xF3 && IsTail(s[1]))
          || (s[0] == 0xF4 && 0x80 <= s[1] <= 0x8F)))
  }

  /** The encoding table of section 3 of RFC 3629. */
  function Encode(v: nat): (s: seq<byte>)
    requires 0x80 <= v <= 0x10FFFF
  {
    if v < 0x800 then [0xC0 + v / 64, 0x80 + v % 64]
    else if v < 0x10000 then [0xE0 + v / 4096, 0x80 + v / 64 % 64, 0x80 + v % 64]
    else [0xF0 + v / 262144, 0x80 + v / 4096 % 64, 0x80 + v / 64 % 64, 0x80 + v % 64]
  }

  /** A multi-byte code point of `n` bytes stands at `i`. */
  predicate CodePointAt(buf: seq<byte>, i: nat, n: nat) {
    i + n <= |buf| && IsMultiByte(buf[i..i + n])
  }

  /** The end of the multi-byte code point starting at `i`, if there is one. */
  function MultiEnd(buf: seq<byte>, i: nat): Option<nat> {
    if CodePointAt(buf, i, 2) then Some(i + 2)
    else if CodePointAt(buf, i, 3) then Some(i + 3)
    else if CodePointAt(buf, i, 4) then Some(i + 4)
    else None
  }

  /** No multi-byte code point is a prefix of another, so the end is the only possible one. */
  lemma MultiEndUnique(buf: seq<byte>, i: nat, n: nat)
    requires CodePointAt(buf, i, n)
    ensures MultiEnd(buf, i) == Some(i + n)
  {
    var s := buf[i..i + n];
    assert s[0] == buf[i];
    if n > 2 { assert buf[i..i + 2][0] == buf[i]; }
    if n > 3 { assert buf[i..i + 3][0] == buf[i]; }
  }

  function HighBits(c: byte): nat {
    if c >= 128 then 1 + HighBits(c % 128 * 2) else 0
  }

  lemma HighBitsStep(c: byte)
    ensures c < 128 ==> HighBits(c) == 0
    ensures c >= 128 ==> HighBits(c) == 1 + HighBits(2 * (c - 128))
  {
    assert c >= 128 ==> c % 128 * 2 == 2 * (c - 128);
  }

  lemma HighBitsOf(c: byte)
    requires 0xC1 < c < 0xF5
    ensures HighBits(c) == if c < 0xE0 then 2 else if c < 0xF0 then 3 else 4
  {
    hide HighBits;
    var c1: byte := 2 * (c - 128);
    var c2: byte := 2 * (c1 - 128);
    HighBitsStep(c);
    HighBitsStep(c1);
    HighBitsStep(c2);
    if c >= 0xE0 {
      var c3: byte := 2 * (c2 - 128);
      HighBitsStep(c3);
      if c >= 0xF0 {
        HighBitsStep(2 * (c3 - 128));
      }
    }
  }

  method CountHighBits(c: byte) returns (i: nat)
    ensures i == HighBits(c)
  {
    var n: byte := c;
    i := 0;
    while n >= 128
      invariant i + HighBits(n) == HighBits(c)
      decreases n
    {
      i := i + 1;
      n := n % 128 * 2;
    }
  }

  /** Shortest-form and surrogate test on a decoded value. */
  predicate ShortestUTF8(length: nat, value: nat) {
    var min := if length == 2 then 0x80 else if length == 3 then 0x800 else 0x10000;
    var max := if length == 2 then 0x7FF else if length == 3 then 0xFFFF else 0x10FFFF;
    min <= value <= max && (value < 0xD800 || value > 0xDFFF)
  }

  function LeadMask(bitCount: nat): nat {
    if bitCount == 2 then 32 else if bitCount == 3 then 16 else 8
  }

  /** What the scanner has accumulated after the bytes `s` of an n-byte sequence. */
  function Accumulated(s: seq<byte>, n: nat): nat
    requires |s| > 0
  {
    if |s| == 1 then s[0] % LeadMask(n)
    else Accumulated(s[..|s| - 1], n) * 64 + s[|s| - 1] % 64
  }

  lemma AccumulatedIs(s: seq<byte>, n: nat)
    requires 2 <= |s| <= 4
    ensures |s| == 2 ==> Accumulated(s, n) == s[0] % LeadMask(n) * 64 + s[1] % 64
    ensures |s| == 3 ==> Accumulated(s, n) == (s[0] % LeadMask(n) * 64 + s[1] % 64) * 64 + s[2] % 64
    ensures |s| == 4 ==> Accumulated(s, n) == ((s[0] % LeadMask(n) * 64 + s[1] % 64) * 64 + s[2] % 64) * 64 + s[3] % 64
  {
    var t := s[..|s| - 1];
    if |t| > 1 {
      AccumulatedIs(t, n);
    }
  }

  lemma TwoBytes(a: byte, b: byte, v: nat)
    requires 0xC1 < a < 0xE0 && IsTail(b) && v == a % 32 * 64 + b % 64
    ensures ShortestUTF8(2, v) && 0x80 <= v < 0x800 && Encode(v) == [a, b]
  {
    assert v / 64 == a % 32 && v % 64 == b % 64;
  }

  lemma ThreeBytes(a: byte, b: byte, c: byte, v: nat)
    requires 0xE0 <= a < 0xF0 && IsTail(b) && IsTail(c)
    requires v == (a % 16 * 64 + b % 64) * 64 + c % 64
    ensures ShortestUTF8(3, v) <==> IsMultiByte([a, b, c])
    ensures 0x800 <= v < 0x10000 ==> Encode(v) == [a, b, c]
  {
    var w := a % 16 * 64 + b % 64;
    assert v / 64 == w && v % 64 == c % 64;
    assert w / 64 == a % 16 && w % 64 == b % 64;
    assert v / 4096 == w / 64;
  }

  lemma FourBytes(a: byte, b: byte, c: byte, d: byte, v: nat)
    requires 0xF0 <= a < 0xF5 && IsTail(b) && IsTail(c) && IsTail(d)
    requires v == ((a % 8 * 64 + b % 64) * 64 + c % 64) * 64 + d % 64
    ensures ShortestUTF8(4, v) <==> IsMultiByte([a, b, c, d])
    ensures 0x10000 <= v <= 0x10FFFF ==> Encode(v) == [a, b, c, d]
  {
    var w := a % 8 * 64 + b % 64;
    var x := w * 64 + c % 64;
    assert v / 64 == x && v % 64 == d % 64;
    assert x / 64 == w && x % 64 == c % 64;
    assert w / 64 == a % 8 && w % 64 == b % 64;
    assert v / 4096 == x / 64 && v / 262144 == w / 64;
  }

  /** The arithmetic test accepts exactly the byte patterns of the ABNF, and decoding inverts encoding. */
  lemma ShortestIsAbnf(s: seq<byte>)
    requires 2 <= |s| <= 4 && 0xC1 < s[0] < 0xF5 && HighBits(s[0]) == |s|
    requires forall k | 1 <= k < |s| :: IsTail(s[k])
    ensures ShortestUTF8(|s|, Accumulated(s, |s|)) <==> IsMultiByte(s)
    ensures IsMultiByte(s) ==> 0x80 <= Accumulated(s, |s|) <= 0x10FFFF && Encode(Accumulated(s, |s|)) == s
  {
    AccumulatedIs(s, |s|);
    HighBitsOf(s[0]);
    var v := Accumulated(s, |s|);
    if |s| == 2 {
      assert s == [s[0], s[1]];
      TwoBytes(s[0], s[1], v);
    } else if |s| == 3 {
      assert s == [s[0], s[1], s[2]];
      ThreeBytes(s[0], s[1], s[2], v);
    } else {
      assert s == [s[0], s[1], s[2], s[3]];
      FourBytes(s[0], s[1], s[2], s[3], v);
    }
  }

  /** What a code point that stands here says of the bytes: its lead byte fixes its length, and tails follow. */
  lemma CodePointShape(buf: seq<byte>, i: nat, n: nat)
    requires CodePointAt(buf, i, n)
    ensures 2 <= n <= 4 && i + n <= |buf| && 0xC1 < buf[i] < 0xF5 && n == HighBits(buf[i])
    ensures forall k | i < k < i + n :: IsTail(buf[k])
    ensures IsMultiByte(buf[i..i + n])
  {
    hide HighBits;
    var s := buf[i..i + n];
    assert s[0] == buf[i] && s[1] == buf[i + 1];
    if n > 2 {
      assert s[2] == buf[i + 2];
    }
    if n > 3 {
      assert s[3] == buf[i + 3];
    }
    HighBitsOf(buf[i]);
  }

  lemma CodePointIs(buf: seq<byte>, i: nat, n: nat)
    ensures CodePointAt(buf, i, n) <==> i + n <= |buf| && IsMultiByte(buf[i..i + n])
  {
    hide IsMultiByte;
  }

  lemma NoCodePoint(buf: seq<byte>, i: nat)
    requires forall n :: !CodePointAt(buf, i, n)
    ensures MultiEnd(buf, i) == None
  {
  }

  /** Advance beyond one multi-byte code point; `value` is the accumulated code point. */
  method SkipUTF8MultiByte(buf: seq<byte>, start: nat) returns (ok: bool, end: nat, value: nat)
    requires start < |buf| && buf[start] >= 0x80
    ensures ok <==> exists n :: CodePointAt(buf, start, n)
    ensures ok ==> start < end && CodePointAt(buf, start, end - start)
    ensures ok ==> 0x80 <= value <= 0x10FFFF && Encode(value) == buf[start..end]
    ensures !ok ==> end == start
    ensures MultiEnd(buf, start) == if ok then Some(end) else None
  {
    hide Encode, HighBits, IsMultiByte, CodePointAt, MultiEnd;
    ok, end, value := false, start, 0;
    var i := start;
    var c := buf[i];
    if c > 0xC1 && c < 0xF5 {
      var bitCount := CountHighBits(c);
      HighBitsOf(c);
      value := c % LeadMask(bitCount);
      var j := bitCount - 1;
      while j > 0
        invariant 0 <= j < bitCount && i == start + (bitCount - 1 - j) < |buf|
        invariant forall k | start < k <= i :: IsTail(buf[k])
        invariant value == Accumulated(buf[start..i + 1], bitCount)
      {
        if i + 1 >= |buf| || !IsTail(buf[i + 1]) {
          break;
        }
        i := i + 1;
        assert buf[start..i + 1][..i - start] == buf[start..i];
        value := value * 64 + buf[i] % 64;
        j := j - 1;
      }
      if j == 0 {
        var s := buf[start..i + 1];
        ShortestIsAbnf(s);
        if ShortestUTF8(bitCount, value) {
          end := i + 1;
          ok := true;
          assert CodePointAt(buf, start, bitCount) by { CodePointIs(buf, start, bitCount); }
          MultiEndUnique(buf, start, bitCount);
          return;
        }
      }
    }
    forall n | CodePointAt(buf, start, n)
      ensures false
    {
      CodePointShape(buf, start, n);
    }
    NoCodePoint(buf, start);
  }
}
