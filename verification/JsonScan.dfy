/** The token scanners of core_json.c. */
module JsonScan {
  import opened Bytes
  import opened JsonGrammar
  import Utf8

  // Each `skipX` is a method over an index, proved against a function `XEnd` giving the index after the token;
  // JsonTokens relates those functions to the grammar.

  newtype int32 = x: int | -0x8000_0000 <= x < 0x8000_0000

  const MAX_INDEX_VALUE := 0x7FFF_FFF7
  const MAX_FACTOR: int32 := 214748363  // MAX_INDEX_VALUE / 10

  // ----- specification functions

  function SpaceEnd(buf: seq<byte>, i: nat): (e: nat)
    ensures i <= e && (i <= |buf| ==> e <= |buf|)
    ensures e < |buf| ==> !IsSpace(buf[e])
    ensures i < |buf| && !IsSpace(buf[i]) ==> e == i
    decreases |buf| - i
  {
    if i < |buf| && IsSpace(buf[i]) then SpaceEnd(buf, i + 1) else i
  }

  function DigitsEnd(buf: seq<byte>, i: nat): (e: nat)
    ensures i <= e && (i <= |buf| ==> e <= |buf|)
    ensures e < |buf| ==> !IsDigit(buf[e])
    decreases |buf| - i
  {
    if i < |buf| && IsDigit(buf[i]) then DigitsEnd(buf, i + 1) else i
  }

  lemma {:induction false} SpacesAre(buf: seq<byte>, i: nat)
    requires i <= |buf|
    ensures AllSpace(buf[i..SpaceEnd(buf, i)])
    decreases |buf| - i
  {
    if i < |buf| && IsSpace(buf[i]) {
      SpacesAre(buf, i + 1);
      assert buf[i..SpaceEnd(buf, i)] == [buf[i]] + buf[i + 1..SpaceEnd(buf, i)];
    }
  }

  lemma {:induction false} DigitsAre(buf: seq<byte>, i: nat)
    requires i <= |buf|
    ensures AllDigits(buf[i..DigitsEnd(buf, i)])
    decreases |buf| - i
  {
    if i < |buf| && IsDigit(buf[i]) {
      DigitsAre(buf, i + 1);
      assert buf[i..DigitsEnd(buf, i)] == [buf[i]] + buf[i + 1..DigitsEnd(buf, i)];
    }
  }

  /** A `\uXXXX` escape with a nonzero value, not at the very end of the buffer. */
  predicate OneHex(buf: seq<byte>, i: nat) {
    && i + 6 < |buf| && buf[i] == BACKSLASH && buf[i + 1] == LOWER_U
    && IsHex4(buf[i + 2..i + 6]) && HexValue(buf[i + 2..i + 6]) > 0
  }

  function HexEnd(buf: seq<byte>, i: nat): Option<nat> {
    if !OneHex(buf, i) then None
    else
      var v := HexValue(buf[i + 2..i + 6]);
      if IsHighSurrogate(v) then
        if OneHex(buf, i + 6) && IsLowSurrogate(HexValue(buf[i + 8..i + 12])) then Some(i + 12) else None
      else if IsLowSurrogate(v) then None
      else Some(i + 6)
  }

  function EscapeEnd(buf: seq<byte>, i: nat): Option<nat> {
    if i + 1 < |buf| && buf[i] == BACKSLASH then
      var c := buf[i + 1];
      if c == LOWER_U then HexEnd(buf, i)
      else if IsShortEscape(c) || 0 < c < 0x20 then Some(i + 2)
      else None
    else None
  }

  function UnitEnd(buf: seq<byte>, i: nat): (e: Option<nat>)
    requires i < |buf|
    ensures e.Some? ==> i < e.value <= |buf|
  {
    if buf[i] == BACKSLASH then EscapeEnd(buf, i)
    else if buf[i] < 0x20 then None
    else if buf[i] < 0x80 then Some(i + 1)
    else Utf8.MultiEnd(buf, i)
  }

  /** From inside a string: the index after its closing quote. */
  function UnitsEnd(buf: seq<byte>, i: nat): (e: Option<nat>)
    ensures e.Some? ==> i < e.value <= |buf|
    decreases |buf| - i
  {
    if i >= |buf| then None
    else if buf[i] == QUOTE then Some(i + 1)
    else
      match UnitEnd(buf, i)
      case None => None
      case Some(j) => UnitsEnd(buf, j)
  }

  function StringEnd(buf: seq<byte>, i: nat): (e: Option<nat>)
    ensures e.Some? ==> i + 1 < e.value <= |buf| && buf[i] == QUOTE
  {
    if i < |buf| && buf[i] == QUOTE then UnitsEnd(buf, i + 1) else None
  }

  predicate StartsWith(buf: seq<byte>, i: nat, s: seq<byte>) {
    i + |s| <= |buf| && buf[i..i + |s|] == s
  }

  function LiteralEnd(buf: seq<byte>, i: nat): Option<nat> {
    if StartsWith(buf, i, TRUE) then Some(i + 4)
    else if StartsWith(buf, i, FALSE) then Some(i + 5)
    else if StartsWith(buf, i, NULL) then Some(i + 4)
    else None
  }

  function DecimalsEnd(buf: seq<byte>, i: nat): (e: nat)
    ensures i <= e && (i <= |buf| ==> e <= |buf|)
  {
    if i < |buf| && buf[i] == DOT && DigitsEnd(buf, i + 1) > i + 1 then DigitsEnd(buf, i + 1) else i
  }

  function ExponentEnd(buf: seq<byte>, i: nat): (e: nat)
    ensures i <= e && (i <= |buf| ==> e <= |buf|)
  {
    if i < |buf| && IsExpMark(buf[i]) then
      var j := if i + 1 < |buf| && (buf[i + 1] == MINUS || buf[i + 1] == PLUS) then i + 2 else i + 1;
      if DigitsEnd(buf, j) > j then DigitsEnd(buf, j) else i
    else i
  }

  function NumberEnd(buf: seq<byte>, i: nat): (e: Option<nat>)
    ensures e.Some? ==> i < e.value <= |buf|
  {
    var j := if i < |buf| && buf[i] == MINUS then i + 1 else i;
    if j >= |buf| then None
    else
      var k := if buf[j] == ZERO then j + 1 else DigitsEnd(buf, j);
      if k > j then Some(ExponentEnd(buf, DecimalsEnd(buf, k))) else None
  }

  function ScalarEnd(buf: seq<byte>, i: nat): (e: Option<nat>)
    ensures e.Some? ==> i < e.value <= |buf|
  {
    if StringEnd(buf, i).Some? then StringEnd(buf, i)
    else if LiteralEnd(buf, i).Some? then LiteralEnd(buf, i)
    else NumberEnd(buf, i)
  }

  function EndOr(e: Option<nat>, start: nat): nat { if e.Some? then e.value else start }

  // ----- the scanners

  method SkipSpace(buf: seq<byte>, start: nat) returns (end: nat)
    ensures end == SpaceEnd(buf, start)
  {
    end := start;
    while end < |buf|
      invariant SpaceEnd(buf, end) == SpaceEnd(buf, start)
    {
      if !IsSpace(buf[end]) {
        break;
      }
      end := end + 1;
    }
  }

  method SkipUTF8(buf: seq<byte>, start: nat) returns (ok: bool, end: nat)
    ensures start >= |buf| ==> !ok
    ensures start < |buf| ==>
      var e := if buf[start] < 0x80 then Some(start + 1) else Utf8.MultiEnd(buf, start);
      ok == e.Some? && end == EndOr(e, start)
  {
    ok, end := false, start;
    if start < |buf| {
      if buf[start] < 0x80 {
        ok, end := true, start + 1;
      } else {
        var value;
        ok, end, value := Utf8.SkipUTF8MultiByte(buf, start);
      }
    }
  }

  const NOT_A_HEX_CHAR: byte := 0x10

  function HexToInt(c: byte): (n: byte)
    ensures n != NOT_A_HEX_CHAR <==> IsHex(c)
    ensures IsHex(c) ==> n == HexDigit(c)
  {
    if 0x61 <= c <= 0x66 then c - 0x61 + 10
    else if 0x41 <= c <= 0x46 then c - 0x41 + 10
    else if IsDigit(c) then c - 0x30
    else NOT_A_HEX_CHAR
  }

  function HexPrefix(h: seq<byte>): nat
    requires forall k | 0 <= k < |h| :: IsHex(h[k])
  {
    if h == [] then 0 else HexPrefix(h[..|h| - 1]) * 16 + HexDigit(h[|h| - 1])
  }

  lemma HexPrefixIs(h: seq<byte>)
    requires IsHex4(h)
    ensures forall k | 0 <= k < |h| :: IsHex(h[k])
    ensures HexPrefix(h) == HexValue(h)
  {
    var h3, h2, h1 := h[..3], h[..2], h[..1];
    assert h3[..2] == h2 && h2[..1] == h1 && h1[..0] == [];
    assert HexPrefix(h1) == HexDigit(h[0]);
    assert HexPrefix(h2) == HexDigit(h[0]) * 16 + HexDigit(h[1]);
    assert HexPrefix(h3) == HexPrefix(h2) * 16 + HexDigit(h[2]);
  }

  method SkipOneHexEscape(buf: seq<byte>, start: nat) returns (ok: bool, end: nat, value: nat)
    ensures ok <==> OneHex(buf, start)
    ensures ok ==> end == start + 6 && value == HexValue(buf[start + 2..start + 6])
    ensures !ok ==> end == start
  {
    ok, end, value := false, start, 0;
    var i, stop := start, start + 6;
    if stop < |buf| && buf[i] == BACKSLASH && buf[i + 1] == LOWER_U {
      i := i + 2;
      while i < stop
        invariant start + 2 <= i <= stop
        invariant forall k | start + 2 <= k < i :: IsHex(buf[k])
        invariant value == HexPrefix(buf[start + 2..i])
      {
        var n := HexToInt(buf[i]);
        if n == NOT_A_HEX_CHAR {
          break;
        }
        assert buf[start + 2..i + 1][..i - start - 2] == buf[start + 2..i];
        value := value * 16 + n;
        i := i + 1;
      }
      if i == stop {
        HexPrefixIs(buf[start + 2..stop]);
      } else {
        assert !IsHex(buf[start + 2..stop][i - start - 2]);
      }
    }
    if i == stop && value > 0 {
      ok, end := true, i;
    }
  }

  method SkipHexEscape(buf: seq<byte>, start: nat) returns (ok: bool, end: nat)
    ensures ok == HexEnd(buf, start).Some? && end == EndOr(HexEnd(buf, start), start)
  {
    ok, end := false, start;
    var one, i, value := SkipOneHexEscape(buf, start);
    if one {
      if IsHighSurrogate(value) {
        one, i, value := SkipOneHexEscape(buf, i);
        if one && IsLowSurrogate(value) {
          ok := true;
        }
      } else if IsLowSurrogate(value) {
        // premature low surrogate
      } else {
        ok := true;
      }
    }
    if ok {
      end := i;
    }
  }

  method SkipEscape(buf: seq<byte>, start: nat) returns (ok: bool, end: nat)
    ensures ok == EscapeEnd(buf, start).Some? && end == EndOr(EscapeEnd(buf, start), start)
  {
    ok, end := false, start;
    if start + 1 < |buf| && buf[start] == BACKSLASH {
      var c := buf[start + 1];
      if c == 0 {
      } else if c == LOWER_U {
        ok, end := SkipHexEscape(buf, start);
      } else if IsShortEscape(c) {
        ok, end := true, start + 2;
      } else if c < 0x20 {
        ok, end := true, start + 2;
      }
    }
  }

  method SkipString(buf: seq<byte>, start: nat) returns (ok: bool, end: nat)
    ensures ok == StringEnd(buf, start).Some? && end == EndOr(StringEnd(buf, start), start)
  {
    ok, end := false, start;
    if start < |buf| && buf[start] == QUOTE {
      var i := start + 1;
      while i < |buf|
        invariant start < i
        invariant UnitsEnd(buf, i) == UnitsEnd(buf, start + 1)
        decreases |buf| - i
      {
        if buf[i] == QUOTE {
          return true, i + 1;
        }
        var unit, j := false, i;
        if buf[i] == BACKSLASH {
          unit, j := SkipEscape(buf, i);
        } else if buf[i] < 0x20 {
          unit := false;
        } else {
          unit, j := SkipUTF8(buf, i);
        }
        if !unit {
          break;
        }
        i := j;
      }
    }
  }

  method StrnEq(a: seq<byte>, b: seq<byte>, n: nat) returns (eq: bool)
    requires n <= |a| && n <= |b|
    ensures eq <==> a[..n] == b[..n]
  {
    var i := 0;
    while i < n
      invariant i <= n && a[..i] == b[..i]
    {
      if a[i] != b[i] {
        assert a[..n][i] != b[..n][i];
        return false;
      }
      i := i + 1;
    }
    return true;
  }

  method SkipLiteral(buf: seq<byte>, start: nat, literal: seq<byte>) returns (ok: bool, end: nat)
    requires literal != []
    ensures ok <==> StartsWith(buf, start, literal)
    ensures end == if ok then start + |literal| else start
  {
    ok, end := false, start;
    if start < |buf| && |literal| <= |buf| - start {
      ok := StrnEq(buf[start..], literal, |literal|);
      assert buf[start..][..|literal|] == buf[start..start + |literal|];
    }
    if ok {
      end := start + |literal|;
    }
  }

  method SkipAnyLiteral(buf: seq<byte>, start: nat) returns (ok: bool, end: nat)
    ensures ok == LiteralEnd(buf, start).Some? && end == EndOr(LiteralEnd(buf, start), start)
  {
    ok, end := SkipLiteral(buf, start, TRUE);
    if !ok {
      ok, end := SkipLiteral(buf, start, FALSE);
      if !ok {
        ok, end := SkipLiteral(buf, start, NULL);
      }
    }
  }

  /** The value of a digit string. */
  function Decimal(s: seq<byte>): nat
    requires AllDigits(s)
  {
    if s == [] then 0 else Decimal(s[..|s| - 1]) * 10 + (s[|s| - 1] - 0x30)
  }

  /** What skipDigits outputs: the exact value, or -1 when it is beyond MAX_INDEX_VALUE. */
  function IndexOf(s: seq<byte>): (v: int)
    requires AllDigits(s)
    ensures -1 <= v <= MAX_INDEX_VALUE
  {
    if Decimal(s) <= MAX_INDEX_VALUE then Decimal(s) else -1
  }

  lemma {:induction false} NoIndex(buf: seq<byte>, start: nat)
    ensures start <= |buf| ==> AllDigits(buf[start..start]) && IndexOf(buf[start..start]) == 0
  {
  }

  lemma {:induction false} NextIndex(buf: seq<byte>, start: nat, i: nat)
    requires start <= i < |buf| && AllDigits(buf[start..i]) && IsDigit(buf[i])
    ensures AllDigits(buf[start..i + 1])
    ensures var v := IndexOf(buf[start..i]);
            IndexOf(buf[start..i + 1]) == if 0 <= v <= MAX_FACTOR as int then v * 10 + (buf[i] - 0x30) else -1
  {
    var s := buf[start..i + 1];
    assert s[..|s| - 1] == buf[start..i] && s[|s| - 1] == buf[i];
    assert s == buf[start..i] + [buf[i]];
  }

  /** Advance beyond digits, computing their value in 32-bit signed arithmetic that never overflows. */
  method SkipDigits(buf: seq<byte>, start: nat) returns (ok: bool, end: nat, value: int32)
    ensures end == DigitsEnd(buf, start) && ok == (end > start)
    ensures start <= |buf| ==> AllDigits(buf[start..end]) && value as int == IndexOf(buf[start..end])
  {
    hide AllDigits, IndexOf;
    var i := start;
    value := 0;
    NoIndex(buf, start);
    while i < |buf|
      invariant start <= i && (start <= |buf| ==> i <= |buf|)
      invariant DigitsEnd(buf, i) == DigitsEnd(buf, start)
      invariant start <= |buf| ==> AllDigits(buf[start..i]) && value as int == IndexOf(buf[start..i])
    {
      if !IsDigit(buf[i]) {
        break;
      }
      NextIndex(buf, start, i);
      if value > -1 {
        var n := HexToInt(buf[i]) as int32;
        if value <= MAX_FACTOR {
          value := value * 10 + n;
        } else {
          value := -1;
        }
      }
      i := i + 1;
    }
    end := i;
    ok := i > start;
  }

  method SkipDecimals(buf: seq<byte>, start: nat) returns (end: nat)
    ensures end == DecimalsEnd(buf, start)
  {
    end := start;
    if start < |buf| && buf[start] == DOT {
      var ok, i, _ := SkipDigits(buf, start + 1);
      if ok {
        end := i;
      }
    }
  }

  method SkipExponent(buf: seq<byte>, start: nat) returns (end: nat)
    ensures end == ExponentEnd(buf, start)
  {
    end := start;
    var i := start;
    if i < |buf| && IsExpMark(buf[i]) {
      i := i + 1;
      if i < |buf| && (buf[i] == MINUS || buf[i] == PLUS) {
        i := i + 1;
      }
      var ok, j, _ := SkipDigits(buf, i);
      if ok {
        end := j;
      }
    }
  }

  method SkipNumber(buf: seq<byte>, start: nat) returns (ok: bool, end: nat)
    ensures ok == NumberEnd(buf, start).Some? && end == EndOr(NumberEnd(buf, start), start)
  {
    ok, end := false, start;
    var i := start;
    if i < |buf| && buf[i] == MINUS {
      i := i + 1;
    }
    if i < |buf| {
      if buf[i] == ZERO {
        ok := true;
        i := i + 1;
      } else {
        var value;
        ok, i, value := SkipDigits(buf, i);
      }
    }
    if ok {
      i := SkipDecimals(buf, i);
      end := SkipExponent(buf, i);
    }
  }

  method SkipAnyScalar(buf: seq<byte>, start: nat) returns (ok: bool, end: nat)
    ensures ok == ScalarEnd(buf, start).Some? && end == EndOr(ScalarEnd(buf, start), start)
  {
    ok, end := SkipString(buf, start);
    if !ok {
      ok, end := SkipAnyLiteral(buf, start);
      if !ok {
        ok, end := SkipNumber(buf, start);
      }
    }
  }
}
