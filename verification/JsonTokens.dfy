/**
 * The scanners accept exactly the tokens of the grammar.
 *
 * For strings, escapes, numbers and literals, each in both directions: a derived token that
 * stands in the buffer is scanned to its end, and what is scanned has a derivation with that
 * text. Numbers need to know that no digit follows.
 */
module JsonTokens {
  import opened Bytes
  import opened JsonGrammar
  import opened JsonScan
  import Utf8

  // ----- white space and digits stop where the run ends

  lemma {:induction false} SpaceRun(buf: seq<byte>, i: nat, ws: seq<byte>)
    requires At(buf, i, ws) && AllSpace(ws)
    ensures SpaceEnd(buf, i) == SpaceEnd(buf, i + |ws|)
    ensures i + |ws| < |buf| && !IsSpace(buf[i + |ws|]) ==> SpaceEnd(buf, i) == i + |ws|
    ensures i + |ws| == |buf| ==> SpaceEnd(buf, i) == i + |ws|
    decreases |ws|
  {
    if ws != [] {
      AtByte(buf, i, ws, 0);
      assert At(buf, i + 1, ws[1..]);
      SpaceRun(buf, i + 1, ws[1..]);
    }
  }

  lemma {:induction false} DigitRun(buf: seq<byte>, i: nat, ds: seq<byte>)
    requires At(buf, i, ds) && AllDigits(ds)
    requires i + |ds| < |buf| ==> !IsDigit(buf[i + |ds|])
    ensures DigitsEnd(buf, i) == i + |ds|
    decreases |ds|
  {
    if ds != [] {
      AtByte(buf, i, ds, 0);
      assert At(buf, i + 1, ds[1..]);
      DigitRun(buf, i + 1, ds[1..]);
    }
  }

  // ----- strings

  lemma {:induction false} HexAt(buf: seq<byte>, i: nat, h: seq<byte>)
    requires IsHex4(h) && At(buf, i, [BACKSLASH, LOWER_U] + h) && i + 6 < |buf| && HexValue(h) > 0
    ensures OneHex(buf, i) && buf[i + 2..i + 6] == h
  {
    AtConcat(buf, i, [BACKSLASH, LOWER_U], h);
    AtByte(buf, i, [BACKSLASH, LOWER_U], 0);
    AtByte(buf, i, [BACKSLASH, LOWER_U], 1);
  }

  lemma {:induction false} HexComplete(buf: seq<byte>, i: nat, h: seq<byte>)
    requires WfUnit(Hex(h)) && At(buf, i, [BACKSLASH, LOWER_U] + h) && i + 6 < |buf|
    ensures HexEnd(buf, i) == Some(i + 6)
  {
    hide At, HexValue, IsHex4;
    HexAt(buf, i, h);
  }

  lemma {:induction false} HexLength(h: seq<byte>)
    requires IsHex4(h)
    ensures |h| == 4
  {
  }

  lemma {:induction false} PairComplete(buf: seq<byte>, i: nat, hi: seq<byte>, lo: seq<byte>)
    requires WfUnit(Pair(hi, lo)) && At(buf, i, UnitText(Pair(hi, lo))) && i + 12 < |buf|
    ensures HexEnd(buf, i) == Some(i + 12)
  {
    hide At, HexValue, IsHex4;
    assert |hi| == 4 && |lo| == 4 by { HexLength(hi); HexLength(lo); }
    assert UnitText(Pair(hi, lo)) == ([BACKSLASH, LOWER_U] + hi) + ([BACKSLASH, LOWER_U] + lo);
    AtConcat(buf, i, [BACKSLASH, LOWER_U] + hi, [BACKSLASH, LOWER_U] + lo);
    HexAt(buf, i, hi);
    HexAt(buf, i + 6, lo);
  }

  /** A unit is never at the end of the buffer: the closing quote follows. */
  lemma {:induction false} UnitComplete(buf: seq<byte>, i: nat, u: Unit)
    requires WfUnit(u) && At(buf, i, UnitText(u)) && i + |UnitText(u)| < |buf|
    ensures buf[i] != QUOTE && UnitEnd(buf, i) == Some(i + |UnitText(u)|)
  {
    hide HexValue, HexEnd;
    AtByte(buf, i, UnitText(u), 0);
    match u
    case Plain(b) =>
    case Multi(bs) => Utf8.MultiEndUnique(buf, i, |bs|);
    case Short(c) => AtByte(buf, i, UnitText(u), 1);
    case Control(c) => AtByte(buf, i, UnitText(u), 1);
    case Hex(h) =>
      AtByte(buf, i, UnitText(u), 1);
      HexComplete(buf, i, h);
    case Pair(hi, lo) =>
      AtByte(buf, i, UnitText(u), 1);
      PairComplete(buf, i, hi, lo);
  }

  lemma {:induction false} UnitsSplit(buf: seq<byte>, i: nat, us: seq<Unit>)
    requires us != []
    ensures At(buf, i, UnitsText(us) + [QUOTE]) <==>
            At(buf, i, UnitText(us[0])) && At(buf, i + |UnitText(us[0])|, UnitsText(us[1..]) + [QUOTE])
  {
    var rest := UnitsText(us[1..]) + [QUOTE];
    assert UnitsText(us) + [QUOTE] == UnitText(us[0]) + rest;
    AtConcat(buf, i, UnitText(us[0]), rest);
  }

  lemma {:induction false} UnitsComplete(buf: seq<byte>, i: nat, us: seq<Unit>)
    requires WfUnits(us) && At(buf, i, UnitsText(us) + [QUOTE])
    ensures UnitsEnd(buf, i) == Some(i + |UnitsText(us)| + 1)
    decreases |us|
  {
    hide UnitEnd, UnitText, WfUnit;
    if us == [] {
      AtByte(buf, i, [QUOTE], 0);
    } else {
      UnitsSplit(buf, i, us);
      UnitComplete(buf, i, us[0]);
      UnitsComplete(buf, i + |UnitText(us[0])|, us[1..]);
    }
  }

  lemma {:induction false} StringSplit(buf: seq<byte>, i: nat, us: seq<Unit>)
    ensures At(buf, i, StringText(us)) <==> At(buf, i, [QUOTE]) && At(buf, i + 1, UnitsText(us) + [QUOTE])
    ensures |StringText(us)| == |UnitsText(us)| + 2
  {
    hide At, UnitsText;
    assert StringText(us) == [QUOTE] + (UnitsText(us) + [QUOTE]);
    AtConcat(buf, i, [QUOTE], UnitsText(us) + [QUOTE]);
  }

  lemma {:induction false} StringComplete(buf: seq<byte>, i: nat, us: seq<Unit>)
    requires WfUnits(us) && At(buf, i, StringText(us))
    ensures StringEnd(buf, i) == Some(i + |StringText(us)|)
  {
    hide At, UnitsText, UnitsEnd, WfUnits;
    StringSplit(buf, i, us);
    AtByte(buf, i, [QUOTE], 0);
    UnitsComplete(buf, i + 1, us);
  }

  lemma {:induction false} UnitSound(buf: seq<byte>, i: nat) returns (u: Unit)
    requires i < |buf| && buf[i] != QUOTE && UnitEnd(buf, i).Some?
    ensures WfUnit(u) && At(buf, i, UnitText(u)) && UnitEnd(buf, i) == Some(i + |UnitText(u)|)
  {
    var e := UnitEnd(buf, i).value;
    if buf[i] != BACKSLASH {
      u := if buf[i] < 0x80 then Plain(buf[i]) else Multi(buf[i..e]);
    } else {
      var c := buf[i + 1];
      if c != LOWER_U {
        u := if IsShortEscape(c) then Short(c) else Control(c);
        assert buf[i..i + 2] == [BACKSLASH, c];
      } else {
        var h := buf[i + 2..i + 6];
        assert buf[i..i + 6] == [BACKSLASH, LOWER_U] + h;
        if e == i + 6 {
          u := Hex(h);
        } else {
          var lo := buf[i + 8..i + 12];
          u := Pair(h, lo);
          assert buf[i + 6..i + 12] == [BACKSLASH, LOWER_U] + lo;
          assert buf[i..i + 12] == buf[i..i + 6] + buf[i + 6..i + 12];
        }
      }
    }
  }

  lemma {:induction false} UnitsSound(buf: seq<byte>, i: nat) returns (us: seq<Unit>)
    requires UnitsEnd(buf, i).Some?
    ensures WfUnits(us) && At(buf, i, UnitsText(us) + [QUOTE])
    ensures UnitsEnd(buf, i) == Some(i + |UnitsText(us)| + 1)
    decreases |buf| - i
  {
    hide UnitEnd, UnitText, WfUnit;
    if buf[i] == QUOTE {
      us := [];
      assert UnitsText(us) + [QUOTE] == [QUOTE] == buf[i..i + 1];
    } else {
      var u := UnitSound(buf, i);
      var rest := UnitsSound(buf, i + |UnitText(u)|);
      us := [u] + rest;
      assert us[1..] == rest;
      UnitsSplit(buf, i, us);
    }
  }

  lemma {:induction false} StringSound(buf: seq<byte>, i: nat) returns (us: seq<Unit>)
    requires StringEnd(buf, i).Some?
    ensures WfUnits(us) && At(buf, i, StringText(us)) && StringEnd(buf, i) == Some(i + |StringText(us)|)
  {
    hide UnitsText, UnitsEnd, WfUnits, StringText;
    us := UnitsSound(buf, i + 1);
    assert At(buf, i, [QUOTE]);
    StringSplit(buf, i, us);
  }

  // ----- numbers

  /** A byte that could continue a number token. */
  predicate ContinuesNumber(b: byte) { IsDigit(b) || b == DOT || IsExpMark(b) }

  predicate EndsNumber(buf: seq<byte>, i: nat) { i < |buf| ==> !ContinuesNumber(buf[i]) }

  lemma {:induction false} ExponentComplete(buf: seq<byte>, i: nat, x: Option<Exponent>)
    requires x.Some? ==> WfExponent(x.value)
    requires At(buf, i, ExpText(x)) && EndsNumber(buf, i + |ExpText(x)|)
    ensures ExponentEnd(buf, i) == i + |ExpText(x)|
    ensures x.Some? ==> IsExpMark(buf[i])
  {
    if x.Some? {
      var y := x.value;
      var t := ExpText(x);
      AtByte(buf, i, t, 0);
      AtByte(buf, i, t, 1);
      assert t == [y.e] + y.sign + y.digits;
      AtConcat(buf, i, [y.e] + y.sign, y.digits);
      DigitRun(buf, i + 1 + |y.sign|, y.digits);
      assert IsDigit(y.digits[0]);
      assert y.sign == [] ==> t[1] == y.digits[0];
    }
  }

  lemma {:induction false} DecimalsComplete(buf: seq<byte>, i: nat, f: Option<seq<byte>>)
    requires f.Some? ==> f.value != [] && AllDigits(f.value)
    requires At(buf, i, FracText(f))
    requires i + |FracText(f)| < |buf| ==> !IsDigit(buf[i + |FracText(f)|]) && (f.None? ==> buf[i] != DOT)
    ensures DecimalsEnd(buf, i) == i + |FracText(f)|
    ensures f.Some? ==> buf[i] == DOT
  {
    if f.Some? {
      AtByte(buf, i, FracText(f), 0);
      AtConcat(buf, i, [DOT], f.value);
      DigitRun(buf, i + 1, f.value);
    }
  }

  lemma {:induction false} NumberSplit(buf: seq<byte>, i: nat, n: Number)
    ensures var a, b, c, d := MinusText(n.minus), n.whole, FracText(n.frac), ExpText(n.exp);
            At(buf, i, NumberText(n)) <==>
            At(buf, i, a) && At(buf, i + |a|, b) && At(buf, i + |a| + |b|, c) && At(buf, i + |a| + |b| + |c|, d)
    ensures |NumberText(n)| == |MinusText(n.minus)| + |n.whole| + |FracText(n.frac)| + |ExpText(n.exp)|
  {
    var a, b, c, d := MinusText(n.minus), n.whole, FracText(n.frac), ExpText(n.exp);
    AtConcat4(buf, i, a, b, c, d);
  }

  lemma {:induction false} TailComplete(buf: seq<byte>, k: nat, n: Number)
    requires WfNumber(n) && At(buf, k, FracText(n.frac)) && At(buf, k + |FracText(n.frac)|, ExpText(n.exp))
    requires EndsNumber(buf, k + |FracText(n.frac)| + |ExpText(n.exp)|)
    ensures ExponentEnd(buf, DecimalsEnd(buf, k)) == k + |FracText(n.frac)| + |ExpText(n.exp)|
    ensures k + |FracText(n.frac)| + |ExpText(n.exp)| > k ==> k < |buf| && !IsDigit(buf[k])
  {
    hide DecimalsEnd, ExponentEnd, ExponentText;
    ExponentComplete(buf, k + |FracText(n.frac)|, n.exp);
    DecimalsComplete(buf, k, n.frac);
  }

  lemma {:induction false} AfterMinus(buf: seq<byte>, i: nat, n: Number)
    requires WfNumber(n) && At(buf, i, MinusText(n.minus)) && At(buf, i + |MinusText(n.minus)|, n.whole)
    ensures var j := i + |MinusText(n.minus)|;
            i <= j < |buf| && buf[j] == n.whole[0] && (buf[i] == MINUS <==> n.minus) && (j == i <==> !n.minus) && j <= i + 1
  {
    AtByte(buf, i + |MinusText(n.minus)|, n.whole, 0);
    assert IsDigit(n.whole[0]);
    if n.minus {
      AtByte(buf, i, MinusText(n.minus), 0);
    }
  }

  lemma {:induction false} EndOfWhole(buf: seq<byte>, k: nat, n: Number)
    requires EndsNumber(buf, k + |FracText(n.frac)| + |ExpText(n.exp)|)
    requires k + |FracText(n.frac)| + |ExpText(n.exp)| > k ==> k < |buf| && !IsDigit(buf[k])
    ensures k < |buf| ==> !IsDigit(buf[k])
  {
  }

  lemma {:induction false} NumberComplete(buf: seq<byte>, i: nat, n: Number)
    requires WfNumber(n) && At(buf, i, NumberText(n)) && EndsNumber(buf, i + |NumberText(n)|)
    ensures NumberEnd(buf, i) == Some(i + |NumberText(n)|)
  {
    hide DecimalsEnd, ExponentEnd, ExpText, FracText, NumberText, At, EndsNumber, DigitsEnd, MinusText;
    var j := i + |MinusText(n.minus)|;
    NumberSplit(buf, i, n);
    TailComplete(buf, j + |n.whole|, n);
    AfterMinus(buf, i, n);
    if n.whole[0] != ZERO {
      EndOfWhole(buf, j + |n.whole|, n);
      DigitRun(buf, j, n.whole);
    }
  }

  lemma {:induction false} ExponentSound(buf: seq<byte>, i: nat) returns (x: Option<Exponent>)
    requires i <= |buf|
    ensures x.Some? ==> WfExponent(x.value)
    ensures At(buf, i, ExpText(x)) && ExponentEnd(buf, i) == i + |ExpText(x)|
  {
    var e := ExponentEnd(buf, i);
    x := None;
    if e > i {
      var j := if i + 1 < |buf| && (buf[i + 1] == MINUS || buf[i + 1] == PLUS) then i + 2 else i + 1;
      var y := Exponent(buf[i], buf[i + 1..j], buf[j..e]);
      DigitsAre(buf, j);
      if j > i + 1 { CutByte(buf, i + 1); }
      x := Some(y);
      CutByte(buf, i);
      Cut(buf, i, i + 1, j);
      Cut(buf, i, j, e);
    }
  }

  lemma {:induction false} DecimalsSound(buf: seq<byte>, i: nat) returns (f: Option<seq<byte>>)
    requires i <= |buf|
    ensures f.Some? ==> f.value != [] && AllDigits(f.value)
    ensures At(buf, i, FracText(f)) && DecimalsEnd(buf, i) == i + |FracText(f)|
  {
    var e := DecimalsEnd(buf, i);
    f := if e > i then Some(buf[i + 1..e]) else None;
    if e > i { DigitsAre(buf, i + 1); }
    assert FracText(f) == buf[i..e];
  }

  lemma {:induction false} MinusStands(buf: seq<byte>, i: nat)
    requires i < |buf|
    ensures var minus := buf[i] == MINUS;
            At(buf, i, MinusText(minus)) && |MinusText(minus)| == if minus then 1 else 0
  {
    if buf[i] == MINUS {
      assert buf[i..i + 1] == [buf[i]];
    }
  }

  lemma {:induction false} WholeSound(buf: seq<byte>, j: nat)
    requires j < |buf|
    ensures var k := if buf[j] == ZERO then j + 1 else DigitsEnd(buf, j);
            && j <= k <= |buf| && AllDigits(buf[j..k]) && At(buf, j, buf[j..k])
            && (k > j && buf[j] == ZERO ==> buf[j..k] == [ZERO])
  {
    if buf[j] != ZERO {
      DigitsAre(buf, j);
    }
  }

  lemma {:induction false} NumberSound(buf: seq<byte>, i: nat) returns (n: Number)
    requires NumberEnd(buf, i).Some?
    ensures WfNumber(n) && At(buf, i, NumberText(n)) && NumberEnd(buf, i) == Some(i + |NumberText(n)|)
  {
    hide DecimalsEnd, ExponentEnd, ExpText, FracText, NumberText, WfExponent, At, MinusText, DigitsEnd, AllDigits;
    var j := if buf[i] == MINUS then i + 1 else i;
    var k := if buf[j] == ZERO then j + 1 else DigitsEnd(buf, j);
    var m := DecimalsEnd(buf, k);
    var frac := DecimalsSound(buf, k);
    var exp := ExponentSound(buf, m);
    n := Number(j > i, buf[j..k], frac, exp);
    MinusStands(buf, i);
    WholeSound(buf, j);
    NumberSplit(buf, i, n);
  }

  // ----- scalars

  lemma {:induction false} NotLiteral(buf: seq<byte>, i: nat)
    requires i < |buf|
    ensures StartsWith(buf, i, TRUE) ==> buf[i] == TRUE[0]
    ensures StartsWith(buf, i, FALSE) ==> buf[i] == FALSE[0]
    ensures StartsWith(buf, i, NULL) ==> buf[i] == NULL[0]
  {
    if StartsWith(buf, i, TRUE) { assert buf[i..i + 4][0] == buf[i]; }
    if StartsWith(buf, i, FALSE) { assert buf[i..i + 5][0] == buf[i]; }
    if StartsWith(buf, i, NULL) { assert buf[i..i + 4][0] == buf[i]; }
  }

  lemma {:induction false} ScalarComplete(buf: seq<byte>, i: nat, v: Value)
    requires !v.Coll? && Wf(v) && At(buf, i, Text(v))
    requires v.Num? ==> EndsNumber(buf, i + |Text(v)|)
    ensures ScalarEnd(buf, i) == Some(i + |Text(v)|)
  {
    hide NumberText, NumberEnd, StringText, UnitsEnd, WfUnit, WfNumber;
    TextStart(v);
    AtByte(buf, i, Text(v), 0);
    match v
    case Str(us) => StringComplete(buf, i, us);
    case Num(n) =>
      NumberComplete(buf, i, n);
      NotLiteral(buf, i);
    case Lit(l) =>
      NotLiteral(buf, i);
  }

  /** A scalar starts with a byte that is no bracket, comma, colon or white space. */
  lemma {:induction false} ScalarStart(buf: seq<byte>, i: nat)
    requires ScalarEnd(buf, i).Some?
    ensures i < |buf| && IsScalarStart(buf[i])
  {
    NotLiteral(buf, i);
  }

  lemma {:induction false} ScalarSound(buf: seq<byte>, i: nat) returns (v: Value)
    requires ScalarEnd(buf, i).Some?
    ensures !v.Coll? && Wf(v) && At(buf, i, Text(v)) && ScalarEnd(buf, i) == Some(i + |Text(v)|)
  {
    if StringEnd(buf, i).Some? {
      var us := StringSound(buf, i);
      v := Str(us);
    } else if LiteralEnd(buf, i).Some? {
      v := if StartsWith(buf, i, TRUE) then Lit(True) else if StartsWith(buf, i, FALSE) then Lit(False) else Lit(Null);
    } else {
      var n := NumberSound(buf, i);
      v := Num(n);
    }
  }
}
