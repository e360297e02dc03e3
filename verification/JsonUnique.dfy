/** A text has at most one derivation, so "accepted but no text of RFC 8259" is decided exactly. */
module JsonUnique {
  import opened Bytes
  import opened JsonGrammar
  import opened JsonScan
  import opened JsonCollection
  import opened JsonTokens
  import opened JsonComplete
  import opened JsonText

  // An accepted text is one of RFC 8259 exactly when its derivation uses neither relaxation, and the texts the
  // library accepts beyond the RFC are real.

  lemma {:induction false} SameBytes(buf: seq<byte>, i: int, s: seq<byte>, t: seq<byte>)
    requires At(buf, i, s) && At(buf, i, t) && |s| == |t|
    ensures s == t
  {
  }

  // ----- tokens

  lemma {:induction false} UnitUnique(u: Unit, w: Unit)
    requires WfUnit(u) && WfUnit(w) && UnitText(u) == UnitText(w)
    ensures u == w
  {
    var s := UnitText(u);
    assert s[0] == UnitText(w)[0] && (|s| > 1 ==> s[1] == UnitText(w)[1]);
    if s[0] == BACKSLASH && |s| > 2 {
      assert s[2..6] == UnitText(w)[2..6];
      if u.Pair? { assert s[2..6] == u.hi && s[8..] == u.lo; }
      if w.Pair? { assert UnitText(w)[2..6] == w.hi && UnitText(w)[8..] == w.lo; }
      if u.Hex? { assert s[2..6] == u.h; }
      if w.Hex? { assert UnitText(w)[2..6] == w.h; }
    }
  }

  lemma {:induction false} UnitThen(buf: seq<byte>, i: nat, us: seq<Unit>)
    requires us != [] && WfUnits(us) && At(buf, i, UnitsText(us) + [QUOTE])
    ensures i < |buf| && buf[i] != QUOTE && UnitEnd(buf, i) == Some(i + |UnitText(us[0])|)
  {
    hide UnitText, WfUnit, UnitEnd;
    UnitsSplit(buf, i, us);
    UnitComplete(buf, i, us[0]);
  }

  lemma {:induction false} EmptyUnits(buf: seq<byte>, i: nat, us: seq<Unit>)
    requires WfUnits(us) && At(buf, i, UnitsText(us) + [QUOTE])
    ensures i < |buf| && (us == [] <==> buf[i] == QUOTE)
  {
    hide WfUnit;
    if us == [] {
      AtByte(buf, i, UnitsText(us) + [QUOTE], 0);
    } else {
      UnitThen(buf, i, us);
    }
  }

  lemma {:induction false} UnitsUnique(buf: seq<byte>, i: nat, us: seq<Unit>, ws: seq<Unit>)
    requires WfUnits(us) && WfUnits(ws) && At(buf, i, UnitsText(us) + [QUOTE]) && At(buf, i, UnitsText(ws) + [QUOTE])
    ensures us == ws
    decreases |us|
  {
    hide At, UnitText, WfUnit, UnitEnd, UnitsText;
    if us == [] || ws == [] {
      EmptyUnits(buf, i, us);
      EmptyUnits(buf, i, ws);
    } else {
      UnitsSplit(buf, i, us);
      UnitsSplit(buf, i, ws);
      UnitThen(buf, i, us);
      UnitThen(buf, i, ws);
      SameBytes(buf, i, UnitText(us[0]), UnitText(ws[0]));
      UnitUnique(us[0], ws[0]);
      UnitsUnique(buf, i + |UnitText(us[0])|, us[1..], ws[1..]);
      assert us == [us[0]] + us[1..] && ws == [ws[0]] + ws[1..];
    }
  }

  lemma {:induction false} StringUnique(buf: seq<byte>, i: nat, us: seq<Unit>, ws: seq<Unit>)
    requires WfUnits(us) && WfUnits(ws) && At(buf, i, StringText(us)) && At(buf, i, StringText(ws))
    ensures us == ws
  {
    hide At, WfUnits, UnitsText, StringText;
    StringSplit(buf, i, us);
    StringSplit(buf, i, ws);
    UnitsUnique(buf, i + 1, us, ws);
  }

  lemma {:induction false} ExponentUnique(x: Exponent, y: Exponent)
    requires WfExponent(x) && WfExponent(y) && ExponentText(x) == ExponentText(y)
    ensures x == y
  {
    var s := ExponentText(x);
    assert s[0] == x.e && s[0] == y.e;
    assert IsDigit(x.digits[0]) && IsDigit(y.digits[0]);
    assert s[1] == if x.sign == [] then x.digits[0] else x.sign[0];
    assert s[1] == if y.sign == [] then y.digits[0] else y.sign[0];
    assert x.sign == y.sign;
    assert s[1 + |x.sign|..] == x.digits && s[1 + |y.sign|..] == y.digits;
  }

  lemma {:induction false} FracEnds(buf: seq<byte>, k: nat, n: Number)
    requires WfNumber(n) && At(buf, k, FracText(n.frac)) && At(buf, k + |FracText(n.frac)|, ExpText(n.exp))
    requires EndsNumber(buf, k + |FracText(n.frac)| + |ExpText(n.exp)|)
    ensures DecimalsEnd(buf, k) == k + |FracText(n.frac)|
  {
    hide DecimalsEnd, ExponentEnd, ExponentText;
    ExponentComplete(buf, k + |FracText(n.frac)|, n.exp);
    DecimalsComplete(buf, k, n.frac);
  }

  lemma {:induction false} WholeLength(buf: seq<byte>, i: nat, n: Number)
    requires WfNumber(n) && At(buf, i, NumberText(n)) && EndsNumber(buf, i + |NumberText(n)|)
    ensures i < |buf| && (n.minus <==> buf[i] == MINUS)
    ensures var j := i + |MinusText(n.minus)|;
            j < |buf| && |n.whole| == (if buf[j] == ZERO then 1 else DigitsEnd(buf, j) - j)
    ensures var k := i + |MinusText(n.minus)| + |n.whole|;
            |FracText(n.frac)| == DecimalsEnd(buf, k) - k
  {
    hide DecimalsEnd, ExponentEnd, ExpText, FracText, NumberText;
    var a, b := MinusText(n.minus), n.whole;
    NumberSplit(buf, i, n);
    var j := i + |a|;
    TailComplete(buf, j + |b|, n);
    FracEnds(buf, j + |b|, n);
    AtByte(buf, j, b, 0);
    assert IsDigit(b[0]);
    if n.minus { AtByte(buf, i, a, 0); }
    if b[0] != ZERO {
      DigitRun(buf, j, b);
    }
  }

  lemma {:induction false} PartsUnique(m: Number, n: Number)
    requires WfNumber(m) && WfNumber(n) && FracText(m.frac) == FracText(n.frac) && ExpText(m.exp) == ExpText(n.exp)
    ensures m.frac == n.frac && m.exp == n.exp
  {
    if m.frac.Some? && n.frac.Some? {
      assert FracText(m.frac)[1..] == m.frac.value && FracText(n.frac)[1..] == n.frac.value;
    }
    if m.exp.Some? && n.exp.Some? {
      ExponentUnique(m.exp.value, n.exp.value);
    }
  }

  lemma {:induction false} NumberUnique(buf: seq<byte>, i: nat, m: Number, n: Number)
    requires WfNumber(m) && At(buf, i, NumberText(m)) && EndsNumber(buf, i + |NumberText(m)|)
    requires WfNumber(n) && At(buf, i, NumberText(n)) && EndsNumber(buf, i + |NumberText(n)|)
    ensures m == n
  {
    hide At, NumberText, FracText, ExpText, DecimalsEnd, DigitsEnd, EndsNumber, ExponentText;
    NumberComplete(buf, i, m);
    NumberComplete(buf, i, n);
    NumberSplit(buf, i, m);
    NumberSplit(buf, i, n);
    WholeLength(buf, i, m);
    WholeLength(buf, i, n);
    var j := i + |MinusText(m.minus)|;
    SameBytes(buf, j, m.whole, n.whole);
    var k := j + |m.whole|;
    SameBytes(buf, k, FracText(m.frac), FracText(n.frac));
    SameBytes(buf, k + |FracText(m.frac)|, ExpText(m.exp), ExpText(n.exp));
    PartsUnique(m, n);
  }

  lemma {:induction false} ScalarUnique(buf: seq<byte>, i: nat, v: Value, w: Value)
    requires Wf(v) && !v.Coll? && At(buf, i, Text(v)) && EndsNumber(buf, i + |Text(v)|)
    requires Wf(w) && At(buf, i, Text(w)) && EndsNumber(buf, i + |Text(w)|)
    ensures v == w
  {
    hide At, StringText, NumberText, WfUnits, WfNumber, EndsNumber;
    TextStart(v);
    TextStart(w);
    AtByte(buf, i, Text(v), 0);
    AtByte(buf, i, Text(w), 0);
    if v.Str? && w.Str? {
      StringUnique(buf, i, v.units, w.units);
    } else if v.Num? && w.Num? {
      NumberUnique(buf, i, v.n, w.n);
    }
  }

  // ----- collections

  lemma {:induction false} ColonAfter(buf: seq<byte>, q: nat, k: Key, e: nat)
    requires WfKey(k) && At(buf, q, KeyText(Some(k))) && e == q + |StringText(k.units)|
    ensures SpaceEnd(buf, e) == e + |k.ws1|
  {
    hide StringText, SpaceEnd, WfUnits, At, AllSpace;
    AtConcat4(buf, q, StringText(k.units), k.ws1, [COLON], k.ws2);
    AtByte(buf, e + |k.ws1|, [COLON], 0);
    SpaceRun(buf, e, k.ws1);
  }

  lemma {:induction false} KeyParts(k: Key)
    ensures KeyText(Some(k)) == StringText(k.units) + k.ws1 + [COLON] + k.ws2
  {
  }

  lemma {:induction false} KeyUnique(buf: seq<byte>, q: nat, k: Key, l: Key)
    requires WfKey(k) && At(buf, q, KeyText(Some(k))) && WfKey(l) && At(buf, q, KeyText(Some(l)))
    requires var x := q + |KeyText(Some(k))|; x < |buf| && !IsSpace(buf[x])
    requires var y := q + |KeyText(Some(l))|; y < |buf| && !IsSpace(buf[y])
    ensures k == l
  {
    hide At, StringText, StringEnd, SpaceEnd, WfUnits, AllSpace, KeyText;
    KeyParts(k);
    KeyParts(l);
    var c := KeyScan(buf, q, k);
    var c' := KeyScan(buf, q, l);
    AtConcat4(buf, q, StringText(k.units), k.ws1, [COLON], k.ws2);
    AtConcat4(buf, q, StringText(l.units), l.ws1, [COLON], l.ws2);
    StringUnique(buf, q, k.units, l.units);
    var e := q + |StringText(k.units)|;
    ColonAfter(buf, q, k, e);
    ColonAfter(buf, q, l, e);
    SameBytes(buf, e, k.ws1, l.ws1);
    SameBytes(buf, c + 1, k.ws2, l.ws2);
  }

  /** The byte at the start of item k, or the closing bracket when there is no such item. */
  lemma {:induction false} StartByte(buf: seq<byte>, i: nat, v: Value, k: nat)
    requires v.Coll? && Wf(v) && At(buf, i, Text(v)) && k <= |v.items|
    ensures var p := ItemPos(i, v, k); p < |buf| && !IsSpace(buf[p]) && (IsClose(buf[p]) <==> k == |v.items|)
    ensures k < |v.items| ==> (buf[ItemPos(i, v, k)] == COMMA <==> v.items[k].sep.Comma?)
  {
    hide At, Text, KeyText, ItemPos, Wf, WfItems, ItemsText, WfKey, Height, ItemsHeight, StrictItems, Strict, ItemHead, WfUnits;
    assert WfItems(v.open, v.items) && IsOpen(v.open) by { ItemIsWf(v); }
    if k < |v.items| {
      var it := v.items[k];
      ItemLayout(buf, i, v, k);
      ItemsPrefix(v.open, v.items, k);
      ItemStart(buf, ItemPos(i, v, k), v.open, k == 0, it);
      TextStart(it.value);
      if it.value.Coll? { StartIsOpen(it.value); }
    } else {
      Layout(buf, i, v);
    }
  }

  predicate SepEnds(buf: seq<byte>, p: nat, s: Sep) {
    var q := p + |SepText(s)|; q < |buf| && !IsSpace(buf[q])
  }

  lemma {:induction false} SepUnique(buf: seq<byte>, p: nat, open: byte, first: bool, a: Item, b: Item)
    requires WfItem(open, first, a) && WfItem(open, first, b) && p < |buf|
    requires (buf[p] == COMMA <==> a.sep.Comma?) && (buf[p] == COMMA <==> b.sep.Comma?)
    requires At(buf, p, SepText(a.sep)) && At(buf, p, SepText(b.sep))
    requires SepEnds(buf, p, a.sep) && SepEnds(buf, p, b.sep)
    ensures a.sep == b.sep && (a.key.Some? <==> b.key.Some?)
  {
    hide Wf, SpaceEnd, WfKey, At;
    if a.sep.Comma? {
      AtConcat(buf, p, [COMMA], a.sep.ws);
      AtConcat(buf, p, [COMMA], b.sep.ws);
      SpaceRun(buf, p + 1, a.sep.ws);
      SpaceRun(buf, p + 1, b.sep.ws);
      SameBytes(buf, p + 1, a.sep.ws, b.sep.ws);
    }
  }

  lemma {:induction false} AfterSep(buf: seq<byte>, i: nat, v: Value, k: nat)
    requires v.Coll? && Wf(v) && At(buf, i, Text(v)) && k < |v.items|
    ensures SepEnds(buf, ItemPos(i, v, k), v.items[k].sep)
    ensures var it := v.items[k];
            var x := ItemPos(i, v, k) + |SepText(it.sep)| + |KeyText(it.key)|;
            x < |buf| && !IsSpace(buf[x])
  {
    hide At, Text, StringText, SepText, ItemPos, Wf, WfItems, ItemsText, WfKey;
    assert WfItems(v.open, v.items) by { ItemIsWf(v); }
    var it := v.items[k];
    ItemLayout(buf, i, v, k);
    ItemsPrefix(v.open, v.items, k);
    ItemStart(buf, ItemPos(i, v, k), v.open, k == 0, it);
    ValueStart(buf, ItemPos(i, v, k) + |SepText(it.sep)| + |KeyText(it.key)|, it.value);
  }

  /** The separators and keys of items that stand at the same place agree, and so does where their values stand. */
  lemma {:induction false} HeadUnique(buf: seq<byte>, i: nat, v: Value, w: Value, k: nat)
    requires v.Coll? && Wf(v) && At(buf, i, Text(v)) && k < |v.items|
    requires w.Coll? && Wf(w) && At(buf, i, Text(w)) && k < |w.items|
    requires v.open == w.open && ItemPos(i, v, k) == ItemPos(i, w, k)
    ensures v.items[k].sep == w.items[k].sep && v.items[k].key == w.items[k].key
  {
    hide At, Text, KeyText, SepText, ItemPos, Wf, WfItems, ItemsText, WfKey, SpaceEnd, SepEnds, EndsNumber;
    assert WfItems(v.open, v.items) && WfItems(w.open, w.items) by { ItemIsWf(v); ItemIsWf(w); }
    var p, a, b := ItemPos(i, v, k), v.items[k], w.items[k];
    StartByte(buf, i, v, k);
    StartByte(buf, i, w, k);
    AfterSep(buf, i, v, k);
    AfterSep(buf, i, w, k);
    ItemLayout(buf, i, v, k);
    ItemLayout(buf, i, w, k);
    ItemsPrefix(v.open, v.items, k);
    ItemsPrefix(w.open, w.items, k);
    SepUnique(buf, p, v.open, k == 0, a, b);
    if a.key.Some? {
      KeyUnique(buf, p + |SepText(a.sep)|, a.key.value, b.key.value);
    }
  }

  lemma {:induction false} ItemsUnique(buf: seq<byte>, i: nat, v: Value, w: Value, k: nat)
    requires v.Coll? && Wf(v) && At(buf, i, Text(v)) && k <= |v.items|
    requires w.Coll? && Wf(w) && At(buf, i, Text(w)) && k <= |w.items|
    requires v.open == w.open && v.items[..k] == w.items[..k] && ItemPos(i, v, k) == ItemPos(i, w, k)
    ensures v.items == w.items
    decreases v, 1, |v.items| - k
  {
    hide At, Text, ItemPos, Wf;
    StartByte(buf, i, v, k);
    StartByte(buf, i, w, k);
    if k < |v.items| {
      ItemUnique(buf, i, v, w, k);
      assert v.items[..k + 1] == v.items[..k] + [v.items[k]] && w.items[..k + 1] == w.items[..k] + [w.items[k]];
      ItemsUnique(buf, i, v, w, k + 1);
    } else {
      assert v.items[..k] == v.items && w.items[..k] == w.items;
    }
  }

  lemma {:induction false} SpaceFirst(buf: seq<byte>, i: nat, v: Value)
    requires v.Coll? && Wf(v) && At(buf, i, Text(v))
    ensures i < |buf| && buf[i] == v.open && At(buf, i + 1, v.ws) && SpaceEnd(buf, i + 1) == i + 1 + |v.ws|
    ensures ItemPos(i, v, 0) == i + 1 + |v.ws|
  {
    hide At, Text, ItemPos, SpaceEnd, Wf;
    ItemIsWf(v);
    Layout(buf, i, v);
    StartByte(buf, i, v, 0);
    SpaceRun(buf, i + 1, v.ws);
  }

  /** Two derivations of text at the same place are the same derivation. */
  lemma {:induction false} ValueUnique(buf: seq<byte>, i: nat, v: Value, w: Value)
    requires Wf(v) && At(buf, i, Text(v)) && EndsNumber(buf, i + |Text(v)|)
    requires Wf(w) && At(buf, i, Text(w)) && EndsNumber(buf, i + |Text(w)|)
    ensures v == w
    decreases v, 2
  {
    hide At, Text, Wf, ItemPos, EndsNumber, SpaceEnd;
    ValueStart(buf, i, v);
    ValueStart(buf, i, w);
    if !v.Coll? {
      ScalarUnique(buf, i, v, w);
    } else {
      SpaceFirst(buf, i, v);
      SpaceFirst(buf, i, w);
      SameBytes(buf, i + 1, v.ws, w.ws);
      assert v.items[..0] == w.items[..0] == [];
      ItemsUnique(buf, i, v, w, 0);
    }
  }

  lemma {:induction false} ItemUnique(buf: seq<byte>, i: nat, v: Value, w: Value, k: nat)
    requires v.Coll? && Wf(v) && At(buf, i, Text(v)) && k < |v.items|
    requires w.Coll? && Wf(w) && At(buf, i, Text(w)) && k < |w.items|
    requires v.open == w.open && ItemPos(i, v, k) == ItemPos(i, w, k)
    ensures v.items[k] == w.items[k] && ItemPos(i, v, k + 1) == ItemPos(i, w, k + 1)
    decreases v, 0
  {
    hide At, Text, KeyText, SepText, ItemPos, Wf, WfItems, ItemsText, WfKey, SpaceEnd, SepEnds, EndsNumber;
    assert WfItems(v.open, v.items) && WfItems(w.open, w.items) by { ItemIsWf(v); ItemIsWf(w); }
    var p, a, b := ItemPos(i, v, k), v.items[k], w.items[k];
    HeadUnique(buf, i, v, w, k);
    ItemLayout(buf, i, v, k);
    ItemLayout(buf, i, w, k);
    ItemsPrefix(v.open, v.items, k);
    ItemsPrefix(w.open, w.items, k);
    var x := p + |SepText(a.sep)| + |KeyText(a.key)|;
    ValueFollow(buf, i, v, k, x + |Text(a.value)|);
    ValueFollow(buf, i, w, k, x + |Text(b.value)|);
    ValueUnique(buf, x, a.value, b.value);
    SameBytes(buf, x + |Text(a.value)|, a.ws, b.ws);
  }

  /** The grammar is unambiguous. */
  lemma {:induction false} DocUnique(d: Doc, e: Doc)
    requires WfDoc(d) && WfDoc(e) && DocText(d) == DocText(e)
    ensures d == e
  {
    hide Text, Wf, At, EndsNumber, SpaceEnd, AllSpace;
    var buf := DocText(d);
    DocLayout(d);
    DocLayout(e);
    ValueUnique(buf, |d.before|, d.value, e.value);
    assert buf[..|d.before|] == d.before && buf[..|e.before|] == e.before;
    var m := |d.before| + |Text(d.value)|;
    assert buf[m..] == d.after && buf[m..] == e.after;
  }

  /** `buf` is a text of RFC 8259 (with nonzero, properly paired \u escapes). */
  ghost predicate IsRfcText(buf: seq<byte>) {
    exists d :: StrictDoc(d) && DocText(d) == buf
  }

  /** An accepted text is a text of the RFC exactly when its one derivation uses no relaxation. */
  lemma {:induction false} AcceptedIsRfc(d: Doc)
    requires WfDoc(d) && Height(d.value) <= MAX_DEPTH
    ensures Verdict(DocText(d)) == Success
    ensures IsRfcText(DocText(d)) <==> Strict(d.value)
  {
    hide Text, Wf, Strict, Verdict;
    VerdictComplete(d);
    if IsRfcText(DocText(d)) {
      var e :| StrictDoc(e) && DocText(e) == DocText(d);
      DocUnique(d, e);
    }
  }

  /**
   * A text of the RFC is accepted if it can be derived with nesting at most 32, and otherwise called
   * too deep; so the accepted texts of the RFC are exactly those that nest at most 32.
   */
  lemma {:induction false} RfcVerdict(buf: seq<byte>)
    ensures IsRfcText(buf) ==> Verdict(buf) == Success || Verdict(buf) == MaxDepthExceeded
    ensures IsRfcText(buf) && Verdict(buf) == Success <==>
            exists d :: StrictDoc(d) && DocText(d) == buf && Height(d.value) <= MAX_DEPTH
  {
    hide StrictDoc, WfDoc, DocText, Height, Verdict;
    if IsRfcText(buf) {
      var d :| StrictDoc(d) && DocText(d) == buf;
      RfcTexts(d);
    }
    forall d | StrictDoc(d) && DocText(d) == buf && Height(d.value) <= MAX_DEPTH ensures Verdict(buf) == Success {
      RfcTexts(d);
    }
  }

  // ----- witnesses: [1 [2]] and {"a":1{}} and a backslash before a tab are accepted, but not RFC texts

  function Digit(b: byte): Value { Num(Number(false, [b], None, None)) }

  const MISSING_COMMA := Doc([],
    Coll(SQUARE_OPEN, [], [
      Item(First, None, Digit(0x31), [0x20]),
      Item(Nothing, None, Coll(SQUARE_OPEN, [], [Item(First, None, Digit(0x32), [])]), [])]), [])

  const MISSING_KEY := Doc([],
    Coll(CURLY_OPEN, [], [
      Item(First, Some(Key([Plain(0x61)], [], [])), Digit(0x31), []),
      Item(Nothing, None, Coll(CURLY_OPEN, [], []), [])]), [])

  const ESCAPED_TAB := Doc([], Str([Control(0x09)]), [])

  lemma {:induction false} OneItem(open: byte, a: Item)
    requires WfItem(open, true, a)
    ensures WfItems(open, [a]) && ItemsHeight([a]) == Height(a.value)
  {
    assert [a][..0] == [];
  }

  lemma {:induction false} TwoItems(open: byte, a: Item, b: Item)
    requires WfItem(open, true, a) && WfItem(open, false, b)
    ensures WfItems(open, [a, b]) && (b.sep.Nothing? ==> !StrictItems([a, b]))
    ensures ItemsHeight([a, b]) <= Height(a.value) + Height(b.value)
  {
    OneItem(open, a);
    var s := [a, b];
    assert s[..|s| - 1] == [a];
  }

  lemma {:induction false} WitnessWf(d: Doc)
    requires d == MISSING_COMMA || d == MISSING_KEY || d == ESCAPED_TAB
    ensures WfDoc(d) && Height(d.value) <= MAX_DEPTH && !Strict(d.value)
  {
    if d == MISSING_COMMA {
      var inner := Item(First, None, Digit(0x32), []);
      OneItem(SQUARE_OPEN, inner);
      TwoItems(SQUARE_OPEN, d.value.items[0], d.value.items[1]);
    } else if d == MISSING_KEY {
      TwoItems(CURLY_OPEN, d.value.items[0], d.value.items[1]);
    } else {
      assert d.value.units[0].Control?;
    }
  }

  lemma {:induction false} BeyondRfc(d: Doc)
    requires d == MISSING_COMMA || d == MISSING_KEY || d == ESCAPED_TAB
    ensures Verdict(DocText(d)) == Success && !IsRfcText(DocText(d))
  {
    WitnessWf(d);
    AcceptedIsRfc(d);
  }
}
