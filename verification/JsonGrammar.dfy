/**
 * Derivation trees of JSON texts, down to the byte: the reference that the scanners of
 * core_json.c are measured against.
 *
 * A tree is `Wf` when it derives a text of the language the library accepts and `Strict` when
 * that text is one of RFC 8259 (sections 2 to 7).  The two differ in two places only: the
 * library lets a nested collection follow a value without a comma (and, in an object, without a
 * key), and it takes a backslash before a control character 0x01-0x1F for an escape.
 */
module JsonGrammar {
  import opened Bytes
  import Utf8

  const QUOTE: byte := 0x22
  const BACKSLASH: byte := 0x5C
  const COMMA: byte := 0x2C
  const COLON: byte := 0x3A
  const DOT: byte := 0x2E
  const MINUS: byte := 0x2D
  const PLUS: byte := 0x2B
  const ZERO: byte := 0x30
  const LOWER_U: byte := 0x75
  const SQUARE_OPEN: byte := 0x5B
  const SQUARE_CLOSE: byte := 0x5D
  const CURLY_OPEN: byte := 0x7B
  const CURLY_CLOSE: byte := 0x7D
  const TRUE: seq<byte> := [0x74, 0x72, 0x75, 0x65]
  const FALSE: seq<byte> := [0x66, 0x61, 0x6C, 0x73, 0x65]
  const NULL: seq<byte> := [0x6E, 0x75, 0x6C, 0x6C]

  const MAX_DEPTH := 32

  predicate IsSpace(b: byte) { b == 0x20 || b == 0x09 || b == 0x0A || b == 0x0D }
  predicate IsDigit(b: byte) { 0x30 <= b <= 0x39 }
  predicate IsOpen(b: byte) { b == CURLY_OPEN || b == SQUARE_OPEN }
  predicate IsClose(b: byte) { b == CURLY_CLOSE || b == SQUARE_CLOSE }
  predicate IsMatching(x: byte, y: byte) {
    (x == CURLY_OPEN && y == CURLY_CLOSE) || (x == SQUARE_OPEN && y == SQUARE_CLOSE)
  }
  predicate IsHex(b: byte) { IsDigit(b) || 0x41 <= b <= 0x46 || 0x61 <= b <= 0x66 }
  /** One of `"` `\` `/` `b` `f` `n` `r` `t`. */
  predicate IsShortEscape(b: byte) {
    b == QUOTE || b == BACKSLASH || b == 0x2F || b == 0x62 || b == 0x66 || b == 0x6E || b == 0x72 || b == 0x74
  }

  predicate AllSpace(s: seq<byte>) { forall k | 0 <= k < |s| :: IsSpace(s[k]) }
  predicate AllDigits(s: seq<byte>) { forall k | 0 <= k < |s| :: IsDigit(s[k]) }

  // ----- strings (section 7 of RFC 8259)

  function HexDigit(b: byte): (n: nat)
    requires IsHex(b)
    ensures n < 16
  {
    if b >= 0x61 then b - 0x61 + 10 else if b >= 0x41 then b - 0x41 + 10 else b - 0x30
  }

  predicate IsHex4(h: seq<byte>) { |h| == 4 && IsHex(h[0]) && IsHex(h[1]) && IsHex(h[2]) && IsHex(h[3]) }

  function HexValue(h: seq<byte>): (v: nat)
    requires IsHex4(h)
    ensures v < 0x10000
  {
    ((HexDigit(h[0]) * 16 + HexDigit(h[1])) * 16 + HexDigit(h[2])) * 16 + HexDigit(h[3])
  }

  predicate IsHighSurrogate(v: nat) { 0xD800 <= v <= 0xDBFF }
  predicate IsLowSurrogate(v: nat) { 0xDC00 <= v <= 0xDFFF }

  /** One character of a string, as written between the quotes. */
  datatype Unit =
    | Plain(b: byte)
    | Multi(bs: seq<byte>)
    | Short(c: byte)
    | Control(c: byte)
    | Hex(h: seq<byte>)
    | Pair(hi: seq<byte>, lo: seq<byte>)

  predicate WfUnit(u: Unit) {
    match u
    case Plain(b) => 0x20 <= b < 0x80 && b != QUOTE && b != BACKSLASH
    case Multi(bs) => Utf8.IsMultiByte(bs)
    case Short(c) => IsShortEscape(c)
    case Control(c) => 0 < c < 0x20
    case Hex(h) => IsHex4(h) && HexValue(h) > 0 && !IsHighSurrogate(HexValue(h)) && !IsLowSurrogate(HexValue(h))
    case Pair(hi, lo) => IsHex4(hi) && IsHex4(lo) && IsHighSurrogate(HexValue(hi)) && IsLowSurrogate(HexValue(lo))
  }

  function UnitText(u: Unit): (s: seq<byte>) {
    match u
    case Plain(b) => [b]
    case Multi(bs) => bs
    case Short(c) => [BACKSLASH, c]
    case Control(c) => [BACKSLASH, c]
    case Hex(h) => [BACKSLASH, LOWER_U] + h
    case Pair(hi, lo) => [BACKSLASH, LOWER_U] + hi + [BACKSLASH, LOWER_U] + lo
  }

  predicate WfUnits(us: seq<Unit>) { forall k | 0 <= k < |us| :: WfUnit(us[k]) }
  predicate StrictUnits(us: seq<Unit>) { forall k | 0 <= k < |us| :: !us[k].Control? }

  function UnitsText(us: seq<Unit>): seq<byte> {
    if us == [] then [] else UnitText(us[0]) + UnitsText(us[1..])
  }

  function StringText(us: seq<Unit>): seq<byte> { [QUOTE] + UnitsText(us) + [QUOTE] }

  // ----- numbers (section 6)

  datatype Exponent = Exponent(e: byte, sign: seq<byte>, digits: seq<byte>)
  datatype Number = Number(minus: bool, whole: seq<byte>, frac: Option<seq<byte>>, exp: Option<Exponent>)

  predicate IsExpMark(b: byte) { b == 0x65 || b == 0x45 }

  predicate WfExponent(x: Exponent) {
    IsExpMark(x.e) && (x.sign == [] || x.sign == [MINUS] || x.sign == [PLUS]) && x.digits != [] && AllDigits(x.digits)
  }

  predicate WfNumber(n: Number) {
    && n.whole != [] && AllDigits(n.whole) && (n.whole[0] == ZERO ==> n.whole == [ZERO])
    && (n.frac.Some? ==> n.frac.value != [] && AllDigits(n.frac.value))
    && (n.exp.Some? ==> WfExponent(n.exp.value))
  }

  function ExponentText(x: Exponent): seq<byte> { [x.e] + x.sign + x.digits }
  function FracText(f: Option<seq<byte>>): seq<byte> { if f.Some? then [DOT] + f.value else [] }
  function ExpText(x: Option<Exponent>): seq<byte> { if x.Some? then ExponentText(x.value) else [] }
  function MinusText(m: bool): seq<byte> { if m then [MINUS] else [] }

  function NumberText(n: Number): seq<byte> {
    MinusText(n.minus) + n.whole + FracText(n.frac) + ExpText(n.exp)
  }

  // ----- values, arrays and objects (sections 2 to 5)

  datatype Literal = True | False | Null

  function LiteralText(l: Literal): seq<byte> {
    match l case True => TRUE case False => FALSE case Null => NULL
  }

  /** What separates an item from what precedes it. */
  datatype Sep = First | Comma(ws: seq<byte>) | Nothing
  datatype Key = Key(units: seq<Unit>, ws1: seq<byte>, ws2: seq<byte>)

  datatype Value =
    | Str(units: seq<Unit>)
    | Num(n: Number)
    | Lit(l: Literal)
    | Coll(open: byte, ws: seq<byte>, items: seq<Item>)

  datatype Item = Item(sep: Sep, key: Option<Key>, value: Value, ws: seq<byte>)

  function CloseOf(open: byte): byte { if open == SQUARE_OPEN then SQUARE_CLOSE else CURLY_CLOSE }

  function SepText(s: Sep): seq<byte> { if s.Comma? then [COMMA] + s.ws else [] }

  function KeyText(k: Option<Key>): seq<byte> {
    if k.None? then [] else StringText(k.value.units) + k.value.ws1 + [COLON] + k.value.ws2
  }

  /** An item without the white space after it. */
  function ItemHead(it: Item): seq<byte>
    decreases it, 1
  {
    SepText(it.sep) + KeyText(it.key) + Text(it.value)
  }

  function ItemsText(items: seq<Item>): seq<byte>
    decreases items, 0
  {
    if items == [] then []
    else
      var it := items[|items| - 1];
      ItemsText(items[..|items| - 1]) + ItemHead(it) + it.ws
  }

  function Text(v: Value): seq<byte>
    decreases v, 1
  {
    match v
    case Str(us) => StringText(us)
    case Num(n) => NumberText(n)
    case Lit(l) => LiteralText(l)
    case Coll(open, ws, items) => [open] + ws + ItemsText(items) + [CloseOf(open)]
  }

  predicate WfKey(k: Key) { WfUnits(k.units) && AllSpace(k.ws1) && AllSpace(k.ws2) }

  /** The separator and key an item may have at a given place of a collection. */
  predicate WfPrefix(open: byte, first: bool, sep: Sep, key: Option<Key>) {
    && (sep.First? <==> first)
    && (sep.Comma? ==> AllSpace(sep.ws))
    && (key.Some? <==> open == CURLY_OPEN && !sep.Nothing?)
    && (key.Some? ==> WfKey(key.value))
  }

  predicate WfItem(open: byte, first: bool, it: Item)
    decreases it, 1
  {
    && WfPrefix(open, first, it.sep, it.key) && AllSpace(it.ws) && Wf(it.value)
    && (it.sep.Nothing? ==> it.value.Coll?)
  }

  predicate WfItems(open: byte, items: seq<Item>)
    decreases items, 0
  {
    items == [] ||
    (WfItems(open, items[..|items| - 1]) && WfItem(open, |items| == 1, items[|items| - 1]))
  }

  predicate Wf(v: Value)
    decreases v, 1
  {
    match v
    case Str(us) => WfUnits(us)
    case Num(n) => WfNumber(n)
    case Lit(_) => true
    case Coll(open, ws, items) => IsOpen(open) && AllSpace(ws) && WfItems(open, items)
  }

  predicate StrictItems(items: seq<Item>)
    decreases items, 0
  {
    items == [] ||
    var it := items[|items| - 1];
    StrictItems(items[..|items| - 1]) && !it.sep.Nothing? && Strict(it.value) &&
    (it.key.Some? ==> StrictUnits(it.key.value.units))
  }

  /** The derivation uses neither relaxation. */
  predicate Strict(v: Value)
    decreases v, 1
  {
    match v
    case Str(us) => StrictUnits(us)
    case Num(_) => true
    case Lit(_) => true
    case Coll(_, _, items) => StrictItems(items)
  }

  function ItemsHeight(items: seq<Item>): nat
    decreases items, 0
  {
    if items == [] then 0
    else
      var a, b := ItemsHeight(items[..|items| - 1]), Height(items[|items| - 1].value);
      if a < b then b else a
  }

  /** How deep collections nest. */
  function Height(v: Value): nat
    decreases v, 1
  {
    if v.Coll? then 1 + ItemsHeight(v.items) else 0
  }

  /** A whole text: a value within optional white space (section 2). */
  datatype Doc = Doc(before: seq<byte>, value: Value, after: seq<byte>)

  predicate WfDoc(d: Doc) { AllSpace(d.before) && Wf(d.value) && AllSpace(d.after) }
  predicate StrictDoc(d: Doc) { WfDoc(d) && Strict(d.value) }
  function DocText(d: Doc): seq<byte> { d.before + Text(d.value) + d.after }

  // ----- first bytes

  predicate IsNumberStart(b: byte) { b == MINUS || IsDigit(b) }
  predicate IsScalarStart(b: byte) { b == QUOTE || b == TRUE[0] || b == FALSE[0] || b == NULL[0] || IsNumberStart(b) }

  predicate StartsAs(v: Value, b: byte) {
    match v
    case Str(_) => b == QUOTE
    case Num(n) => IsNumberStart(b)
    case Lit(l) => b == LiteralText(l)[0]
    case Coll(open, _, _) => b == open
  }

  lemma {:induction false} TextStart(v: Value)
    requires Wf(v)
    ensures Text(v) != [] && StartsAs(v, Text(v)[0])
    ensures !v.Coll? ==> IsScalarStart(Text(v)[0])
  {
    if v.Num? {
      assert NumberText(v.n)[0] == if v.n.minus then MINUS else v.n.whole[0];
    }
  }

  lemma {:induction false} PrefixWf(open: byte, items: seq<Item>, k: nat)
    requires WfItems(open, items) && k <= |items|
    ensures WfItems(open, items[..k])
    ensures ItemsHeight(items[..k]) <= ItemsHeight(items)
    ensures StrictItems(items) ==> StrictItems(items[..k])
    decreases |items|
  {
    if k < |items| {
      var init := items[..|items| - 1];
      PrefixWf(open, init, k);
      assert init[..k] == items[..k];
    } else {
      assert items[..k] == items;
    }
  }

  lemma {:induction false} ItemsPrefix(open: byte, items: seq<Item>, k: nat)
    requires WfItems(open, items) && k < |items|
    ensures WfItems(open, items[..k]) && WfItem(open, k == 0, items[k])
    ensures ItemsText(items[..k + 1]) == ItemsText(items[..k]) + ItemHead(items[k]) + items[k].ws
    ensures ItemsHeight(items[..k]) <= ItemsHeight(items[..k + 1]) <= ItemsHeight(items)
    ensures Height(items[k].value) <= ItemsHeight(items[..k + 1])
    ensures ItemsHeight(items[..k + 1]) <= ItemsHeight(items[..k]) || ItemsHeight(items[..k + 1]) <= Height(items[k].value)
    ensures StrictItems(items) ==> !items[k].sep.Nothing? && Strict(items[k].value)
  {
    var p := items[..k + 1];
    PrefixWf(open, items, k + 1);
    assert p != [] && p[..|p| - 1] == items[..k] && p[|p| - 1] == items[k];
  }

  /** Where the text of item k stands when the text of the items stands at `i`. */
  lemma {:induction false} ItemAt(buf: seq<byte>, i: nat, open: byte, items: seq<Item>, k: nat)
    requires WfItems(open, items) && k < |items| && At(buf, i, ItemsText(items))
    ensures At(buf, i + |ItemsText(items[..k])|, ItemHead(items[k]) + items[k].ws)
    ensures |ItemsText(items[..k])| + |ItemHead(items[k]) + items[k].ws| <= |ItemsText(items)|
    decreases |items|
  {
    hide ItemHead, WfItem;
    var init, it := items[..|items| - 1], items[|items| - 1];
    assert ItemsText(items) == ItemsText(init) + (ItemHead(it) + it.ws);
    AtConcat(buf, i, ItemsText(init), ItemHead(it) + it.ws);
    if k + 1 < |items| {
      ItemAt(buf, i, open, init, k);
      assert init[..k] == items[..k];
    } else {
      assert items[..k] == init;
    }
  }
}
