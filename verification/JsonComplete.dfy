/**
 * Completeness: on a text of the grammar the stack machine consumes exactly that text.
 *
 * By induction over the derivation: wherever the items of a collection stand, the machine runs
 * over them with the brackets it had open, and behind the closing bracket it continues as it
 * would behind a scalar. A collection that nests too deep ends the run with that verdict.
 */
module JsonComplete {
  import opened Bytes
  import opened JsonGrammar
  import opened JsonScan
  import opened JsonCollection
  import opened JsonTokens

  const TOO_DEEP := Outcome(MaxDepthExceeded, 0)

  /** Where item k of a collection at `i` starts (past the end for k = number of items). */
  function ItemPos(i: nat, v: Value, k: nat): (p: nat)
    requires v.Coll? && k <= |v.items|
    ensures i < p
  {
    i + 1 + |v.ws| + |ItemsText(v.items[..k])|
  }

  lemma {:induction false} NoItems(v: Value)
    requires v.Coll?
    ensures ItemsText(v.items[..0]) == [] && v.items[..|v.items|] == v.items
  {
  }

  lemma {:induction false} CollText(v: Value)
    requires v.Coll?
    ensures Text(v) == [v.open] + v.ws + ItemsText(v.items) + [CloseOf(v.open)]
  {
  }

  lemma {:induction false} Layout(buf: seq<byte>, i: nat, v: Value)
    requires v.Coll? && At(buf, i, Text(v))
    ensures buf[i] == v.open && At(buf, i + 1, v.ws) && At(buf, i + 1 + |v.ws|, ItemsText(v.items))
    ensures ItemPos(i, v, |v.items|) + 1 == i + |Text(v)| <= |buf|
    ensures buf[ItemPos(i, v, |v.items|)] == CloseOf(v.open)
    ensures ItemPos(i, v, 0) == i + 1 + |v.ws| && i + 1 + |v.ws| + |ItemsText(v.items)| < |buf|
  {
    hide At, Text, ItemsText;
    NoItems(v);
    var a, b, c, d := [v.open], v.ws, ItemsText(v.items), [CloseOf(v.open)];
    CollText(v);
    AtConcat4(buf, i, a, b, c, d);
    AtByte(buf, i, a, 0);
    AtByte(buf, i + |a| + |b| + |c|, d, 0);
  }

  lemma {:induction false} HeadText(it: Item)
    ensures ItemHead(it) + it.ws == SepText(it.sep) + KeyText(it.key) + Text(it.value) + it.ws
  {
  }

  lemma {:induction false} ItemIsWf(v: Value)
    requires v.Coll? && Wf(v)
    ensures WfItems(v.open, v.items) && IsOpen(v.open) && AllSpace(v.ws)
  {
  }

  /** Item k in place: separator, key, value and white space at their offsets, then item k + 1. */
  lemma {:induction false} ItemLayout(buf: seq<byte>, i: nat, v: Value, k: nat)
    requires v.Coll? && Wf(v) && At(buf, i, Text(v)) && k < |v.items|
    ensures var it, p := v.items[k], ItemPos(i, v, k);
            var q := p + |SepText(it.sep)|;
            var x := q + |KeyText(it.key)|;
            var e := x + |Text(it.value)|;
            && At(buf, p, SepText(it.sep)) && At(buf, q, KeyText(it.key)) && At(buf, x, Text(it.value))
            && At(buf, e, it.ws) && ItemPos(i, v, k + 1) == e + |it.ws| < |buf|
  {
    hide At, KeyText, SepText, Wf, WfItem, Text, ItemHead, ItemsText, WfItems;
    Layout(buf, i, v);
    assert WfItems(v.open, v.items) by { ItemIsWf(v); }
    var it, p := v.items[k], ItemPos(i, v, k);
    ItemAt(buf, i + 1 + |v.ws|, v.open, v.items, k);
    ItemsPrefix(v.open, v.items, k);
    var a, b, c := SepText(it.sep), KeyText(it.key), Text(it.value);
    HeadText(it);
    AtConcat4(buf, p, a, b, c, it.ws);
  }

  /** The byte at the start of an item: a comma, a quote, or the first byte of the value. */
  lemma {:induction false} ItemStart(buf: seq<byte>, p: nat, open: byte, first: bool, it: Item)
    requires WfItem(open, first, it) && At(buf, p, SepText(it.sep))
    requires var q := p + |SepText(it.sep)|;
             At(buf, q, KeyText(it.key)) && At(buf, q + |KeyText(it.key)|, Text(it.value))
    ensures var q := p + |SepText(it.sep)|;
            && q < |buf| && Text(it.value) != []
            && buf[q] == if it.key.Some? then QUOTE else Text(it.value)[0]
    ensures it.sep.Comma? ==> buf[p] == COMMA
  {
    hide Text, Wf;
    var q := p + |SepText(it.sep)|;
    TextStart(it.value);
    if it.sep.Comma? {
      AtByte(buf, p, SepText(it.sep), 0);
    }
    if it.key.Some? {
      AtByte(buf, q, KeyText(it.key), 0);
    } else {
      AtByte(buf, q, Text(it.value), 0);
    }
  }

  lemma {:induction false} StartIsOpen(v: Value)
    requires v.Coll? && Wf(v)
    ensures IsOpen(Text(v)[0])
  {
  }

  /** The byte that follows an item and its white space. */
  lemma {:induction false} NextByte(buf: seq<byte>, i: nat, v: Value, k: nat)
    requires v.Coll? && Wf(v) && At(buf, i, Text(v)) && 0 < k <= |v.items|
    ensures var p := ItemPos(i, v, k);
            && p < |buf| && !IsSpace(buf[p]) && !ContinuesNumber(buf[p])
            && (k < |v.items| && v.items[k].sep.Comma? ==> buf[p] == COMMA)
            && (k < |v.items| && !v.items[k].sep.Comma? ==> IsOpen(buf[p]) && v.items[k].sep.Nothing?)
  {
    hide At, KeyText, ItemPos, Wf, Text, WfItems, ItemsText, WfKey, AllSpace;
    if k < |v.items| {
      assert WfItems(v.open, v.items) by { ItemIsWf(v); }
      ItemLayout(buf, i, v, k);
      ItemsPrefix(v.open, v.items, k);
      ItemStart(buf, ItemPos(i, v, k), v.open, false, v.items[k]);
      if v.items[k].sep.Nothing? {
        StartIsOpen(v.items[k].value);
      }
    } else {
      Layout(buf, i, v);
    }
  }

  /** The byte that follows a value. */
  lemma {:induction false} ValueFollow(buf: seq<byte>, i: nat, v: Value, k: nat, e: nat)
    requires v.Coll? && Wf(v) && At(buf, i, Text(v)) && k < |v.items|
    requires At(buf, e, v.items[k].ws) && AllSpace(v.items[k].ws) && e + |v.items[k].ws| == ItemPos(i, v, k + 1)
    ensures EndsNumber(buf, e)
    ensures var p := ItemPos(i, v, k + 1); SpaceEnd(buf, e) == p == SpaceEnd(buf, p) && p < |buf|
  {
    hide ItemPos, Text, Wf;
    NextByte(buf, i, v, k + 1);
    SpaceRun(buf, e, v.items[k].ws);
    if v.items[k].ws != [] {
      AtByte(buf, e, v.items[k].ws, 0);
    }
  }

  // ----- one item

  lemma {:induction false} CommaTaken(buf: seq<byte>, p: nat, ws: seq<byte>)
    requires At(buf, p, [COMMA] + ws) && AllSpace(ws)
    requires var q := p + 1 + |ws|; q < |buf| && !IsSpace(buf[q]) && !IsClose(buf[q])
    ensures CommaEnd(buf, p) == (p + 1 + |ws|, true)
  {
    AtConcat(buf, p, [COMMA], ws);
    AtByte(buf, p, [COMMA], 0);
    SpaceRun(buf, p + 1, ws);
  }

  /** What follows a scan of scalars. */
  function Scanned(buf: seq<byte>, e: Option<nat>, st: seq<byte>): Outcome
    requires e.Some? ==> e.value <= |buf|
  {
    if e.Some? then Run(buf, e.value, st) else ILLEGAL
  }

  function ModeScan(buf: seq<byte>, p: nat, mode: byte): (e: Option<nat>)
    requires p <= |buf|
    ensures e.Some? ==> e.value <= |buf|
  {
    if mode == SQUARE_OPEN then Some(ArrayScalarsEnd(buf, p)) else ObjectScalarsEnd(buf, p)
  }

  lemma {:induction false} ResumeScan(buf: seq<byte>, p: nat, st: seq<byte>)
    requires st != [] && p < |buf| && !IsSpace(buf[p]) && !IsClose(buf[p])
    ensures Resume(buf, p, st) == Scanned(buf, ModeScan(buf, p, st[|st| - 1]), st)
  {
    hide Run, ArrayScalarsEnd, ObjectScalarsEnd;
  }

  /** Going on after a scalar at `e` is what the scanners do. */
  lemma {:induction false} ContinueScan(buf: seq<byte>, e: nat, st: seq<byte>)
    requires st != [] && e <= |buf|
    ensures var (p, comma) := CommaEnd(buf, e);
            Continue(buf, e, st) == Scanned(buf, if comma then ModeScan(buf, p, st[|st| - 1]) else Some(p), st)
  {
    hide Run, ModeScan, Resume, CommaEnd;
    var (p, comma) := CommaEnd(buf, e);
    if comma {
      ResumeScan(buf, p, st);
    }
  }

  /** Scanning a scalar of an array and going on is the same as going on after it. */
  lemma {:induction false} ArrayItem(buf: seq<byte>, x: nat, st: seq<byte>, v: Value, r: Outcome)
    requires st != [] && st[|st| - 1] == SQUARE_OPEN && Wf(v) && At(buf, x, Text(v))
    requires v.Coll? ==> Run(buf, x, st) == r
    requires !v.Coll? ==> EndsNumber(buf, x + |Text(v)|) && Continue(buf, x + |Text(v)|, st) == r
    ensures Resume(buf, x, st) == r
  {
    hide ScalarEnd, CommaEnd, Text, Wf, Run, SpaceEnd, Resume, Continue;
    TextStart(v);
    AtByte(buf, x, Text(v), 0);
    if v.Coll? {
      if ScalarEnd(buf, x).Some? {
        ScalarStart(buf, x);
      }
      StartIsOpen(v);
    } else {
      ScalarComplete(buf, x, v);
      ContinueScan(buf, x + |Text(v)|, st);
    }
    ResumeScan(buf, x, st);
  }

  lemma {:induction false} ValueStart(buf: seq<byte>, x: nat, v: Value)
    requires Wf(v) && At(buf, x, Text(v))
    ensures x < |buf| && !IsSpace(buf[x]) && !IsClose(buf[x]) && (IsOpen(buf[x]) <==> v.Coll?)
  {
    hide At, Text, Wf;
    TextStart(v);
    AtByte(buf, x, Text(v), 0);
    if v.Coll? {
      StartIsOpen(v);
    }
  }

  /** One turn of the object scanner from a key at `q`, colon at `c`, value at `x`. */
  lemma {:induction false} ObjectScan(buf: seq<byte>, q: nat, c: nat, x: nat, e: nat)
    requires q <= |buf| && StringEnd(buf, q).Some? && c == SpaceEnd(buf, StringEnd(buf, q).value)
    requires c < |buf| && buf[c] == COLON && SpaceEnd(buf, c + 1) == x < |buf|
    ensures IsOpen(buf[x]) ==> ObjectScalarsEnd(buf, q) == Some(x)
    ensures !IsOpen(buf[x]) && ScalarEnd(buf, x) == Some(e) ==>
              var (p, comma) := CommaEnd(buf, e);
              ObjectScalarsEnd(buf, q) == if comma then ObjectScalarsEnd(buf, p) else Some(p)
  {
    hide ScalarEnd, CommaEnd, SpaceEnd, StringEnd;
  }

  lemma {:induction false} KeyScan(buf: seq<byte>, q: nat, key: Key) returns (c: nat)
    requires WfKey(key) && At(buf, q, KeyText(Some(key)))
    ensures q < |buf| && buf[q] == QUOTE && StringEnd(buf, q).Some?
    ensures c == SpaceEnd(buf, StringEnd(buf, q).value) && c < |buf| && buf[c] == COLON
    ensures var x := q + |KeyText(Some(key))|; x < |buf| && !IsSpace(buf[x]) ==> SpaceEnd(buf, c + 1) == x
    ensures StringEnd(buf, q).value == q + |StringText(key.units)|
  {
    hide StringText, StringEnd, SpaceEnd, At, AllSpace, WfUnits;
    var a, b, d, e := StringText(key.units), key.ws1, [COLON], key.ws2;
    AtConcat4(buf, q, a, b, d, e);
    StringComplete(buf, q, key.units);
    c := q + |a| + |b|;
    AtByte(buf, c, d, 0);
    SpaceRun(buf, q + |a|, b);
    SpaceRun(buf, c + 1, e);
  }

  /** Scanning a key and a scalar of an object and going on is the same as going on after them. */
  lemma {:induction false} ObjectItem(buf: seq<byte>, q: nat, st: seq<byte>, key: Key, v: Value, r: Outcome)
    requires st != [] && st[|st| - 1] == CURLY_OPEN && WfKey(key) && Wf(v)
    requires At(buf, q, KeyText(Some(key)))
    requires var x := q + |KeyText(Some(key))|;
             && At(buf, x, Text(v))
             && (v.Coll? ==> Run(buf, x, st) == r)
             && (!v.Coll? ==> EndsNumber(buf, x + |Text(v)|) && Continue(buf, x + |Text(v)|, st) == r)
    ensures Resume(buf, q, st) == r
  {
    hide At, ScalarEnd, CommaEnd, Text, Wf, WfKey, Run, SpaceEnd, StringEnd, KeyText, ObjectScalarsEnd, Resume, Continue;
    var x := q + |KeyText(Some(key))|;
    var e := x + |Text(v)|;
    var c := KeyScan(buf, q, key);
    ValueStart(buf, x, v);
    if !v.Coll? {
      ScalarComplete(buf, x, v);
      ContinueScan(buf, e, st);
    }
    ObjectScan(buf, q, c, x, e);
    ResumeScan(buf, q, st);
  }

  // ----- the machine simulates the derivation

  function Final(buf: seq<byte>, e: nat, st: seq<byte>, depth: nat): Outcome
    requires 0 < e <= |buf|
  {
    if |st| + depth <= MAX_DEPTH then Close(buf, e, st) else TOO_DEEP
  }

  /** Machine state before item k: just resumed when k is 0, just after item k - 1 otherwise. */
  function Before(buf: seq<byte>, p: nat, k: nat, st: seq<byte>): Outcome
    requires p <= |buf| && st != []
  {
    if k == 0 then Resume(buf, p, st) else Continue(buf, p, st)
  }

  lemma {:induction false} SameSpace(buf: seq<byte>, i: nat, p: nat, st: seq<byte>)
    requires i <= p <= |buf| && st != [] && SpaceEnd(buf, i) == SpaceEnd(buf, p)
    ensures Resume(buf, i, st) == Resume(buf, p, st) && Continue(buf, i, st) == Continue(buf, p, st)
  {
    hide Run, ArrayScalarsEnd, ObjectScalarsEnd, SpaceEnd;
  }

  /** When the value is a collection, the machine has been shown to consume it. */
  predicate ValueDone(buf: seq<byte>, x: nat, v: Value, st: seq<byte>) {
    var e := x + |Text(v)|;
    v.Coll? ==> 0 < e <= |buf| && Run(buf, x, st) == Final(buf, e, st, Height(v))
  }

  /** Scanning one item that has a separator of its own, from behind that separator. */
  lemma {:induction false} ScanItem(buf: seq<byte>, q: nat, open: byte, first: bool, it: Item, st: seq<byte>)
    requires st != [] && st[|st| - 1] == open && |st| <= MAX_DEPTH && IsOpen(open)
    requires WfItem(open, first, it) && !it.sep.Nothing? && At(buf, q, KeyText(it.key))
    requires var x := q + |KeyText(it.key)|; At(buf, x, Text(it.value)) && EndsNumber(buf, x + |Text(it.value)|)
    requires var x := q + |KeyText(it.key)|; ValueDone(buf, x, it.value, st)
    ensures var x := q + |KeyText(it.key)|;
            && 0 < x + |Text(it.value)| <= |buf|
            && Resume(buf, q, st) == Final(buf, x + |Text(it.value)|, st, Height(it.value))
  {
    hide Text, Run, Resume, Continue, Wf, StringText;
    var x := q + |KeyText(it.key)|;
    TextStart(it.value);
    var r := Final(buf, x + |Text(it.value)|, st, Height(it.value));
    if it.key.None? {
      ArrayItem(buf, x, st, it.value, r);
    } else {
      ObjectItem(buf, q, st, it.key.value, it.value, r);
    }
  }

  lemma {:induction false} NoComma(buf: seq<byte>, p: nat)
    requires p < |buf| && !IsSpace(buf[p]) && buf[p] != COMMA
    ensures CommaEnd(buf, p) == (p, false)
  {
  }

  /** A separator brings the machine to the item behind it. */
  lemma {:induction false} SepStep(buf: seq<byte>, p: nat, open: byte, k: nat, it: Item, st: seq<byte>)
    requires st != [] && WfItem(open, k == 0, it) && At(buf, p, SepText(it.sep)) && IsOpen(open)
    requires var q := p + |SepText(it.sep)|;
             At(buf, q, KeyText(it.key)) && At(buf, q + |KeyText(it.key)|, Text(it.value))
    ensures var q := p + |SepText(it.sep)|;
            && p <= q <= |buf|
            && Before(buf, p, k, st) == if it.sep.Nothing? then Run(buf, q, st) else Resume(buf, q, st)
  {
    hide Text, KeyText, Run, Resume, CommaEnd, SpaceEnd, Wf, StringText, At, WfKey;
    ItemStart(buf, p, open, k == 0, it);
    TextStart(it.value);
    if it.value.Coll? {
      StartIsOpen(it.value);
    }
    if it.sep.Nothing? {
      NoComma(buf, p);
    } else if it.sep.Comma? {
      CommaTaken(buf, p, it.sep.ws);
    }
  }

  lemma {:induction false} NothingKey(open: byte, first: bool, it: Item)
    requires WfItem(open, first, it) && it.sep.Nothing?
    ensures KeyText(it.key) == [] && it.value.Coll?
  {
  }

  /** Item k, given what the machine makes of its value when that is a collection. */
  lemma {:induction false} ItemStep(buf: seq<byte>, i: nat, v: Value, k: nat, st: seq<byte>)
    requires v.Coll? && Wf(v) && At(buf, i, Text(v)) && k < |v.items|
    requires st != [] && st[|st| - 1] == v.open && |st| <= MAX_DEPTH
    requires var it := v.items[k];
             ValueDone(buf, ItemPos(i, v, k) + |SepText(it.sep)| + |KeyText(it.key)|, it.value, st)
    ensures ItemPos(i, v, k) <= ItemPos(i, v, k + 1) <= |buf|
    ensures Before(buf, ItemPos(i, v, k), k, st) ==
            if |st| + Height(v.items[k].value) <= MAX_DEPTH then Before(buf, ItemPos(i, v, k + 1), k + 1, st) else TOO_DEEP
  {
    hide At, Text, KeyText, SepText, Run, Resume, Continue, ItemPos, SpaceEnd, Wf, ItemsText, WfItems;
    assert WfItems(v.open, v.items) && IsOpen(v.open) by { ItemIsWf(v); }
    var it, p := v.items[k], ItemPos(i, v, k);
    var q := p + |SepText(it.sep)|;
    var e := q + |KeyText(it.key)| + |Text(it.value)|;
    ItemLayout(buf, i, v, k);
    ItemsPrefix(v.open, v.items, k);
    ValueFollow(buf, i, v, k, e);
    SepStep(buf, p, v.open, k, it, st);
    if !it.sep.Nothing? {
      ScanItem(buf, q, v.open, k == 0, it, st);
    } else {
      NothingKey(v.open, k == 0, it);
    }
    assert Before(buf, p, k, st) == Final(buf, e, st, Height(it.value));
    SameSpace(buf, e, ItemPos(i, v, k + 1), st);
  }

  lemma {:induction false} CloseStep(buf: seq<byte>, i: nat, v: Value, st: seq<byte>)
    requires v.Coll? && Wf(v) && At(buf, i, Text(v))
    ensures ItemPos(i, v, |v.items|) < |buf| && i + |Text(v)| <= |buf|
    ensures Before(buf, ItemPos(i, v, |v.items|), |v.items|, st + [v.open]) == Close(buf, i + |Text(v)|, st)
  {
    hide Text, ItemPos, ItemsText, Close, ArrayScalarsEnd, ObjectScalarsEnd;
    Layout(buf, i, v);
    assert (st + [v.open])[..|st|] == st;
    assert Run(buf, ItemPos(i, v, |v.items|), st + [v.open]) == Close(buf, i + |Text(v)|, st);
    if v.items == [] {
    } else {
      NoComma(buf, ItemPos(i, v, |v.items|));
    }
  }

  lemma {:induction false} OpenStep(buf: seq<byte>, i: nat, v: Value, st: seq<byte>)
    requires v.Coll? && Wf(v) && At(buf, i, Text(v)) && st != []
    ensures ItemPos(i, v, 0) <= |buf| && i < |buf|
    ensures Resume(buf, i + 1, st) == Resume(buf, ItemPos(i, v, 0), st)
  {
    hide Text, Resume, Continue, ItemPos, ItemsText, SpaceEnd;
    Layout(buf, i, v);
    SpaceRun(buf, i + 1, v.ws);
    SameSpace(buf, i + 1, ItemPos(i, v, 0), st);
  }

  /** The machine consumes a collection whole, whatever follows it, or finds it too deep. */
  lemma {:induction false} ValueComplete(buf: seq<byte>, i: nat, v: Value, st: seq<byte>)
    requires v.Coll? && Wf(v) && At(buf, i, Text(v)) && |st| <= MAX_DEPTH
    ensures 0 < i + |Text(v)| <= |buf|
    ensures Run(buf, i, st) == Final(buf, i + |Text(v)|, st, Height(v))
    decreases v, 1
  {
    hide Text, Resume, Continue, Close, ItemPos, SpaceEnd, Wf, ItemsText;
    assert IsOpen(v.open) by { ItemIsWf(v); }
    Layout(buf, i, v);
    if |st| < MAX_DEPTH {
      var st1 := st + [v.open];
      OpenStep(buf, i, v, st1);
      assert v.items[..0] == [];
      ItemsComplete(buf, i, v, 0, st);
    }
  }

  lemma {:induction false} ItemsComplete(buf: seq<byte>, i: nat, v: Value, k: nat, st: seq<byte>)
    requires v.Coll? && Wf(v) && At(buf, i, Text(v)) && k <= |v.items| && ItemPos(i, v, k) <= |buf|
    requires |st| < MAX_DEPTH && |st| + 1 + ItemsHeight(v.items[..k]) <= MAX_DEPTH
    ensures Before(buf, ItemPos(i, v, k), k, st + [v.open]) == Final(buf, i + |Text(v)|, st, Height(v))
    decreases v, 0, |v.items| - k
  {
    hide Text, KeyText, SepText, Run, Resume, Continue, Close, CommaEnd, ItemPos, SpaceEnd, Wf, ItemsText, WfItems;
    assert WfItems(v.open, v.items) && IsOpen(v.open) by { ItemIsWf(v); }
    var st1 := st + [v.open];
    if k == |v.items| {
      assert v.items[..k] == v.items;
      CloseStep(buf, i, v, st);
    } else {
      var it, p := v.items[k], ItemPos(i, v, k);
      var x := p + |SepText(it.sep)| + |KeyText(it.key)|;
      ItemLayout(buf, i, v, k);
      ItemsPrefix(v.open, v.items, k);
      if it.value.Coll? {
        ValueComplete(buf, x, it.value, st1);
      }
      ItemStep(buf, i, v, k, st1);
      if |st1| + Height(it.value) <= MAX_DEPTH {
        ItemsComplete(buf, i, v, k + 1, st);
      }
    }
  }
}
