/** Searching and iterating against the derivation tree. */
module JsonLookup {
  import opened Bytes
  import opened JsonGrammar
  import opened JsonScan
  import opened JsonCollection
  import opened JsonTokens
  import opened JsonComplete
  import opened JsonText
  import opened JsonSearch
  import JsonUnique

  // A query finds what a recursive walk down the tree finds, and iteration visits the members one by one.

  // ----- where things stand in the text of a collection at `i`

  function HeadPos(i: nat, v: Value, k: nat): nat
    requires v.Coll? && k < |v.items|
  {
    ItemPos(i, v, k) + |SepText(v.items[k].sep)|
  }

  function ValuePos(i: nat, v: Value, k: nat): (p: nat)
    requires v.Coll? && k < |v.items|
    ensures i < p
  {
    HeadPos(i, v, k) + |KeyText(v.items[k].key)|
  }

  function EndPos(i: nat, v: Value, k: nat): nat
    requires v.Coll? && k < |v.items|
  {
    ValuePos(i, v, k) + |Text(v.items[k].value)|
  }

  function ValueSpan(i: nat, v: Value, k: nat): Span
    requires v.Coll? && k < |v.items|
  {
    Span(ValuePos(i, v, k), |Text(v.items[k].value)|)
  }

  function KeySpan(i: nat, v: Value, k: nat): Span
    requires v.Coll? && k < |v.items| && v.items[k].key.Some?
  {
    Span(HeadPos(i, v, k) + 1, |UnitsText(v.items[k].key.value.units)|)
  }

  /** A collection of an RFC text standing at `i`, nested no deeper than the library goes. */
  ghost predicate Stands(buf: seq<byte>, i: nat, v: Value) {
    v.Coll? && Wf(v) && Strict(v) && Height(v) <= MAX_DEPTH && At(buf, i, Text(v))
  }

  lemma {:induction false} HeadByte(buf: seq<byte>, q: nat, it: Item)
    requires Wf(it.value) && q < |buf| && Text(it.value) != []
    requires buf[q] == if it.key.Some? then QUOTE else Text(it.value)[0]
    ensures !IsSpace(buf[q]) && !IsClose(buf[q])
  {
    hide Text, Wf;
    TextStart(it.value);
    if it.value.Coll? {
      StartIsOpen(it.value);
    }
  }

  lemma {:induction false} ItemStands(buf: seq<byte>, i: nat, v: Value, k: nat)
    requires Stands(buf, i, v) && k < |v.items|
    ensures IsOpen(v.open) && WfItem(v.open, k == 0, v.items[k]) && !v.items[k].sep.Nothing?
    ensures var w := v.items[k].value; Wf(w) && Strict(w) && Height(w) <= MAX_DEPTH
    ensures At(buf, HeadPos(i, v, k), KeyText(v.items[k].key)) && At(buf, ValuePos(i, v, k), Text(v.items[k].value))
    ensures EndsNumber(buf, EndPos(i, v, k)) && EndPos(i, v, k) < |buf|
    ensures SpaceEnd(buf, EndPos(i, v, k)) == ItemPos(i, v, k + 1) == SpaceEnd(buf, ItemPos(i, v, k + 1)) < |buf|
    ensures var x := ValuePos(i, v, k); x < |buf| && !IsSpace(buf[x]) && !IsClose(buf[x])
    ensures var q := HeadPos(i, v, k); q < |buf| && !IsSpace(buf[q]) && !IsClose(buf[q])
  {
    hide At, Text, KeyText, SepText, ItemPos, WfItems, ItemsText, WfKey, SpaceEnd, EndsNumber;
    var it := v.items[k];
    ItemLayout(buf, i, v, k);
    ItemsPrefix(v.open, v.items, k);
    ItemStart(buf, ItemPos(i, v, k), v.open, k == 0, it);
    ValueFollow(buf, i, v, k, EndPos(i, v, k));
    ValueStart(buf, ValuePos(i, v, k), it.value);
    HeadByte(buf, HeadPos(i, v, k), it);
  }

  // ----- scanning values and pairs

  lemma {:induction false} ValueFound(buf: seq<byte>, x: nat, v: Value)
    requires Wf(v) && Height(v) <= MAX_DEPTH && At(buf, x, Text(v)) && EndsNumber(buf, x + |Text(v)|)
    ensures x <= |buf| && ValueEnd(buf, x) == Some(x + |Text(v)|)
  {
    hide At, Text, Wf, Run, ScalarEnd, EndsNumber;
    ValueStart(buf, x, v);
    if v.Coll? {
      if ScalarEnd(buf, x).Some? {
        ScalarStart(buf, x);
      }
      ValueComplete(buf, x, v, []);
    } else {
      ScalarComplete(buf, x, v);
    }
  }

  lemma {:induction false} SameComma(buf: seq<byte>, e: nat, p: nat)
    requires SpaceEnd(buf, e) == SpaceEnd(buf, p)
    ensures CommaEnd(buf, e) == CommaEnd(buf, p)
  {
    hide SpaceEnd;
  }

  /** After a member: the comma and the next member, or the closing bracket. */
  lemma {:induction false} NextMember(buf: seq<byte>, i: nat, v: Value, k: nat)
    requires Stands(buf, i, v) && k < |v.items|
    ensures CommaEnd(buf, EndPos(i, v, k)) ==
            if k + 1 < |v.items| then (HeadPos(i, v, k + 1), true) else (ItemPos(i, v, k + 1), false)
    ensures ItemPos(i, v, k + 1) < |buf|
  {
    hide At, Text, KeyText, ItemPos, ValuePos, EndPos, Wf, Strict, Height, SpaceEnd, WfKey, CommaEnd;
    ItemStands(buf, i, v, k);
    var p := ItemPos(i, v, k + 1);
    SameComma(buf, EndPos(i, v, k), p);
    JsonUnique.StartByte(buf, i, v, k + 1);
    if k + 1 < |v.items| {
      ItemStands(buf, i, v, k + 1);
      ItemLayout(buf, i, v, k + 1);
      CommaTaken(buf, p, v.items[k + 1].sep.ws);
    } else {
      NoComma(buf, p);
    }
  }

  lemma {:induction false} KeyInside(buf: seq<byte>, q: nat, key: Key)
    requires At(buf, q, KeyText(Some(key)))
    ensures At(buf, q + 1, UnitsText(key.units)) && |StringText(key.units)| == |UnitsText(key.units)| + 2
  {
    hide At, UnitsText, StringText;
    AtConcat4(buf, q, StringText(key.units), key.ws1, [COLON], key.ws2);
    StringSplit(buf, q, key.units);
    AtConcat(buf, q + 1, UnitsText(key.units), [QUOTE]);
  }

  lemma {:induction false} PairFound(buf: seq<byte>, i: nat, v: Value, k: nat)
    requires Stands(buf, i, v) && v.open == CURLY_OPEN && k < |v.items|
    ensures v.items[k].key.Some? && HeadPos(i, v, k) < |buf|
    ensures PairAt(buf, HeadPos(i, v, k)) == Some(KeyValue(KeySpan(i, v, k), ValueSpan(i, v, k), EndPos(i, v, k)))
    ensures At(buf, KeySpan(i, v, k).start, UnitsText(v.items[k].key.value.units))
  {
    hide At, Text, KeyText, ItemPos, Wf, Strict, SepText, SpaceEnd, WfKey, StringEnd, ValueEnd, UnitsText, EndsNumber;
    ItemStands(buf, i, v, k);
    var key := v.items[k].key.value;
    var q := HeadPos(i, v, k);
    var c := KeyScan(buf, q, key);
    ValueFound(buf, ValuePos(i, v, k), v.items[k].value);
    KeyInside(buf, q, key);
  }

  // ----- lookup in one collection

  /** The first member from k on with the given raw key. */
  function FirstKey(items: seq<Item>, name: seq<byte>, k: nat): (m: nat)
    requires k <= |items|
    ensures k <= m <= |items|
    ensures m < |items| ==> items[m].key.Some? && UnitsText(items[m].key.value.units) == name
    ensures forall n | k <= n < m :: items[n].key.Some? ==> UnitsText(items[n].key.value.units) != name
    decreases |items| - k
  {
    if k == |items| || (items[k].key.Some? && UnitsText(items[k].key.value.units) == name) then k
    else FirstKey(items, name, k + 1)
  }

  lemma {:induction false} KeyMatches(buf: seq<byte>, i: nat, v: Value, k: nat)
    requires v.Coll? && k < |v.items| && v.items[k].key.Some?
    requires At(buf, KeySpan(i, v, k).start, UnitsText(v.items[k].key.value.units))
    ensures var s := KeySpan(i, v, k);
            s.start + s.length <= |buf| && buf[s.start..s.start + s.length] == UnitsText(v.items[k].key.value.units)
  {
    hide HeadPos, UnitsText;
  }

  lemma {:induction false} PairsFound(buf: seq<byte>, i: nat, v: Value, k: nat, name: seq<byte>)
    requires Stands(buf, i, v) && v.open == CURLY_OPEN && k < |v.items|
    ensures HeadPos(i, v, k) <= |buf|
    ensures var m := FirstKey(v.items, name, k);
            FindPair(buf, HeadPos(i, v, k), name) == if m < |v.items| then Some(ValueSpan(i, v, m)) else None
    decreases |v.items| - k
  {
    hide At, Wf, Strict, Height, Text, HeadPos, EndPos, ValueSpan, PairAt, CommaEnd, ItemPos;
    PairFound(buf, i, v, k);
    KeyMatches(buf, i, v, k);
    NextMember(buf, i, v, k);
    if k + 1 < |v.items| {
      PairsFound(buf, i, v, k + 1, name);
    }
  }

  lemma {:induction false} ElementFound(buf: seq<byte>, i: nat, v: Value, k: nat)
    requires Stands(buf, i, v) && v.open == SQUARE_OPEN && k < |v.items|
    ensures HeadPos(i, v, k) == ValuePos(i, v, k) <= |buf| && v.items[k].key.None?
    ensures ValueEnd(buf, HeadPos(i, v, k)) == Some(EndPos(i, v, k))
  {
    hide At, Text, ItemPos, Wf, Strict, Height, SepText, SpaceEnd, ValueEnd, EndsNumber, StringText;
    ItemStands(buf, i, v, k);
    ValueFound(buf, ValuePos(i, v, k), v.items[k].value);
  }

  lemma {:induction false} ElementsFound(buf: seq<byte>, i: nat, v: Value, k: nat, n: nat)
    requires Stands(buf, i, v) && v.open == SQUARE_OPEN && k < |v.items|
    ensures HeadPos(i, v, k) <= |buf|
    ensures FindElement(buf, HeadPos(i, v, k), n) == if k + n < |v.items| then Some(ValueSpan(i, v, k + n)) else None
    decreases |v.items| - k
  {
    hide At, Wf, Strict, Height, Text, HeadPos, ValuePos, ValueEnd, CommaEnd, ItemPos;
    ElementFound(buf, i, v, k);
    NextMember(buf, i, v, k);
    if k + 1 < |v.items| && n > 0 {
      ElementsFound(buf, i, v, k + 1, n - 1);
    }
  }

  lemma {:induction false} FirstHasNoSep(open: byte, it: Item)
    requires WfItem(open, true, it)
    ensures it.sep == First
  {
  }

  /** Behind the opening bracket and white space: the first member, or the closing bracket. */
  lemma {:induction false} FirstMember(buf: seq<byte>, i: nat, v: Value)
    requires Stands(buf, i, v)
    ensures i < |buf| && buf[i] == v.open
    ensures if v.items == [] then
              var p := SpaceEnd(buf, i + 1); p < |buf| && IsClose(buf[p]) && p == ItemPos(i, v, 0)
            else SpaceEnd(buf, i + 1) == HeadPos(i, v, 0)
  {
    hide At, Text, ItemPos, Wf, Strict, Height, SpaceEnd, WfItem;
    JsonUnique.SpaceFirst(buf, i, v);
    JsonUnique.StartByte(buf, i, v, 0);
    if v.items != [] {
      ItemStands(buf, i, v, 0);
      FirstHasNoSep(v.open, v.items[0]);
    }
  }

  lemma {:induction false} NothingAtClose(buf: seq<byte>, p: nat)
    requires p < |buf| && IsClose(buf[p])
    ensures ValueEnd(buf, p).None? && PairAt(buf, p).None?
  {
    hide ScalarEnd;
    if ScalarEnd(buf, p).Some? {
      ScalarStart(buf, p);
    }
  }

  /** What the library can search: an RFC text that it validates. */
  ghost predicate Searchable(d: Doc) { StrictDoc(d) && Height(d.value) <= MAX_DEPTH }

  function ValueKind(v: Value): Kind {
    match v
    case Str(_) => JSONString
    case Num(_) => JSONNumber
    case Lit(l) => (match l case True => JSONTrue case False => JSONFalse case Null => JSONNull)
    case Coll(open, _, _) => if open == CURLY_OPEN then JSONObject else JSONArray
  }

  lemma {:induction false} KindFound(buf: seq<byte>, x: nat, v: Value)
    requires Wf(v) && At(buf, x, Text(v))
    ensures x < |buf| && KindOf(buf[x]) == ValueKind(v)
    ensures v.Str? ==> |Text(v)| >= 2
  {
    hide At, NumberText, UnitsText;
    TextStart(v);
    AtByte(buf, x, Text(v), 0);
  }

  lemma {:induction false} DocStands(d: Doc)
    requires Searchable(d)
    ensures var buf, i := DocText(d), |d.before|;
            && SpaceEnd(buf, 0) == i < |buf| && (d.value.Coll? ==> Stands(buf, i, d.value) && buf[i] == d.value.open && IsOpen(buf[i]))
            && (!d.value.Coll? ==> !IsOpen(buf[i]))
            && At(buf, i, Text(d.value)) && KindOf(buf[i]) == ValueKind(d.value)
  {
    hide Text, Wf, Strict, Height, At, DocText, SpaceEnd;
    DocLayout(d);
    ValueStart(DocText(d), |d.before|, d.value);
    KindFound(DocText(d), |d.before|, d.value);
    if d.value.Coll? {
      Layout(DocText(d), |d.before|, d.value);
    }
  }

  lemma {:induction false} ObjectFound(d: Doc, name: seq<byte>)
    requires Searchable(d)
    ensures var i, v := |d.before|, d.value;
            ObjectFind(DocText(d), name) ==
            if v.Coll? && v.open == CURLY_OPEN && FirstKey(v.items, name, 0) < |v.items|
            then Some(ValueSpan(i, v, FirstKey(v.items, name, 0))) else None
  {
    hide Stands, DocText, FirstKey, SpaceEnd, At, Searchable, ValueKind, KindOf;
    var buf, i, v := DocText(d), |d.before|, d.value;
    DocStands(d);
    if v.Coll? {
      FirstMember(buf, i, v);
      if v.open == CURLY_OPEN {
        if v.items == [] {
          NothingAtClose(buf, SpaceEnd(buf, i + 1));
        } else {
          PairsFound(buf, i, v, 0, name);
        }
      }
    }
  }

  lemma {:induction false} ArrayFound(d: Doc, n: nat)
    requires Searchable(d)
    ensures var i, v := |d.before|, d.value;
            ArrayFind(DocText(d), n) ==
            if v.Coll? && v.open == SQUARE_OPEN && n < |v.items| then Some(ValueSpan(i, v, n)) else None
  {
    hide Stands, DocText, SpaceEnd, At, Searchable, ValueKind, KindOf, ValueEnd, ValueSpan, HeadPos, ItemPos;
    var buf, i, v := DocText(d), |d.before|, d.value;
    DocStands(d);
    if v.Coll? {
      FirstMember(buf, i, v);
      if v.open == SQUARE_OPEN {
        if v.items == [] {
          NothingAtClose(buf, SpaceEnd(buf, i + 1));
        } else {
          ElementsFound(buf, i, v, 0, n);
        }
      }
    }
  }

  // ----- queries

  /** One step of a query; `dot` says whether a separator is written before it. */
  datatype Step = ByKey(dot: bool, name: seq<byte>) | ByIndex(dot: bool, digits: seq<byte>)

  predicate WfStep(s: Step) {
    match s
    case ByKey(_, name) => name != [] && forall k | 0 <= k < |name| :: !EndsPart(name[k])
    case ByIndex(_, digits) => digits != [] && AllDigits(digits)
  }

  /** A key directly after a key needs a separator between them. */
  predicate WfPath(path: seq<Step>) {
    && (forall k | 0 <= k < |path| :: WfStep(path[k]))
    && (forall k | 1 <= k < |path| :: path[k - 1].ByKey? && path[k].ByKey? ==> path[k].dot)
  }

  function Body(s: Step): seq<byte> {
    match s
    case ByKey(_, name) => name
    case ByIndex(_, digits) => [SQUARE_OPEN] + digits + [SQUARE_CLOSE]
  }

  function Render(path: seq<Step>): seq<byte>
    decreases |path|, 0
  {
    if path == [] then [] else Body(path[0]) + RenderRest(path[1..])
  }

  function RenderRest(path: seq<Step>): seq<byte>
    decreases |path|, 1
  {
    if path == [] then [] else (if path[0].dot then [DOT] else []) + Render(path)
  }

  datatype Hit = Hit(value: Value, pos: nat) | Missing | BadIndex

  /** The recursive walk: where a path leads from the value standing at `pos`. */
  function Lookup(v: Value, pos: nat, path: seq<Step>): Hit
    requires WfPath(path)
    decreases |path|
  {
    if path == [] then Hit(v, pos)
    else
      match path[0]
      case ByKey(_, name) =>
        if v.Coll? && v.open == CURLY_OPEN && FirstKey(v.items, name, 0) < |v.items| then
          var m := FirstKey(v.items, name, 0);
          Lookup(v.items[m].value, ValuePos(pos, v, m), path[1..])
        else Missing
      case ByIndex(_, digits) =>
        assert WfStep(path[0]);
        var n := Decimal(digits);
        if n > MAX_INDEX_VALUE then BadIndex
        else if v.Coll? && v.open == SQUARE_OPEN && n < |v.items| then
          Lookup(v.items[n].value, ValuePos(pos, v, n), path[1..])
        else Missing
  }

  function HitStatus(h: Hit): Status {
    match h case Hit(_, _) => Success case Missing => NotFound case BadIndex => BadParameter
  }

  lemma {:induction false} RenderIs(path: seq<Step>)
    requires path != [] && WfPath(path)
    ensures Render(path) == Body(path[0]) + RenderRest(path[1..])
    ensures WfPath(path[1..]) && WfStep(path[0])
  {
  }

  lemma {:induction false} PartRun(query: seq<byte>, i: nat, name: seq<byte>)
    requires At(query, i, name) && forall k | 0 <= k < |name| :: !EndsPart(name[k])
    requires i + |name| < |query| ==> EndsPart(query[i + |name|])
    ensures i <= |query| && PartEnd(query, i) == i + |name|
    decreases |name|
  {
    if name != [] {
      AtByte(query, i, name, 0);
      assert At(query, i + 1, name[1..]);
      PartRun(query, i + 1, name[1..]);
    }
  }

  lemma {:induction false} RestRead(query: seq<byte>, j: nat, path: seq<Step>)
    requires path != [] && WfPath(path) && At(query, j, RenderRest(path[1..])) && j + |RenderRest(path[1..])| == |query|
    ensures j <= |query| && (path[0].ByKey? ==> j != |query| - 1 && (j < |query| ==> EndsPart(query[j])))
    ensures DotEnd(query, j) <= |query| && At(query, DotEnd(query, j), Render(path[1..]))
    ensures DotEnd(query, j) + |Render(path[1..])| == |query|
  {
    hide At;
    var rest := path[1..];
    if rest == [] {
    } else {
      assert WfStep(rest[0]) by { assert rest[0] == path[1]; }
      var b := Body(rest[0]);
      assert b != [] && b[0] != DOT;
      var d := if rest[0].dot then [DOT] else [];
      AtConcat(query, j, d, Render(rest));
      AtByte(query, j, RenderRest(rest), 0);
      assert Render(rest)[0] == b[0];
    }
  }

  /** How the scanner reads one step of a rendered query. */
  lemma {:induction false} StepRead(query: seq<byte>, i: nat, path: seq<Step>)
    requires path != [] && WfPath(path) && At(query, i, Render(path)) && i + |Render(path)| == |query|
    ensures var s, j := path[0], i + |Body(path[0])|;
            && i < j <= |query| && At(query, i, Body(s)) && (s.ByKey? ==> !EndsPart(query[i]) && PartEnd(query, i) == j != |query| - 1)
            && DotEnd(query, j) <= |query| && At(query, DotEnd(query, j), Render(path[1..]))
            && DotEnd(query, j) + |Render(path[1..])| == |query|
  {
    hide At, Render, RenderRest;
    var s, j, rest := path[0], i + |Body(path[0])|, RenderRest(path[1..]);
    RenderIs(path);
    AtConcat(query, i, Body(s), rest);
    RestRead(query, j, path);
    if s.ByKey? {
      PartRun(query, i, s.name);
      AtByte(query, i, s.name, 0);
    }
  }

  lemma {:induction false} IndexRead(query: seq<byte>, i: nat, digits: seq<byte>)
    requires digits != [] && AllDigits(digits) && At(query, i, [SQUARE_OPEN] + digits + [SQUARE_CLOSE])
    ensures var j := i + 1 + |digits|;
            && j < |query| && query[i] == SQUARE_OPEN && DigitsEnd(query, i + 1) == j && query[j] == SQUARE_CLOSE
            && IndexAt(query, i + 1) == IndexOf(digits)
  {
    hide IndexOf;
    AtConcat(query, i, [SQUARE_OPEN] + digits, [SQUARE_CLOSE]);
    AtConcat(query, i, [SQUARE_OPEN], digits);
    AtByte(query, i, [SQUARE_OPEN], 0);
    AtByte(query, i + 1 + |digits|, [SQUARE_CLOSE], 0);
    DigitRun(query, i + 1, digits);
  }

  lemma {:induction false} DocPlain(v: Value)
    ensures DocText(Doc([], v, [])) == Text(v)
  {
  }

  /** The member reached by a step, as a text of its own. */
  lemma {:induction false} MemberDoc(d: Doc, k: nat) returns (e: Doc)
    requires Searchable(d) && d.value.Coll? && k < |d.value.items|
    ensures e == Doc([], d.value.items[k].value, []) && Searchable(e)
    ensures var s := ValueSpan(|d.before|, d.value, k);
            s.start + s.length <= |DocText(d)| && DocText(d)[s.start..s.start + s.length] == DocText(e)
  {
    hide Wf, Strict, Height, Text, ValuePos, DocText;
    var buf, i, v := DocText(d), |d.before|, d.value;
    DocStands(d);
    ItemStands(buf, i, v, k);
    e := Doc([], v.items[k].value, []);
    assert DocText(e) == Text(e.value) by { DocPlain(e.value); }
  }

  lemma {:induction false} Shift(i: nat, p: nat, v: Value, k: nat)
    requires v.Coll? && k < |v.items|
    ensures ValuePos(p + i, v, k) == p + ValuePos(i, v, k)
  {
  }

  function Moved(at: Span, s: Span): Span { Span(at.start + s.start, s.length) }

  predicate Inside(at: Span, s: Span) { s.start + s.length <= at.length }

  /** A key step of the search. */
  lemma {:induction false} FollowKey(buf: seq<byte>, at: Span, d: Doc, name: seq<byte>, query: seq<byte>, i: nat)
    requires at.start + at.length <= |buf| && Searchable(d) && buf[at.start..at.start + at.length] == DocText(d)
    requires name != [] && At(query, i, name) && i < |query| && !EndsPart(query[i])
    requires PartEnd(query, i) == i + |name| != |query| - 1 && DotEnd(query, i + |name|) <= |query|
    ensures var v, p := d.value, |d.before|;
            v.Coll? && v.open == CURLY_OPEN && FirstKey(v.items, name, 0) < |v.items| ==>
              Inside(at, ValueSpan(p, v, FirstKey(v.items, name, 0)))
    ensures var v, p := d.value, |d.before|;
            Follow(buf, at, query, i) ==
            if v.Coll? && v.open == CURLY_OPEN && FirstKey(v.items, name, 0) < |v.items| then
              Follow(buf, Moved(at, ValueSpan(p, v, FirstKey(v.items, name, 0))), query, DotEnd(query, i + |name|))
            else (NotFound, at)
  {
    hide DocText, Searchable, ValueSpan, ObjectFind, FirstKey, PartEnd, DotEnd, Follow, ArrayFind, IndexAt, DigitsEnd;
    ObjectFound(d, name);
    FollowStep(buf, at, query, i);
    assert query[i..i + |name|] == name;
  }

  /** An index step of the search. */
  lemma {:induction false} FollowIndex(buf: seq<byte>, at: Span, d: Doc, digits: seq<byte>, query: seq<byte>, i: nat)
    requires at.start + at.length <= |buf| && Searchable(d) && buf[at.start..at.start + at.length] == DocText(d)
    requires digits != [] && AllDigits(digits) && At(query, i, Body(ByIndex(false, digits)))
    requires DotEnd(query, i + |digits| + 2) <= |query|
    ensures i < |query|
    ensures var v, p, n := d.value, |d.before|, Decimal(digits);
            v.Coll? && v.open == SQUARE_OPEN && n < |v.items| ==> Inside(at, ValueSpan(p, v, n))
    ensures var v, p, n := d.value, |d.before|, Decimal(digits);
            Follow(buf, at, query, i) ==
            if n > MAX_INDEX_VALUE then (BadParameter, at)
            else if v.Coll? && v.open == SQUARE_OPEN && n < |v.items| then
              Follow(buf, Moved(at, ValueSpan(p, v, n)), query, DotEnd(query, i + |digits| + 2))
            else (NotFound, at)
  {
    hide At, DocText, Searchable, ValueSpan, ArrayFind, DotEnd, IndexAt, DigitsEnd, AllDigits, Follow, ObjectFind, PartEnd;
    IndexRead(query, i, digits);
    FollowStep(buf, at, query, i);
    ArrayFound(d, Decimal(digits));
  }

  lemma {:induction false} SubSlice(buf: seq<byte>, at: Span, s: Span)
    requires at.start + at.length <= |buf| && s.start + s.length <= at.length
    ensures var to := Span(at.start + s.start, s.length);
            buf[to.start..to.start + to.length] == buf[at.start..at.start + at.length][s.start..s.start + s.length]
  {
    var x := buf[at.start + s.start..at.start + s.start + s.length];
    var y := buf[at.start..at.start + at.length][s.start..s.start + s.length];
    assert |x| == |y|;
    forall k | 0 <= k < |x| ensures x[k] == y[k] {
      assert x[k] == buf[at.start + s.start + k] == buf[at.start..at.start + at.length][s.start + k];
    }
  }

  lemma {:induction false} Within(buf: seq<byte>, at: Span, i: nat, s: seq<byte>)
    requires at.start + at.length <= |buf| && At(buf[at.start..at.start + at.length], i, s)
    ensures At(buf, at.start + i, s)
  {
    SubSlice(buf, at, Span(i, |s|));
  }

  lemma {:induction false} FollowEnd(buf: seq<byte>, at: Span, d: Doc, query: seq<byte>, i: nat)
    requires at.start + at.length <= |buf| && Searchable(d) && buf[at.start..at.start + at.length] == DocText(d)
    requires At(query, i, Render([])) && i + |Render([])| == |query|
    ensures i == |query| && Wf(d.value) && At(buf, at.start + |d.before|, Text(d.value))
  {
    hide Text, Wf, Strict, Height, DocText;
    DocLayout(d);
    Within(buf, at, |d.before|, Text(d.value));
  }

  lemma {:induction false} FollowDone(buf: seq<byte>, at: Span, query: seq<byte>)
    requires at.start + at.length <= |buf|
    ensures Follow(buf, at, query, |query|) == (Success, at)
  {
  }

  /** Following a rendered path through a text is looking it up in the tree. */
  lemma {:induction false} FollowPath(buf: seq<byte>, at: Span, d: Doc, path: seq<Step>, query: seq<byte>, i: nat)
    requires at.start + at.length <= |buf| && Searchable(d) && buf[at.start..at.start + at.length] == DocText(d)
    requires WfPath(path) && At(query, i, Render(path)) && i + |Render(path)| == |query|
    ensures var h := Lookup(d.value, at.start + |d.before|, path);
            && Follow(buf, at, query, i).0 == HitStatus(h)
            && (h.Hit? ==> Wf(h.value) && At(buf, h.pos, Text(h.value)))
            && (h.Hit? ==> Follow(buf, at, query, i).1 == if path == [] then at else Span(h.pos, |Text(h.value)|))
    decreases |path|, 0
  {
    hide At, Text, DocText, Searchable, Render, ValuePos, Follow, FirstKey, PartEnd, Wf, DotEnd, AllDigits;
    if path == [] {
      FollowEnd(buf, at, d, query, i);
      FollowDone(buf, at, query);
    } else {
      var v := d.value;
      StepRead(query, i, path);
      RenderIs(path);
      var j := DotEnd(query, i + |Body(path[0])|);
      match path[0]
      case ByKey(_, name) =>
        FollowKey(buf, at, d, name, query, i);
        if v.Coll? && v.open == CURLY_OPEN && FirstKey(v.items, name, 0) < |v.items| {
          FollowMember(buf, at, d, FirstKey(v.items, name, 0), path, query, j);
        }
      case ByIndex(_, digits) =>
        FollowIndex(buf, at, d, digits, query, i);
        var n := Decimal(digits);
        if n <= MAX_INDEX_VALUE && v.Coll? && v.open == SQUARE_OPEN && n < |v.items| {
          FollowMember(buf, at, d, n, path, query, j);
        }
    }
  }

  lemma {:induction false} FollowMember(buf: seq<byte>, at: Span, d: Doc, m: nat, path: seq<Step>, query: seq<byte>, j: nat)
    requires at.start + at.length <= |buf| && Searchable(d) && buf[at.start..at.start + at.length] == DocText(d)
    requires d.value.Coll? && m < |d.value.items| && path != []
    requires WfPath(path[1..]) && At(query, j, Render(path[1..])) && j + |Render(path[1..])| == |query|
    ensures Inside(at, ValueSpan(|d.before|, d.value, m))
    ensures var s := ValueSpan(|d.before|, d.value, m);
            var to := Moved(at, s);
            var h := Lookup(d.value.items[m].value, ValuePos(at.start + |d.before|, d.value, m), path[1..]);
            && to.start + to.length <= |buf|
            && Follow(buf, to, query, j).0 == HitStatus(h)
            && (h.Hit? ==> Wf(h.value) && At(buf, h.pos, Text(h.value)))
            && (h.Hit? ==> Follow(buf, to, query, j).1 == Span(h.pos, |Text(h.value)|))
    decreases |path| - 1, 1
  {
    hide At, Text, DocText, Searchable, Render, ValuePos, Follow, Wf;
    var e := MemberDoc(d, m);
    var s := ValueSpan(|d.before|, d.value, m);
    var to := Span(at.start + s.start, s.length);
    SubSlice(buf, at, s);
    Shift(|d.before|, at.start, d.value, m);
    FollowPath(buf, to, e, path[1..], query, j);
    if path[1..] == [] {
      FollowEnd(buf, to, e, query, j);
      assert Follow(buf, to, query, j) == (Success, to) by { FollowDone(buf, to, query); }
    }
  }

  lemma {:induction false} NonEmpty(path: seq<Step>)
    requires path != [] && WfPath(path)
    ensures Render(path) != [] && At(Render(path), 0, Render(path))
  {
    assert WfStep(path[0]);
    assert Render(path)[0..0 + |Render(path)|] == Render(path);
  }

  /** JSON_SearchConst on a valid RFC text and a well-formed query is the recursive lookup. */
  lemma {:induction false} SearchExact(d: Doc, path: seq<Step>)
    requires Searchable(d) && path != [] && WfPath(path)
    ensures var r, h := SearchResult(DocText(d), Render(path)), Lookup(d.value, |d.before|, path);
            && r.status == HitStatus(h)
            && (h.Hit? ==> r.kind == ValueKind(h.value) && At(DocText(d), h.pos, Text(h.value)))
            && (h.Hit? ==> r.value == if h.value.Str? then Span(h.pos + 1, |UnitsText(h.value.units)|)
                                      else Span(h.pos, |Text(h.value)|))
  {
    hide At, DocText, Searchable, Wf, Lookup, Follow, UnitsText, Render;
    var buf, query := DocText(d), Render(path);
    DocStands(d);
    assert buf[0..0 + |buf|] == buf;
    assert At(query, 0, query) && query != [] by { NonEmpty(path); }
    FollowPath(buf, Span(0, |buf|), d, path, query, 0);
    var h := Lookup(d.value, |d.before|, path);
    if h.Hit? {
      KindFound(buf, h.pos, h.value);
    }
  }

  // ----- iteration

  /** start and next after k calls of JSON_Iterate from 0 and 0. */
  function Cursor(buf: seq<byte>, k: nat): (nat, nat) {
    if k == 0 then (0, 0)
    else
      var (s, n) := Cursor(buf, k - 1);
      var t := IterateResult(buf, s, n);
      (t.start, t.next)
  }

  function Call(buf: seq<byte>, k: nat): Turn {
    var (s, n) := Cursor(buf, k); IterateResult(buf, s, n)
  }

  /** Member k of the collection of a text, as JSON_Iterate is to report it. */
  function MemberOf(d: Doc, k: nat): Member
    requires d.value.Coll? && k < |d.value.items|
  {
    var i, v := |d.before|, d.value;
    var w := v.items[k].value;
    Member(if v.items[k].key.Some? then Some(KeySpan(i, v, k)) else None,
           if w.Str? then Span(ValuePos(i, v, k) + 1, |UnitsText(w.units)|) else ValueSpan(i, v, k),
           ValueKind(w))
  }

  lemma {:induction false} StrLength(v: Value)
    ensures v.Str? ==> |Text(v)| == |UnitsText(v.units)| + 2
  {
  }

  lemma {:induction false} SpaceTwice(buf: seq<byte>)
    ensures SpaceEnd(buf, SpaceEnd(buf, 0)) == SpaceEnd(buf, 0)
  {
  }

  /** One call, from behind member k - 1. */
  lemma {:induction false} MemberGiven(d: Doc, k: nat)
    requires Searchable(d) && d.value.Coll? && k < |d.value.items|
    ensures var buf, i, v := DocText(d), |d.before|, d.value;
            && HeadPos(i, v, k) <= |buf| && i < HeadPos(i, v, k)
            && IterateResult(buf, i, HeadPos(i, v, k)) == Turn(Success, i,
                 if k + 1 < |v.items| then HeadPos(i, v, k + 1) else ItemPos(i, v, k + 1), Some(MemberOf(d, k)))
  {
    hide Stands, DocText, SpaceEnd, At, Searchable, KindOf, ItemPos, PairAt, ValueEnd, Text, KeyText, SepText, UnitsText, Wf, CommaEnd, EndsNumber;
    var buf, i, v := DocText(d), |d.before|, d.value;
    DocStands(d);
    SpaceTwice(buf);
    ItemStands(buf, i, v, k);
    KindFound(buf, ValuePos(i, v, k), v.items[k].value);
    StrLength(v.items[k].value);
    NextMember(buf, i, v, k);
    if v.open == CURLY_OPEN {
      PairFound(buf, i, v, k);
    } else {
      ElementFound(buf, i, v, k);
    }
  }

  /** From 0 and 0 the first call behaves as if it started at the first member. */
  lemma {:induction false} FirstCall(d: Doc)
    requires Searchable(d) && d.value.Coll?
    ensures var buf, i, v := DocText(d), |d.before|, d.value;
            var n := if v.items == [] then ItemPos(i, v, 0) else HeadPos(i, v, 0);
            i < n <= |buf| && IterateResult(buf, 0, 0) == IterateResult(buf, i, n)
  {
    hide Stands, DocText, SpaceEnd, At, Searchable, ValueKind, KindOf, PairAt, ValueEnd, CommaEnd;
    var buf, i := DocText(d), |d.before|;
    DocStands(d);
    SpaceTwice(buf);
    FirstMember(buf, i, d.value);
  }

  /** Before call k the cursor is at member k, or at the closing bracket after the last one. */
  lemma {:induction false} CursorAt(d: Doc, k: nat)
    requires Searchable(d) && d.value.Coll? && 0 < k <= |d.value.items|
    ensures var i, v := |d.before|, d.value;
            Cursor(DocText(d), k) == (i, if k < |v.items| then HeadPos(i, v, k) else ItemPos(i, v, k))
    ensures Call(DocText(d), k - 1) == Turn(Success, Cursor(DocText(d), k).0, Cursor(DocText(d), k).1, Some(MemberOf(d, k - 1)))
  {
    hide DocText, SpaceEnd, HeadPos, ItemPos, IterateResult, Searchable, MemberOf;
    MemberGiven(d, k - 1);
    if k == 1 {
      FirstCall(d);
    } else {
      CursorAt(d, k - 1);
    }
  }

  lemma {:induction false} ItemEnds(buf: seq<byte>, i: nat, v: Value, k: nat)
    requires Stands(buf, i, v) && k < |v.items|
    ensures HeadPos(i, v, k) < EndPos(i, v, k) <= ItemPos(i, v, k + 1)
  {
    hide At, ItemPos, Text, Wf, Strict, Height, SpaceEnd;
    ItemStands(buf, i, v, k);
    TextStart(v.items[k].value);
  }

  lemma {:induction false} Advances(d: Doc, k: nat)
    requires Searchable(d) && d.value.Coll? && k < |d.value.items|
    ensures var i, v := |d.before|, d.value;
            && 0 < HeadPos(i, v, k) < ItemPos(i, v, k + 1)
            && (k + 1 < |v.items| ==> ItemPos(i, v, k + 1) <= HeadPos(i, v, k + 1))
  {
    hide DocText, Searchable, ItemPos, Text, Stands, At;
    DocStands(d);
    var buf, i, v := DocText(d), |d.before|, d.value;
    ItemEnds(buf, i, v, k);
  }

  lemma {:induction false} CloseAt(buf: seq<byte>, i: nat, v: Value)
    requires Stands(buf, i, v)
    ensures i < ItemPos(i, v, |v.items|) < |buf| && IsClose(buf[ItemPos(i, v, |v.items|)])
  {
    hide At, ItemPos, Text, Strict, Height;
    Layout(buf, i, v);
  }

  lemma {:induction false} LastCall(d: Doc)
    requires Searchable(d) && d.value.Coll?
    ensures var i, v := |d.before|, d.value;
            IterateResult(DocText(d), i, ItemPos(i, v, |v.items|)).status == NotFound
  {
    hide DocText, Searchable, ItemPos, Text, Stands, At, PairAt, ValueEnd, SpaceEnd, ValueKind, KindOf;
    var buf, i, v := DocText(d), |d.before|, d.value;
    DocStands(d);
    SpaceTwice(buf);
    CloseAt(buf, i, v);
    NothingAtClose(buf, ItemPos(i, v, |v.items|));
  }

  /** Repeated JSON_Iterate gives every member once, in order, and then JSONNotFound. */
  lemma {:induction false} IterateExact(d: Doc, k: nat)
    requires Searchable(d) && d.value.Coll? && k <= |d.value.items|
    ensures var t, c := Call(DocText(d), k), Cursor(DocText(d), k);
            if k < |d.value.items| then t.status == Success && t.member == Some(MemberOf(d, k)) && t.next > c.1
            else t.status == NotFound
  {
    hide DocText, Searchable, IterateResult, MemberOf, Stands, At;
    var buf, i, v := DocText(d), |d.before|, d.value;
    if k < |v.items| {
      CursorAt(d, k + 1);
      MemberGiven(d, k);
      if k > 0 {
        CursorAt(d, k);
      }
      Advances(d, k);
    } else {
      LastCall(d);
      if k > 0 { CursorAt(d, k); } else { FirstCall(d); }
    }
  }

  /** A scalar has no members: JSON_Iterate calls the text illegal, wherever next stands in it. */
  lemma {:induction false} IterateScalar(d: Doc, next: nat)
    requires WfDoc(d) && !d.value.Coll? && next <= |DocText(d)|
    ensures IterateResult(DocText(d), 0, next).status == IllegalDocument
  {
    hide DocText, SpaceEnd, At, Text, Wf, EndsNumber;
    DocLayout(d);
    assert Wf(d.value) by { DocWf(d); }
    TextStart(d.value);
  }

  lemma {:induction false} NoPart(query: seq<byte>, i: nat)
    requires i < |query| && EndsPart(query[i])
    ensures PartEnd(query, i) == i
  {
  }

  lemma {:induction false} DigitsStop(query: seq<byte>, i: nat)
    requires i <= |query|
    ensures i == |query| || !IsDigit(query[i]) ==> DigitsEnd(query, i) == i
    ensures (forall k | i <= k < |query| :: IsDigit(query[k])) ==> DigitsEnd(query, i) == |query|
    ensures i < |query| && (forall k | i <= k < |query| - 1 :: IsDigit(query[k])) ==> DigitsEnd(query, i) >= |query| - 1
    decreases |query| - i
  {
    if i < |query| {
      DigitsStop(query, i + 1);
    }
  }

  lemma {:induction false} PartStops(query: seq<byte>, i: nat)
    requires i < |query| && EndsPart(query[|query| - 1]) && forall k | i <= k < |query| - 1 :: !EndsPart(query[k])
    ensures PartEnd(query, i) == |query| - 1
    decreases |query| - i
  {
    if i < |query| - 1 {
      PartStops(query, i + 1);
    }
  }

  /**
   * Queries that are refused whatever the text is: an empty one, one with a separator in front or
   * behind a single key, one with an opening bracket that no index and closing bracket follow; and
   * every query on an empty text.
   */
  lemma {:induction false} MalformedQuery(buf: seq<byte>, query: seq<byte>)
    requires || buf == [] || query == [] || query[0] == DOT
             || (|query| > 1 && query[|query| - 1] == DOT && forall k | 0 <= k < |query| - 1 :: !EndsPart(query[k]))
             || (query[0] == SQUARE_OPEN && (|query| == 1 || !IsDigit(query[1])))
             || (query[0] == SQUARE_OPEN && forall k | 0 < k < |query| :: IsDigit(query[k]))
             || (|query| > 1 && query[0] == SQUARE_OPEN && query[|query| - 1] != SQUARE_CLOSE
                 && forall k | 0 < k < |query| - 1 :: IsDigit(query[k]))
    ensures SearchResult(buf, query).status == BadParameter
  {
    hide ObjectFind, ArrayFind, PartEnd, DigitsEnd, IndexOf, DotEnd, AllDigits;
    if buf != [] && query != [] {
      FollowStep(buf, Span(0, |buf|), query, 0);
      if query[0] == SQUARE_OPEN {
        DigitsStop(query, 1);
      } else if query[0] == DOT {
        NoPart(query, 0);
      } else {
        PartStops(query, 0);
      }
    }
  }
}
