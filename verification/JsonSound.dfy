/**
 * Soundness: whatever the stack machine accepts has a derivation.
 *
 * The text consumed so far is kept as a stack of frames, one for each open bracket, and each step
 * of the machine extends it: an opening bracket pushes a frame, scalars add items to the top one,
 * and a closing bracket turns the top frame into an item of the frame below.
 */
module JsonSound {
  import opened Bytes
  import opened JsonGrammar
  import opened JsonScan
  import opened JsonCollection
  import opened JsonTokens

  /** A separator and key already read for the item that comes next. */
  datatype Pending = Pending(sep: Sep, key: Option<Key>)

  /** An open collection: its complete items and what is pending. */
  datatype Frame = Frame(open: byte, ws: seq<byte>, items: seq<Item>, pend: Option<Pending>)

  function PendText(p: Option<Pending>): seq<byte> {
    if p.Some? then SepText(p.value.sep) + KeyText(p.value.key) else []
  }

  function FrameText(f: Frame): seq<byte> { [f.open] + f.ws + ItemsText(f.items) + PendText(f.pend) }

  predicate WfFrame(f: Frame) {
    && IsOpen(f.open) && AllSpace(f.ws) && WfItems(f.open, f.items)
    && (f.pend.Some? ==> WfPrefix(f.open, f.items == [], f.pend.value.sep, f.pend.value.key))
  }

  /** The frame's text stands at `b` and ends at `i`. */
  ghost predicate Holds(buf: seq<byte>, b: nat, f: Frame, i: nat) {
    WfFrame(f) && At(buf, b, FrameText(f)) && b + |FrameText(f)| == i
  }

  /** What the machine guarantees about the next byte when it is back at the head of its loop. */
  predicate Ready(buf: seq<byte>, f: Frame, i: nat) {
    i < |buf| ==>
      && (f.pend.Some? ==> !IsClose(buf[i]))
      && (f.pend.None? && f.items == [] ==> f.open == SQUARE_OPEN || IsClose(buf[i]))
  }

  // ----- one value and what follows it

  lemma {:induction false} EndText(f: Frame, it: Item, g: Frame)
    requires f.pend == Some(Pending(it.sep, it.key)) && g == Frame(f.open, f.ws, f.items + [it], None)
    ensures FrameText(g) == FrameText(f) + Text(it.value) + it.ws
  {
    assert ItemsText(f.items + [it]) == ItemsText(f.items) + ItemHead(it) + it.ws by {
      assert (f.items + [it])[..|f.items|] == f.items;
    }
  }

  lemma {:induction false} SnocItem(open: byte, items: seq<Item>, it: Item)
    requires WfItems(open, items) && WfItem(open, items == [], it)
    ensures WfItems(open, items + [it])
    ensures ItemsHeight(items + [it]) <= ItemsHeight(items) || ItemsHeight(items + [it]) <= Height(it.value)
  {
    assert (items + [it])[..|items|] == items;
  }

  /** A value at `i` completes the pending item; the white space after it belongs to the item. */
  lemma {:induction false} EndItem(buf: seq<byte>, b: nat, f: Frame, i: nat, v: Value) returns (g: Frame)
    requires Holds(buf, b, f, i) && f.pend.Some? && Wf(v) && At(buf, i, Text(v))
    requires f.pend.value.sep.Nothing? ==> v.Coll?
    ensures g.open == f.open && g.ws == f.ws && g.pend.None? && g.items != []
    ensures i + |Text(v)| <= |buf| && Holds(buf, b, g, SpaceEnd(buf, i + |Text(v)|))
    ensures ItemsHeight(g.items) <= ItemsHeight(f.items) || ItemsHeight(g.items) <= Height(v)
  {
    hide Text, FrameText, WfItems, SpaceEnd, ItemsHeight, Wf, AllSpace;
    var e := i + |Text(v)|;
    var j := SpaceEnd(buf, e);
    SpacesAre(buf, e);
    var it := Item(f.pend.value.sep, f.pend.value.key, v, buf[e..j]);
    g := Frame(f.open, f.ws, f.items + [it], None);
    SnocItem(f.open, f.items, it);
    EndText(f, it, g);
    AtConcat(buf, b, FrameText(f), Text(v));
    AtConcat(buf, b, FrameText(f) + Text(v), it.ws);
  }

  lemma {:induction false} SepAt(buf: seq<byte>, j: nat, p: nat)
    requires j < p <= |buf| && buf[j] == COMMA
    ensures At(buf, j, SepText(Comma(buf[j + 1..p]))) && |SepText(Comma(buf[j + 1..p]))| == p - j
  {
    CutByte(buf, j);
    Cut(buf, j, j + 1, p);
  }

  /** A comma passed after an item becomes a pending separator (its key still to come in an object). */
  lemma {:induction false} PassComma(buf: seq<byte>, b: nat, f: Frame, e: nat) returns (s: Sep)
    requires f.pend.None? && f.items != [] && e <= |buf| && CommaEnd(buf, e).1
    requires Holds(buf, b, f, SpaceEnd(buf, e))
    ensures s.Comma? && AllSpace(s.ws)
    ensures At(buf, b, FrameText(f) + SepText(s)) && b + |FrameText(f) + SepText(s)| == CommaEnd(buf, e).0
  {
    hide At, FrameText, WfFrame, SpaceEnd, AllSpace, SepText;
    var j := SpaceEnd(buf, e);
    var p := CommaEnd(buf, e).0;
    SpacesAre(buf, j + 1);
    s := Comma(buf[j + 1..p]);
    SepAt(buf, j, p);
    AtConcat(buf, b, FrameText(f), SepText(s));
  }

  // ----- scanning scalars

  lemma {:induction false} SetPending(buf: seq<byte>, b: nat, f: Frame, s: Sep, i: nat) returns (g: Frame)
    requires WfFrame(f) && f.pend.None? && f.open == SQUARE_OPEN
    requires At(buf, b, FrameText(f) + SepText(s)) && b + |FrameText(f) + SepText(s)| == i
    requires (s.First? <==> f.items == []) && !s.Nothing? && (s.Comma? ==> AllSpace(s.ws))
    ensures g == f.(pend := Some(Pending(s, None))) && Holds(buf, b, g, i)
  {
    g := f.(pend := Some(Pending(s, None)));
    assert FrameText(g) == FrameText(f) + SepText(s);
  }

  lemma {:induction false} HoldsWf(buf: seq<byte>, b: nat, f: Frame, i: nat)
    requires Holds(buf, b, f, i)
    ensures WfFrame(f) && i <= |buf| && IsOpen(f.open)
  {
  }

  lemma {:induction false} ArraySound(buf: seq<byte>, b: nat, f: Frame, i: nat) returns (g: Frame)
    requires i < |buf| && !IsClose(buf[i])
    requires Holds(buf, b, f, i) && f.open == SQUARE_OPEN && f.pend.Some? && !f.pend.value.sep.Nothing?
    ensures g.open == f.open && Holds(buf, b, g, ArrayScalarsEnd(buf, i)) && Ready(buf, g, ArrayScalarsEnd(buf, i))
    ensures ItemsHeight(g.items) <= ItemsHeight(f.items)
    decreases |buf| - i
  {
    hide At, FrameText, ScalarEnd, CommaEnd, Text, SepText, Wf, WfFrame, WfItems, SpaceEnd;
    if ScalarEnd(buf, i).None? {
      g := f;
    } else {
      var v := ScalarSound(buf, i);
      var e := i + |Text(v)|;
      g := EndItem(buf, b, f, i, v);
      var (p, comma) := CommaEnd(buf, e);
      if comma {
        var s := PassComma(buf, b, g, e);
        HoldsWf(buf, b, g, SpaceEnd(buf, e));
        g := SetPending(buf, b, g, s, p);
        g := ArraySound(buf, b, g, p);
      }
    }
  }

  lemma {:induction false} AtSlices(buf: seq<byte>, e: nat, c: nat, x: nat)
    requires e <= c < x <= |buf| && buf[c] == COLON
    ensures At(buf, e, buf[e..c]) && At(buf, c, [COLON]) && At(buf, c + 1, buf[c + 1..x])
  {
  }

  lemma {:induction false} KeyIs(key: Key)
    ensures KeyText(Some(key)) == StringText(key.units) + key.ws1 + [COLON] + key.ws2
  {
  }

  lemma {:induction false} KeyedText(f: Frame, s: Sep, key: Key)
    requires f.pend.None?
    ensures FrameText(f.(pend := Some(Pending(s, Some(key))))) == FrameText(f) + SepText(s) + KeyText(Some(key))
  {
    hide ItemsText, KeyText, SepText;
  }

  /** A key, its colon and the white space around it. */
  lemma {:induction false} KeySound(buf: seq<byte>, b: nat, f: Frame, s: Sep, i: nat) returns (g: Frame)
    requires WfFrame(f) && f.pend.None? && f.open == CURLY_OPEN
    requires At(buf, b, FrameText(f) + SepText(s)) && b + |FrameText(f) + SepText(s)| == i
    requires (s.First? <==> f.items == []) && !s.Nothing? && (s.Comma? ==> AllSpace(s.ws))
    requires StringEnd(buf, i).Some?
    requires var c := SpaceEnd(buf, StringEnd(buf, i).value); c < |buf| && buf[c] == COLON
    ensures g.open == f.open && g.items == f.items && g.pend.Some? && !g.pend.value.sep.Nothing?
    ensures Holds(buf, b, g, SpaceEnd(buf, SpaceEnd(buf, StringEnd(buf, i).value) + 1))
  {
    hide At, StringText, StringEnd, SpaceEnd, WfItems, ItemsText, WfUnits, FrameText, SepText, KeyText, AllSpace;
    var us := StringSound(buf, i);
    var e := StringEnd(buf, i).value;
    var c := SpaceEnd(buf, e);
    var x := SpaceEnd(buf, c + 1);
    SpacesAre(buf, e);
    SpacesAre(buf, c + 1);
    var key := Key(us, buf[e..c], buf[c + 1..x]);
    g := f.(pend := Some(Pending(s, Some(key))));
    KeyedText(f, s, key);
    AtSlices(buf, e, c, x);
    AtConcat4(buf, i, StringText(us), buf[e..c], [COLON], buf[c + 1..x]);
    KeyIs(key);
    AtConcat(buf, b, FrameText(f) + SepText(s), KeyText(Some(key)));
  }

  lemma {:induction false} ObjectSound(buf: seq<byte>, b: nat, f: Frame, s: Sep, i: nat) returns (g: Frame)
    requires i <= |buf| && WfFrame(f) && f.pend.None? && f.open == CURLY_OPEN
    requires At(buf, b, FrameText(f) + SepText(s)) && b + |FrameText(f) + SepText(s)| == i
    requires (s.First? <==> f.items == []) && !s.Nothing? && (s.Comma? ==> AllSpace(s.ws))
    requires ObjectScalarsEnd(buf, i).Some?
    ensures var e := ObjectScalarsEnd(buf, i).value;
            g.open == f.open && Holds(buf, b, g, e) && Ready(buf, g, e)
    ensures ItemsHeight(g.items) <= ItemsHeight(f.items)
    decreases |buf| - i
  {
    hide At, FrameText, ScalarEnd, StringEnd, CommaEnd, Text, SepText, Wf, WfFrame, WfItems, SpaceEnd;
    var c := SpaceEnd(buf, StringEnd(buf, i).value);
    var x := SpaceEnd(buf, c + 1);
    g := KeySound(buf, b, f, s, i);
    if !IsOpen(buf[x]) {
      var v := ScalarSound(buf, x);
      var e := x + |Text(v)|;
      g := EndItem(buf, b, g, x, v);
      var (p, comma) := CommaEnd(buf, e);
      if comma {
        var s' := PassComma(buf, b, g, e);
        HoldsWf(buf, b, g, SpaceEnd(buf, e));
        g := ObjectSound(buf, b, g, s', p);
      }
    }
  }

  /** After a separator, or just behind the opening bracket, up to the head of the machine's loop. */
  lemma {:induction false} ScalarsSound(buf: seq<byte>, b: nat, f: Frame, s: Sep, i: nat) returns (g: Frame)
    requires i < |buf| && !IsSpace(buf[i]) && !IsClose(buf[i]) && WfFrame(f) && f.pend.None?
    requires At(buf, b, FrameText(f) + SepText(s)) && b + |FrameText(f) + SepText(s)| == i
    requires (s.First? <==> f.items == []) && !s.Nothing? && (s.Comma? ==> AllSpace(s.ws))
    requires ScalarsEnd(buf, i, f.open).Some?
    ensures var e := ScalarsEnd(buf, i, f.open).value;
            g.open == f.open && Holds(buf, b, g, e) && Ready(buf, g, e)
    ensures ItemsHeight(g.items) <= ItemsHeight(f.items)
  {
    hide At, FrameText, SepText, WfItems, ArrayScalarsEnd, ObjectScalarsEnd;
    if f.open == SQUARE_OPEN {
      g := SetPending(buf, b, f, s, i);
      g := ArraySound(buf, b, g, i);
    } else {
      g := ObjectSound(buf, b, f, s, i);
    }
  }

  lemma {:induction false} CloseIsNoScalar(buf: seq<byte>, j: nat)
    requires j < |buf| && IsClose(buf[j])
    ensures ArrayScalarsEnd(buf, j) == j
    ensures ObjectScalarsEnd(buf, j).None?
  {
    hide ScalarEnd;
    if ScalarEnd(buf, j).Some? {
      ScalarStart(buf, j);
    }
  }

  lemma {:induction false} OpenSound(buf: seq<byte>, b: nat) returns (g: Frame)
    requires b < |buf| && IsOpen(buf[b]) && ScalarsEnd(buf, b + 1, buf[b]).Some?
    ensures var e := ScalarsEnd(buf, b + 1, buf[b]).value;
            g.open == buf[b] && Holds(buf, b, g, e) && Ready(buf, g, e)
    ensures ItemsHeight(g.items) == 0
  {
    var j := SpaceEnd(buf, b + 1);
    SpacesAre(buf, b + 1);
    g := Frame(buf[b], buf[b + 1..j], [], None);
    assert FrameText(g) + SepText(First) == FrameText(g) == buf[b..j];
    if j < |buf| && IsClose(buf[j]) {
      CloseIsNoScalar(buf, j);
    } else if j < |buf| {
      assert ScalarsEnd(buf, b + 1, g.open) == ScalarsEnd(buf, j, g.open);
      g := ScalarsSound(buf, b, g, First, j);
    }
  }

  // ----- the stack of frames

  function Opens(fs: seq<Frame>): (st: seq<byte>)
    ensures |st| == |fs| && forall k | 0 <= k < |fs| :: st[k] == fs[k].open
  {
    seq(|fs|, k requires 0 <= k < |fs| => fs[k].open)
  }

  ghost predicate Link(buf: seq<byte>, fs: seq<Frame>, bs: seq<nat>, i: nat, k: nat)
    requires |fs| == |bs| && k < |fs|
  {
    && Holds(buf, bs[k], fs[k], if k + 1 < |fs| then bs[k + 1] else i)
    && (k + 1 < |fs| ==> fs[k].pend.Some?)
    && ItemsHeight(fs[k].items) + k + 1 <= MAX_DEPTH
  }

  /** Frame k stands from `bs[k]` to the start of the next one, the last up to `i`. */
  ghost predicate Chain(buf: seq<byte>, fs: seq<Frame>, bs: seq<nat>, i: nat) {
    |fs| == |bs| > 0 && forall k | 0 <= k < |fs| :: Link(buf, fs, bs, i, k)
  }

  /** Replacing the last frame, and pushing another one on top of it. */
  lemma {:induction false} ChainLast(buf: seq<byte>, fs: seq<Frame>, bs: seq<nat>, i: nat, g: Frame, p: nat)
    requires Chain(buf, fs, bs, i) && Holds(buf, bs[|fs| - 1], g, p)
    requires ItemsHeight(g.items) + |fs| <= MAX_DEPTH && g.open == fs[|fs| - 1].open
    ensures var fs' := fs[..|fs| - 1] + [g]; Chain(buf, fs', bs, p) && Opens(fs') == Opens(fs)
  {
    hide Holds;
    var fs' := fs[..|fs| - 1] + [g];
    forall k | 0 <= k < |fs| ensures Link(buf, fs', bs, p, k) {
      assert Link(buf, fs, bs, i, k);
    }
  }

  lemma {:induction false} ChainPush(buf: seq<byte>, fs: seq<Frame>, bs: seq<nat>, i: nat, g: Frame, p: nat)
    requires Chain(buf, fs, bs, i) && Holds(buf, i, g, p) && fs[|fs| - 1].pend.Some?
    requires ItemsHeight(g.items) + |fs| + 1 <= MAX_DEPTH
    ensures Chain(buf, fs + [g], bs + [i], p) && Opens(fs + [g]) == Opens(fs) + [g.open]
  {
    hide Holds;
    forall k | 0 <= k < |fs| + 1 ensures Link(buf, fs + [g], bs + [i], p, k) {
      if k < |fs| { assert Link(buf, fs, bs, i, k); }
    }
  }

  lemma {:induction false} ChainPop(buf: seq<byte>, fs: seq<Frame>, bs: seq<nat>, i: nat)
    requires Chain(buf, fs, bs, i) && |fs| > 1
    ensures var n := |fs| - 1; Chain(buf, fs[..n], bs[..n], bs[n]) && fs[n - 1].pend.Some? && Opens(fs[..n]) == Opens(fs)[..n]
  {
    hide Holds;
    var n := |fs| - 1;
    assert Link(buf, fs, bs, i, n - 1);
    forall k | 0 <= k < n ensures Link(buf, fs[..n], bs[..n], bs[n], k) {
      assert Link(buf, fs, bs, i, k);
    }
  }

  /** The state of the machine after a nested collection has ended in frame `f`. */
  lemma {:induction false} ContinueSound(buf: seq<byte>, b: nat, f: Frame, i: nat, v: Value, st: seq<byte>)
    returns (g: Frame, p: nat)
    requires Holds(buf, b, f, i) && f.pend.Some? && v.Coll? && Wf(v) && At(buf, i, Text(v))
    requires i + |Text(v)| <= |buf| && st != [] && st[|st| - 1] == f.open
    requires Continue(buf, i + |Text(v)|, st).status != IllegalDocument
    ensures g.open == f.open && Holds(buf, b, g, p) && Ready(buf, g, p) && i + |Text(v)| <= p <= |buf|
    ensures Continue(buf, i + |Text(v)|, st) == Run(buf, p, st)
    ensures ItemsHeight(g.items) <= ItemsHeight(f.items) || ItemsHeight(g.items) <= Height(v)
  {
    hide At, FrameText, CommaEnd, Text, SepText, Wf, WfFrame, WfItems, SpaceEnd, ScalarsEnd, Run, Height, ItemsHeight;
    var e := i + |Text(v)|;
    g := EndItem(buf, b, f, i, v);
    var (q, comma) := CommaEnd(buf, e);
    p := q;
    if comma {
      var s := PassComma(buf, b, g, e);
      HoldsWf(buf, b, g, SpaceEnd(buf, e));
      p := ScalarsEnd(buf, q, f.open).value;
      g := ScalarsSound(buf, b, g, s, q);
    }
  }

  /** An opening bracket makes the frame above it wait for the collection. */
  lemma {:induction false} OpenPends(buf: seq<byte>, b: nat, f: Frame, i: nat) returns (g: Frame)
    requires i < |buf| && IsOpen(buf[i]) && Holds(buf, b, f, i) && Ready(buf, f, i)
    ensures g.open == f.open && g.items == f.items && g.pend.Some? && Holds(buf, b, g, i)
  {
    g := f;
    if f.pend.None? {
      g := f.(pend := Some(Pending(if f.items == [] then First else Nothing, None)));
      assert FrameText(g) == FrameText(f);
    }
  }

  lemma {:induction false} CloseSound(buf: seq<byte>, b: nat, f: Frame, i: nat)
    requires i < |buf| && IsMatching(f.open, buf[i]) && Holds(buf, b, f, i) && Ready(buf, f, i)
    ensures var v := Coll(f.open, f.ws, f.items);
            && Wf(v) && At(buf, b, Text(v)) && b + |Text(v)| == i + 1
            && Height(v) == 1 + ItemsHeight(f.items)
  {
    var v := Coll(f.open, f.ws, f.items);
    assert Text(v) == FrameText(f) + [buf[i]];
    AtConcat(buf, b, FrameText(f), [buf[i]]);
  }

  lemma {:induction false} RunSound(buf: seq<byte>, fs: seq<Frame>, bs: seq<nat>, i: nat) returns (v: Value)
    requires i <= |buf| && Chain(buf, fs, bs, i) && Ready(buf, fs[|fs| - 1], i)
    requires Run(buf, i, Opens(fs)).status == Success
    ensures v.Coll? && Wf(v) && Height(v) <= MAX_DEPTH
    ensures At(buf, bs[0], Text(v)) && Run(buf, i, Opens(fs)).end == bs[0] + |Text(v)|
    decreases |buf| - i
  {
    hide At, FrameText, Ready, Holds, Text, Wf, ScalarsEnd, CommaEnd, ItemsHeight, Opens;
    var n := |fs|;
    var st := Opens(fs);
    assert Link(buf, fs, bs, i, n - 1);
    var f := fs[n - 1];
    if IsOpen(buf[i]) {
      assert Run(buf, i, st) == Resume(buf, i + 1, st + [buf[i]]);
      var last := OpenPends(buf, bs[n - 1], f, i);
      ChainLast(buf, fs, bs, i, last, i);
      var fs' := fs[..n - 1] + [last];
      var g := OpenSound(buf, i);
      var p := ScalarsEnd(buf, i + 1, buf[i]).value;
      ChainPush(buf, fs', bs, i, g, p);
      v := RunSound(buf, fs' + [g], bs + [i], p);
    } else {
      assert Run(buf, i, st) == Close(buf, i + 1, st[..n - 1]);
      v := Coll(f.open, f.ws, f.items);
      CloseSound(buf, bs[n - 1], f, i);
      if n > 1 {
        ChainPop(buf, fs, bs, i);
        var fs', bs' := fs[..n - 1], bs[..n - 1];
        assert Link(buf, fs', bs', bs[n - 1], n - 2);
        var g, p := ContinueSound(buf, bs[n - 2], fs[n - 2], bs[n - 1], v, Opens(fs'));
        ChainLast(buf, fs', bs', bs[n - 1], g, p);
        v := RunSound(buf, fs'[..n - 2] + [g], bs', p);
      }
    }
  }

  /** Whatever skipCollection accepts is a collection of the grammar, nested at most 32 deep. */
  lemma {:induction false} CollectionSound(buf: seq<byte>, i: nat) returns (v: Value)
    requires i <= |buf| && Run(buf, i, []).status == Success
    ensures v.Coll? && Wf(v) && Height(v) <= MAX_DEPTH
    ensures At(buf, i, Text(v)) && Run(buf, i, []).end == i + |Text(v)|
  {
    hide ScalarsEnd, At, Text, Wf;
    assert [] + [buf[i]] == [buf[i]];
    var g := OpenSound(buf, i);
    assert Opens([g]) == [buf[i]];
    var p := ScalarsEnd(buf, i + 1, buf[i]).value;
    assert Link(buf, [g], [i], p, 0);
    v := RunSound(buf, [g], [i], p);
  }
}
