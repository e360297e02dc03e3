/** What JSON_Validate means by too deep, and that every other refusal is "illegal". */
module JsonDepth {
  import opened Bytes
  import opened JsonGrammar
  import opened JsonScan
  import opened JsonCollection
  import opened JsonTokens
  import opened JsonSound
  import opened JsonText
  import opened JsonPartial
  import Utf8

  // ----- what the machine read before a bracket it reads the same in every longer text

  predicate Bracket(b: byte) { IsOpen(b) || IsClose(b) }

  /** A byte that no number goes on with. */
  predicate Delimits(b: byte) { IsSpace(b) || b == COMMA || Bracket(b) }

  lemma {:induction false} SpaceGrown(buf: seq<byte>, more: seq<byte>, i: nat)
    requires SpaceEnd(buf, i) < |buf|
    ensures SpaceEnd(buf + more, i) == SpaceEnd(buf, i)
    decreases |buf| - i
  {
    if i < |buf| && IsSpace(buf[i]) {
      SpaceGrown(buf, more, i + 1);
    }
  }

  lemma {:induction false} DigitsGrown(buf: seq<byte>, more: seq<byte>, i: nat)
    requires DigitsEnd(buf, i) < |buf|
    ensures DigitsEnd(buf + more, i) == DigitsEnd(buf, i)
    decreases |buf| - i
  {
    if i < |buf| && IsDigit(buf[i]) {
      DigitsGrown(buf, more, i + 1);
    }
  }

  lemma {:induction false} OneHexGrown(buf: seq<byte>, more: seq<byte>, i: nat)
    requires OneHex(buf, i)
    ensures OneHex(buf + more, i) && i + 6 < |buf| && (buf + more)[i + 2..i + 6] == buf[i + 2..i + 6]
  {
    hide HexValue, IsHex4;
    SliceKept(buf, more, i + 2, i + 6);
  }

  lemma {:induction false} HexGrown(buf: seq<byte>, more: seq<byte>, i: nat)
    requires HexEnd(buf, i).Some?
    ensures HexEnd(buf + more, i) == HexEnd(buf, i)
  {
    hide OneHex, HexValue, IsHex4;
    OneHexGrown(buf, more, i);
    if OneHex(buf, i + 6) {
      OneHexGrown(buf, more, i + 6);
    }
  }

  lemma {:induction false} MultiGrown(buf: seq<byte>, more: seq<byte>, i: nat)
    requires Utf8.MultiEnd(buf, i).Some?
    ensures Utf8.MultiEnd(buf + more, i) == Utf8.MultiEnd(buf, i)
  {
    SliceKept(buf, more, i, i + 2);
    if i + 3 <= |buf| {
      SliceKept(buf, more, i, i + 3);
    }
    if i + 4 <= |buf| {
      SliceKept(buf, more, i, i + 4);
    }
  }

  lemma {:induction false} UnitGrown(buf: seq<byte>, more: seq<byte>, i: nat)
    requires i < |buf| && UnitEnd(buf, i).Some?
    ensures UnitEnd(buf + more, i) == UnitEnd(buf, i)
  {
    hide HexEnd, Utf8.MultiEnd;
    if HexEnd(buf, i).Some? {
      HexGrown(buf, more, i);
    }
    if Utf8.MultiEnd(buf, i).Some? {
      MultiGrown(buf, more, i);
    }
  }

  lemma {:induction false} UnitsGrown(buf: seq<byte>, more: seq<byte>, i: nat)
    requires UnitsEnd(buf, i).Some?
    ensures UnitsEnd(buf + more, i) == UnitsEnd(buf, i)
    decreases |buf| - i
  {
    hide UnitEnd;
    if buf[i] != QUOTE {
      UnitGrown(buf, more, i);
      UnitsGrown(buf, more, UnitEnd(buf, i).value);
    }
  }

  lemma {:induction false} StringGrown(buf: seq<byte>, more: seq<byte>, i: nat)
    requires StringEnd(buf, i).Some?
    ensures StringEnd(buf + more, i) == StringEnd(buf, i)
  {
    hide UnitsEnd;
    UnitsGrown(buf, more, i + 1);
  }

  lemma {:induction false} StartsGrown(buf: seq<byte>, more: seq<byte>, i: nat, s: seq<byte>)
    requires i < |buf| && s != []
    ensures StartsWith(buf, i, s) ==> StartsWith(buf + more, i, s)
    ensures StartsWith(buf + more, i, s) ==> buf[i] == s[0]
  {
    if i + |s| <= |buf| {
      SliceKept(buf, more, i, i + |s|);
    }
    if StartsWith(buf + more, i, s) {
      assert (buf + more)[i..i + |s|][0] == buf[i];
    }
  }

  lemma {:induction false} DecimalsGrown(buf: seq<byte>, more: seq<byte>, i: nat)
    requires DecimalsEnd(buf, i) < |buf| && buf[DecimalsEnd(buf, i)] != DOT
    ensures DecimalsEnd(buf + more, i) == DecimalsEnd(buf, i)
  {
    hide DigitsEnd;
    if DecimalsEnd(buf, i) > i {
      DigitsGrown(buf, more, i + 1);
    }
  }

  lemma {:induction false} ExponentGrown(buf: seq<byte>, more: seq<byte>, i: nat)
    requires ExponentEnd(buf, i) < |buf| && Delimits(buf[ExponentEnd(buf, i)])
    ensures ExponentEnd(buf + more, i) == ExponentEnd(buf, i)
  {
    hide DigitsEnd;
    if ExponentEnd(buf, i) > i {
      DigitsGrown(buf, more, if buf[i + 1] == MINUS || buf[i + 1] == PLUS then i + 2 else i + 1);
    }
  }

  lemma {:induction false} MarkOrEnd(buf: seq<byte>, i: nat)
    requires i < |buf|
    ensures ExponentEnd(buf, i) == i || IsExpMark(buf[i])
  {
  }

  lemma {:induction false} NumberGrown(buf: seq<byte>, more: seq<byte>, i: nat, e: nat)
    requires i < |buf| && NumberEnd(buf, i) == Some(e) && e < |buf| && Delimits(buf[e])
    ensures NumberEnd(buf + more, i) == Some(e)
  {
    hide DigitsEnd, DecimalsEnd, ExponentEnd;
    var j := if buf[i] == MINUS then i + 1 else i;
    var k := if buf[j] == ZERO then j + 1 else DigitsEnd(buf, j);
    var m := DecimalsEnd(buf, k);
    MarkOrEnd(buf, m);
    if buf[j] != ZERO {
      DigitsGrown(buf, more, j);
    }
    DecimalsGrown(buf, more, k);
    ExponentGrown(buf, more, m);
  }

  lemma {:induction false} FirstOfScalar(buf: seq<byte>, more: seq<byte>, i: nat)
    requires i < |buf|
    ensures StringEnd(buf, i).None? && (LiteralEnd(buf, i).Some? || NumberEnd(buf, i).Some?) ==> StringEnd(buf + more, i).None?
    ensures NumberEnd(buf, i).Some? ==> IsNumberStart(buf[i])
  {
    hide UnitsEnd;
    if LiteralEnd(buf, i).Some? {
      StartsGrown(buf, [], i, TRUE);
      StartsGrown(buf, [], i, FALSE);
      StartsGrown(buf, [], i, NULL);
      assert buf + [] == buf;
    }
  }

  lemma {:induction false} ScalarGrown(buf: seq<byte>, more: seq<byte>, i: nat, e: nat)
    requires ScalarEnd(buf, i) == Some(e) && e < |buf| && Delimits(buf[e])
    ensures ScalarEnd(buf + more, i) == Some(e)
  {
    hide StringEnd, NumberEnd, StartsWith;
    StartsGrown(buf, more, i, TRUE);
    StartsGrown(buf, more, i, FALSE);
    StartsGrown(buf, more, i, NULL);
    StartsGrown(buf, [], i, TRUE);
    StartsGrown(buf, [], i, FALSE);
    StartsGrown(buf, [], i, NULL);
    assert buf + [] == buf;
    if StringEnd(buf, i).Some? {
      StringGrown(buf, more, i);
    } else {
      FirstOfScalar(buf, more, i);
      if LiteralEnd(buf, i).None? {
        NumberGrown(buf, more, i, e);
      }
    }
  }

  lemma {:induction false} NoScalarGrown(buf: seq<byte>, more: seq<byte>, i: nat)
    requires i < |buf| && Bracket(buf[i])
    ensures ScalarEnd(buf + more, i) == None && StringEnd(buf + more, i) == None
  {
    hide ScalarEnd;
    if ScalarEnd(buf + more, i).Some? {
      ScalarStart(buf + more, i);
    }
  }

  lemma {:induction false} NotSpace(buf: seq<byte>, i: nat)
    requires i < |buf|
    ensures IsSpace(buf[i]) || SpaceEnd(buf, i) == i
  {
  }

  lemma {:induction false} CommaGrown(buf: seq<byte>, more: seq<byte>, i: nat)
    requires i <= |buf|
    requires var (p, comma) := CommaEnd(buf, i); p < |buf| && (comma || buf[p] != COMMA)
    ensures CommaEnd(buf + more, i) == CommaEnd(buf, i)
    ensures i < |buf| && (CommaEnd(buf, i).1 || Bracket(buf[CommaEnd(buf, i).0]) ==> Delimits(buf[i]))
  {
    hide SpaceEnd;
    var j := SpaceEnd(buf, i);
    NotSpace(buf, i);
    SpaceGrown(buf, more, i);
    if buf[j] == COMMA {
      SpaceGrown(buf, more, j + 1);
    }
  }

  lemma {:induction false} ArrayGrown(buf: seq<byte>, more: seq<byte>, i: nat)
    requires i <= |buf| && ArrayScalarsEnd(buf, i) < |buf| && Bracket(buf[ArrayScalarsEnd(buf, i)])
    ensures ArrayScalarsEnd(buf + more, i) == ArrayScalarsEnd(buf, i)
    decreases |buf| - i
  {
    hide ScalarEnd, CommaEnd;
    match ScalarEnd(buf, i)
    case None => NoScalarGrown(buf, more, i);
    case Some(j) =>
      CommaGrown(buf, more, j);
      ScalarGrown(buf, more, i, j);
      if CommaEnd(buf, j).1 {
        ArrayGrown(buf, more, CommaEnd(buf, j).0);
      }
  }

  lemma {:induction false} ObjectGrown(buf: seq<byte>, more: seq<byte>, i: nat, e: nat)
    requires i <= |buf| && ObjectScalarsEnd(buf, i) == Some(e) && e < |buf| && Bracket(buf[e])
    ensures ObjectScalarsEnd(buf + more, i) == Some(e)
    decreases |buf| - i
  {
    hide ScalarEnd, CommaEnd, StringEnd, SpaceEnd;
    var s := StringEnd(buf, i).value;
    var c := SpaceEnd(buf, s);
    var v := SpaceEnd(buf, c + 1);
    StringGrown(buf, more, i);
    SpaceGrown(buf, more, s);
    SpaceGrown(buf, more, c + 1);
    if !IsOpen(buf[v]) {
      var j := ScalarEnd(buf, v).value;
      CommaGrown(buf, more, j);
      ScalarGrown(buf, more, v, j);
      if CommaEnd(buf, j).1 {
        ObjectGrown(buf, more, CommaEnd(buf, j).0, e);
      }
    }
  }

  lemma {:induction false} ScalarsGrown(buf: seq<byte>, more: seq<byte>, i: nat, mode: byte, e: nat)
    requires i <= |buf| && ScalarsEnd(buf, i, mode) == Some(e) && e < |buf| && Bracket(buf[e])
    ensures ScalarsEnd(buf + more, i, mode) == Some(e)
  {
    hide ArrayScalarsEnd, ObjectScalarsEnd, SpaceEnd;
    var j := SpaceEnd(buf, i);
    SpaceGrown(buf, more, i);
    if mode == SQUARE_OPEN {
      if buf[j] != SQUARE_CLOSE {
        ArrayGrown(buf, more, j);
      }
    } else if buf[j] != CURLY_CLOSE {
      ObjectGrown(buf, more, j, e);
    }
  }

  lemma {:induction false} DeepAtBracket(buf: seq<byte>, i: nat, st: seq<byte>)
    requires i <= |buf| && Run(buf, i, st).status == MaxDepthExceeded
    ensures i < |buf| && Bracket(buf[i])
  {
  }

  lemma {:induction false} ContinueGrown(buf: seq<byte>, more: seq<byte>, i: nat, st: seq<byte>)
    requires i <= |buf| && st != [] && Continue(buf, i, st).status == MaxDepthExceeded
    ensures Continue(buf + more, i, st).status == MaxDepthExceeded
    decreases |buf| - i, 2
  {
    hide CommaEnd, Run, Resume;
    var (p, comma) := CommaEnd(buf, i);
    if comma {
      CommaGrown(buf, more, i);
      ResumeGrown(buf, more, p, st);
    } else {
      DeepAtBracket(buf, p, st);
      CommaGrown(buf, more, i);
      RunGrown(buf, more, p, st);
    }
  }

  lemma {:induction false} RunGrown(buf: seq<byte>, more: seq<byte>, i: nat, st: seq<byte>)
    requires i <= |buf| && Run(buf, i, st).status == MaxDepthExceeded
    ensures Run(buf + more, i, st).status == MaxDepthExceeded
    decreases |buf| - i, 0
  {
    hide ScalarsEnd, CommaEnd;
    assert (buf + more)[i] == buf[i];
    if IsOpen(buf[i]) {
      if |st| < MAX_DEPTH {
        ResumeGrown(buf, more, i + 1, st + [buf[i]]);
      }
    } else {
      ContinueGrown(buf, more, i + 1, st[..|st| - 1]);
    }
  }

  lemma {:induction false} ResumeGrown(buf: seq<byte>, more: seq<byte>, i: nat, st: seq<byte>)
    requires i <= |buf| && st != [] && Resume(buf, i, st).status == MaxDepthExceeded
    ensures Resume(buf + more, i, st).status == MaxDepthExceeded
    decreases |buf| - i, 1
  {
    hide ScalarsEnd, Run;
    var p := ScalarsEnd(buf, i, st[|st| - 1]).value;
    DeepAtBracket(buf, p, st);
    ScalarsGrown(buf, more, i, st[|st| - 1], p);
    RunGrown(buf, more, p, st);
  }

  /** What is found too deep stays so, whatever follows. */
  lemma {:induction false} DeepGrown(buf: seq<byte>, more: seq<byte>)
    requires Verdict(buf) == MaxDepthExceeded
    ensures Verdict(buf + more) == MaxDepthExceeded
  {
    hide SpaceEnd, ScalarEnd, Run;
    var i := SpaceEnd(buf, 0);
    DeepAtBracket(buf, i, []);
    SpaceGrown(buf, more, 0);
    NoScalarGrown(buf, more, i);
    RunGrown(buf, more, i, []);
  }

  // ----- closing brackets never go deeper

  lemma {:induction false} ClosersFlat(all: seq<byte>, i: nat, st: seq<byte>)
    requires i <= |all| && forall k | i <= k < |all| :: IsClose(all[k])
    ensures Run(all, i, st).status != MaxDepthExceeded
    decreases |all| - i
  {
    hide ScalarsEnd;
    if i < |all| {
      assert IsClose(all[i]);
      if st != [] && IsMatching(st[|st| - 1], all[i]) && |st| > 1 {
        var rest := st[..|st| - 1];
        if i + 1 < |all| {
          assert IsClose(all[i + 1]);
        }
        assert CommaEnd(all, i + 1) == (i + 1, false);
        ClosersFlat(all, i + 1, rest);
        assert Run(all, i, st) == Continue(all, i + 1, rest) == Run(all, i + 1, rest);
      }
    }
  }

  lemma {:induction false} NotEmpty(buf: seq<byte>, i: nat)
    requires i <= |buf| && RunStack(buf, i, []).None?
    ensures buf != []
  {
  }

  lemma {:induction false} DeepBeforeClosers(buf: seq<byte>, c: seq<byte>)
    requires Closes(c) && Verdict(buf + c) == MaxDepthExceeded
    ensures Verdict(buf) == MaxDepthExceeded
  {
    hide SpaceEnd, ScalarEnd, Run, RunStack;
    var i := SpaceEnd(buf, 0);
    SpaceKept(buf, c, 0);
    ScalarKept(buf, c, i);
    RunCarries(buf, c, i, []);
    if RunStack(buf, i, []).Some? {
      ClosersFlat(buf + c, |buf|, RunStack(buf, i, []).value);
    } else {
      NotEmpty(buf, i);
    }
  }

  // ----- the open brackets as a derivation

  ghost predicate Waiting(fs: seq<Frame>) { forall k | 0 <= k < |fs| :: fs[k].pend.Some? }

  lemma {:induction false} ChainShort(buf: seq<byte>, fs: seq<Frame>, bs: seq<nat>, i: nat)
    requires Chain(buf, fs, bs, i)
    ensures |fs| <= MAX_DEPTH
  {
    hide Holds;
    assert Link(buf, fs, bs, i, |fs| - 1);
  }

  /** The machine refuses to open a bracket: 32 frames wait for it. */
  lemma {:induction false} DeepSound(buf: seq<byte>, fs: seq<Frame>, bs: seq<nat>, i: nat)
    returns (gs: seq<Frame>, cs: seq<nat>, p: nat)
    requires i <= |buf| && Chain(buf, fs, bs, i) && Ready(buf, fs[|fs| - 1], i)
    requires Run(buf, i, Opens(fs)).status == MaxDepthExceeded
    ensures p < |buf| && IsOpen(buf[p]) && Chain(buf, gs, cs, p) && |gs| == MAX_DEPTH && cs[0] == bs[0]
    ensures gs[|gs| - 1].pend.Some?
    decreases |buf| - i
  {
    hide At, FrameText, Ready, Holds, Text, Wf, ScalarsEnd, CommaEnd, ItemsHeight, Opens;
    var n := |fs|;
    var st := Opens(fs);
    assert Link(buf, fs, bs, i, n - 1);
    var f := fs[n - 1];
    if IsOpen(buf[i]) {
      var last := OpenPends(buf, bs[n - 1], f, i);
      ChainLast(buf, fs, bs, i, last, i);
      var fs' := fs[..n - 1] + [last];
      if |st| >= MAX_DEPTH {
        ChainShort(buf, fs', bs, i);
        gs, cs, p := fs', bs, i;
      } else {
        assert Run(buf, i, st) == Resume(buf, i + 1, st + [buf[i]]);
        var g := OpenSound(buf, i);
        var q := ScalarsEnd(buf, i + 1, buf[i]).value;
        ChainPush(buf, fs', bs, i, g, q);
        gs, cs, p := DeepSound(buf, fs' + [g], bs + [i], q);
      }
    } else {
      assert Run(buf, i, st) == Close(buf, i + 1, st[..n - 1]);
      var v := Coll(f.open, f.ws, f.items);
      CloseSound(buf, bs[n - 1], f, i);
      ChainPop(buf, fs, bs, i);
      var fs', bs' := fs[..n - 1], bs[..n - 1];
      assert Link(buf, fs', bs', bs[n - 1], n - 2);
      var g, q := ContinueSound(buf, bs[n - 2], fs[n - 2], bs[n - 1], v, Opens(fs'));
      ChainLast(buf, fs', bs', bs[n - 1], g, q);
      gs, cs, p := DeepSound(buf, fs'[..n - 2] + [g], bs', q);
    }
  }

  lemma {:induction false} CollIs(w: Value)
    requires w.Coll?
    ensures Text(w) == [w.open] + w.ws + ItemsText(w.items) + [CloseOf(w.open)]
  {
  }

  lemma {:induction false} WrappedParts(f: Frame, it: Item)
    requires WfFrame(f) && f.pend == Some(Pending(it.sep, it.key)) && it.ws == [] && Wf(it.value) && it.value.Coll?
    ensures WfItems(f.open, f.items + [it]) && ItemsHeight(f.items + [it]) >= Height(it.value)
    ensures ItemsText(f.items + [it]) == ItemsText(f.items) + PendText(f.pend) + Text(it.value)
  {
    hide Text, Wf, Height;
    assert (f.items + [it])[..|f.items|] == f.items;
  }

  /** The frame around a value, closed. */
  lemma {:induction false} Wrapped(buf: seq<byte>, b: nat, f: Frame, e: nat, v: Value) returns (w: Value)
    requires Holds(buf, b, f, e) && f.pend.Some? && Wf(v) && v.Coll?
    ensures Wf(w) && w.Coll? && Height(w) > Height(v)
    ensures b <= e <= |buf| && Text(w) == buf[b..e] + Text(v) + [CloseOf(f.open)]
  {
    hide Text, WfItems, ItemsText;
    var it := Item(f.pend.value.sep, f.pend.value.key, v, []);
    w := Coll(f.open, f.ws, f.items + [it]);
    WrappedParts(f, it);
    CollIs(w);
    assert buf[b..e] == FrameText(f);
  }

  lemma {:induction false} CloserIs(fs: seq<Frame>)
    requires fs != []
    ensures Closers(Opens(fs)) == [CloseOf(fs[|fs| - 1].open)] + Closers(Opens(fs)[..|fs| - 1])
  {
  }

  lemma {:induction false} NoneLeft(fs: seq<Frame>)
    requires |fs| == 1
    ensures Closers(Opens(fs)[..0]) == []
  {
  }

  /** All frames around a value, closed one after the other. */
  lemma {:induction false} AllWrapped(buf: seq<byte>, fs: seq<Frame>, bs: seq<nat>, e: nat, v: Value) returns (w: Value)
    requires Chain(buf, fs, bs, e) && fs[|fs| - 1].pend.Some? && Wf(v) && v.Coll?
    ensures Wf(w) && w.Coll? && Height(w) >= Height(v) + |fs|
    ensures bs[0] <= e <= |buf| && Text(w) == buf[bs[0]..e] + Text(v) + Closers(Opens(fs))
    decreases |fs|
  {
    hide Text, Wf, Holds, Height, ItemsHeight;
    var n := |fs| - 1;
    assert Link(buf, fs, bs, e, n);
    var u := Wrapped(buf, bs[n], fs[n], e, v);
    CloserIs(fs);
    if n == 0 {
      w := u;
      NoneLeft(fs);
      assert [CloseOf(fs[n].open)] + [] == [CloseOf(fs[n].open)];
    } else {
      ChainPop(buf, fs, bs, e);
      w := AllWrapped(buf, fs[..n], bs[..n], bs[n], u);
      var a, m, c, rest := buf[bs[0]..bs[n]], buf[bs[n]..e], [CloseOf(fs[n].open)], Closers(Opens(fs)[..n]);
      assert Text(w) == a + (m + Text(v) + c) + rest;
      assert a + (m + Text(v) + c) + rest == a + m + Text(v) + (c + rest);
      assert a + m == buf[bs[0]..e];
    }
  }

  /** A beginning of the text that closing brackets make a text of the grammar nesting deeper than 32. */
  ghost predicate DeepBeginning(buf: seq<byte>, k: nat, c: seq<byte>, d: Doc) {
    k <= |buf| && Closes(c) && WfDoc(d) && DocText(d) == buf[..k] + c && Height(d.value) > 32
  }

  lemma {:induction false} DeepOpens(buf: seq<byte>)
    requires Verdict(buf) == MaxDepthExceeded
    ensures var i := SpaceEnd(buf, 0);
            && i < |buf| && IsOpen(buf[i]) && ScalarsEnd(buf, i + 1, buf[i]).Some?
            && Run(buf, ScalarsEnd(buf, i + 1, buf[i]).value, [buf[i]]).status == MaxDepthExceeded
  {
    hide ScalarsEnd, ScalarEnd, SpaceEnd;
    var i := SpaceEnd(buf, 0);
    assert Run(buf, i, []).status == MaxDepthExceeded;
    DeepAtBracket(buf, i, []);
    assert [] + [buf[i]] == [buf[i]];
    assert Run(buf, i, []) == Resume(buf, i + 1, [buf[i]]);
  }

  lemma {:induction false} FirstChain(buf: seq<byte>, g: Frame, i: nat, q: nat)
    requires Holds(buf, i, g, q) && ItemsHeight(g.items) == 0
    ensures Chain(buf, [g], [i], q)
  {
    hide Holds;
    assert Link(buf, [g], [i], q, 0);
  }

  lemma {:induction false} EmptyColl(open: byte)
    requires IsOpen(open)
    ensures var v := Coll(open, [], []);
            Wf(v) && Height(v) == 1 && Text(v) == [open] + [CloseOf(open)] && IsClose(CloseOf(open))
  {
  }

  lemma {:induction false} DeepHasBeginning(buf: seq<byte>) returns (k: nat, c: seq<byte>, d: Doc)
    requires Verdict(buf) == MaxDepthExceeded
    ensures DeepBeginning(buf, k, c, d)
  {
    hide ScalarsEnd, At, Text, Wf, Holds, Chain, FrameText, Verdict, Run, SpaceEnd, Height;
    var i := SpaceEnd(buf, 0);
    SpacesAre(buf, 0);
    DeepOpens(buf);
    var g := OpenSound(buf, i);
    assert Opens([g]) == [buf[i]];
    var q := ScalarsEnd(buf, i + 1, buf[i]).value;
    FirstChain(buf, g, i, q);
    var gs, cs, p := DeepSound(buf, [g], [i], q);
    var v := Coll(buf[p], [], []);
    EmptyColl(buf[p]);
    var w := AllWrapped(buf, gs, cs, p, v);
    d := Doc(buf[..i], w, []);
    k := p + 1;
    c := [CloseOf(buf[p])] + Closers(Opens(gs));
    assert buf[..p + 1] == buf[..i] + buf[i..p] + [buf[p]];
    assert buf[0..i] == buf[..i];
  }

  // ----- main results

  /**
   * JSONMaxDepthExceeded is the verdict exactly on the texts of which some beginning is completed by
   * closing brackets to a text of the grammar that nests deeper than 32.
   */
  lemma {:induction false} DepthExact(buf: seq<byte>)
    ensures Verdict(buf) == MaxDepthExceeded <==> exists k: nat, c, d :: DeepBeginning(buf, k, c, d)
  {
    hide Verdict, Text, Wf, Height;
    if Verdict(buf) == MaxDepthExceeded {
      var k, c, d := DeepHasBeginning(buf);
    }
    if k: nat, c, d :| DeepBeginning(buf, k, c, d) {
      VerdictComplete(d);
      DeepBeforeClosers(buf[..k], c);
      DeepGrown(buf[..k], buf[k..]);
      assert buf[..k] + buf[k..] == buf;
    }
  }

  /** Closing brackets alone make a text of the grammar of it that nests at most 32 deep. */
  ghost predicate Closable(buf: seq<byte>) {
    exists c, d :: Closes(c) && WfDoc(d) && DocText(d) == buf + c && Height(d.value) <= 32
  }

  lemma {:induction false} ClosableIs(buf: seq<byte>)
    ensures Closable(buf) <==> Completable(buf)
  {
    hide Text, Wf, Height, WfDoc, DocText, Verdict;
    if Closable(buf) {
      var c, d :| Closes(c) && WfDoc(d) && DocText(d) == buf + c && Height(d.value) <= 32;
      VerdictExact(buf + c);
    }
    if Completable(buf) {
      var c :| Closes(c) && Verdict(buf + c) == Success;
      VerdictExact(buf + c);
      var d :| WfDoc(d) && DocText(d) == buf + c && Height(d.value) <= 32;
    }
  }

  lemma {:induction false} SpaceFrom(buf: seq<byte>, i: nat)
    requires AllSpace(buf) && i <= |buf|
    ensures SpaceEnd(buf, i) == |buf|
    decreases |buf| - i
  {
    if i < |buf| {
      SpaceFrom(buf, i + 1);
    }
  }

  lemma {:induction false} SpaceOnly(buf: seq<byte>)
    ensures SpaceEnd(buf, 0) == |buf| <==> AllSpace(buf)
  {
    SpacesAre(buf, 0);
    assert buf[0..|buf|] == buf;
    if AllSpace(buf) {
      SpaceFrom(buf, 0);
    }
  }

  lemma {:induction false} FourVerdicts(buf: seq<byte>)
    requires buf != []
    ensures Verdict(buf) in {Success, Partial, MaxDepthExceeded, IllegalDocument}
  {
    hide SpaceEnd, ScalarEnd, Run;
  }

  /** The verdict on every text, by the grammar alone; the last case is all that is left. */
  lemma {:induction false} VerdictDecided(buf: seq<byte>)
    requires buf != []
    ensures Verdict(buf) ==
            if exists d :: WfDoc(d) && DocText(d) == buf && Height(d.value) <= 32 then Success
            else if exists k: nat, c, d :: DeepBeginning(buf, k, c, d) then MaxDepthExceeded
            else if AllSpace(buf) || Closable(buf) then Partial
            else IllegalDocument
  {
    hide Text, Wf, Height, WfDoc, DocText, Verdict, AllSpace, DeepBeginning;
    VerdictExact(buf);
    DepthExact(buf);
    PartialExact(buf);
    SpaceOnly(buf);
    ClosableIs(buf);
    FourVerdicts(buf);
  }
}
