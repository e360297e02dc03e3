/** What a terminal's bytes do to the line that is being typed, and which line Enter enters. */
module ShellTyping {
  import opened Bytes
  import opened Shell
  import opened ShellHistory

  /** A byte that is no control key of the editor. */
  predicate Printable(ch: byte) { ch !in {0x00, 0x03, 0x08, 0x09, 0x0A, 0x0D, 0x11, 0x1B, 0x7F} }

  predicate AllPrintable(text: seq<byte>) { forall k | 0 <= k < |text| :: Printable(text[k]) }

  /** The line as it stands, with the cursor between its two parts. */
  predicate Line(f: Flow, before: seq<byte>, after: seq<byte>) {
    f.state.stat == Normal && f.state.before == before && f.state.after == after
  }

  lemma {:induction false} InsertStep(s: State, ch: byte)
    requires |s.hist| == SHELL_HIST_MAX && s.stat == Normal && Printable(ch)
    ensures Step(s, ch) == (Insert(s, ch), Continue)
  {
  }

  lemma {:induction false} InsertIs(s: State, ch: byte)
    ensures Insert(s, ch) == s.(before := s.before + [ch])
  {
  }

  /** Printable bytes go in at the cursor, in their order. */
  lemma {:induction false} Typed(keys: seq<byte>, text: seq<byte>)
    requires Type(keys).state.stat == Normal && AllPrintable(text)
    ensures var f, t := Type(keys), Type(keys + text);
            Line(t, f.state.before + text, f.state.after) && t.lines == f.lines && t.state == f.state.(before := t.state.before)
    decreases |text|
  {
    hide Step, Type, Insert;
    if text == [] {
      assert keys + [] == keys && Type(keys).state.before + [] == Type(keys).state.before;
    } else {
      var n := |text| - 1;
      var init, ch := text[..n], text[n];
      Typed(keys, init);
      var all := keys + init;
      InsertStep(Type(all).state, ch);
      TypeOne(all, ch);
      assert all + [ch] == keys + text && init + [ch] == text;
      InsertIs(Type(all).state, ch);
      assert Type(keys).state.before + init + [ch] == Type(keys).state.before + text;
    }
  }

  lemma {:induction false} EnterStep(s: State, ch: byte)
    requires |s.hist| == SHELL_HIST_MAX && s.stat == Normal && (ch == 0x0D || ch == 0x0A)
    ensures Step(s, ch).1 == Entered(s.Text())
    ensures var t := Step(s, ch).0; t.stat == Normal && t.before == [] && t.after == []
  {
  }

  /** Enter, as carriage return or line feed, enters both parts of the line and begins an empty one. */
  lemma {:induction false} EnterEnters(keys: seq<byte>, ch: byte)
    requires Type(keys).state.stat == Normal && (ch == 0x0D || ch == 0x0A)
    ensures var f, t := Type(keys), Type(keys + [ch]);
            Line(t, [], []) && t.lines == f.lines + [f.state.before + f.state.after]
  {
    hide Step;
    EnterStep(Type(keys).state, ch);
    assert (keys + [ch])[..|keys|] == keys;
  }

  /** Printable bytes typed into an empty line and Enter: exactly these bytes are entered. */
  lemma {:induction false} LineEntered(keys: seq<byte>, text: seq<byte>, ch: byte)
    requires Line(Type(keys), [], []) && AllPrintable(text) && (ch == 0x0D || ch == 0x0A)
    ensures Type(keys + text + [ch]).lines == Type(keys).lines + [text] && Line(Type(keys + text + [ch]), [], [])
  {
    hide Type;
    Typed(keys, text);
    EnterEnters(keys + text, ch);
    assert [] + text + [] == text;
  }

  lemma {:induction false} EraseStep(s: State, ch: byte)
    requires |s.hist| == SHELL_HIST_MAX && s.stat == Normal && (ch == 0x7F || ch == 0x08)
    ensures Step(s, ch) == (s.(before := if s.before == [] then [] else s.before[..|s.before| - 1]), Continue)
  {
  }

  /** DEL and BACKSPACE take the character before the cursor away, if there is one. */
  lemma {:induction false} Erases(keys: seq<byte>, ch: byte)
    requires Type(keys).state.stat == Normal && (ch == 0x7F || ch == 0x08)
    ensures var f, t, b := Type(keys), Type(keys + [ch]), Type(keys).state.before;
            Line(t, if b == [] then [] else b[..|b| - 1], f.state.after) && t.lines == f.lines
  {
    hide Step;
    EraseStep(Type(keys).state, ch);
    TypeOne(keys, ch);
  }

  /** ESC [ C and ESC [ D move the cursor by one to the right and to the left over the same text. */
  lemma {:induction false} CursorMoves(keys: seq<byte>)
    requires Type(keys).state.stat == Normal
    ensures var f, b, a := Type(keys), Type(keys).state.before, Type(keys).state.after;
            var r, l := Type(keys + [0x1B, 0x5B, 0x43]), Type(keys + [0x1B, 0x5B, 0x44]);
            && r.lines == f.lines && l.lines == f.lines
            && (if a == [] then Line(r, b, a) else Line(r, b + [a[0]], a[1..]))
            && (if b == [] then Line(l, b, a) else Line(l, b[..|b| - 1], [b[|b| - 1]] + a))
  {
    hide Type, Step;
    PressesTyped(keys, RIGHT, 1);
    PressesTyped(keys, LEFT, 1);
    var s := Type(keys).state;
    assert Presses(RIGHT, 1) == Presses(RIGHT, 0) + [0x1B, 0x5B, RIGHT] == [0x1B, 0x5B, 0x43];
    assert Presses(LEFT, 1) == Presses(LEFT, 0) + [0x1B, 0x5B, LEFT] == [0x1B, 0x5B, 0x44];
    assert Arrows(s, RIGHT, 0) == s && Arrows(s, LEFT, 0) == s;
    assert Arrows(s, RIGHT, 1) == Arrow(s, RIGHT) && Arrows(s, LEFT, 1) == Arrow(s, LEFT);
  }

  lemma {:induction false} EscapeSteps(s: State, ch: byte)
    requires |s.hist| == SHELL_HIST_MAX && s.stat == Normal
    ensures Step(s, 0x1B) == (s.(stat := Special), Continue)
    ensures ch != 0x5B && ch !in {0x03, 0x0A, 0x0D, 0x11, 0x1B} ==> Step(s.(stat := Special), ch) == (Insert(s, ch), Continue)
    ensures Step(s.(stat := Special), 0x5B) == (s.(stat := Function), Continue)
    ensures ch !in {0x03, 0x11, 0x1B, 0x41, 0x42, 0x43, 0x44} ==> Step(s.(stat := Function), ch) == (s, Continue)
  {
    assert s.(stat := Special).(stat := Normal) == s && s.(stat := Function).(stat := Normal) == s;
  }

  /** ESC before another character than a bracket is lost, even where that is TAB, DEL or BACKSPACE; ESC, bracket and another letter than A to D are all lost. */
  lemma {:induction false} OtherEscapes(keys: seq<byte>, ch: byte)
    requires Type(keys).state.stat == Normal
    ensures ch != 0x5B && ch !in {0x03, 0x0A, 0x0D, 0x11, 0x1B} ==>
            Type(keys + [0x1B, ch]) == Flow(Insert(Type(keys).state, ch), Type(keys).lines)
    ensures ch !in {0x03, 0x11, 0x1B, 0x41, 0x42, 0x43, 0x44} ==> Type(keys + [0x1B, 0x5B, ch]) == Type(keys)
  {
    hide Step, Type, Insert;
    EscapeSteps(Type(keys).state, ch);
    TypeOne(keys, 0x1B);
    TypeOne(keys + [0x1B], ch);
    TypeOne(keys + [0x1B], 0x5B);
    TypeOne(keys + [0x1B] + [0x5B], ch);
    assert keys + [0x1B] + [ch] == keys + [0x1B, ch] && keys + [0x1B] + [0x5B] + [ch] == keys + [0x1B, 0x5B, ch];
  }

  lemma {:induction false} CancelStep(s: State, ch: byte)
    requires |s.hist| == SHELL_HIST_MAX && (ch == 0x03 || ch == 0x11)
    ensures Step(s, ch).1 == Cancelled(ch)
    ensures Step(s, ch).0 == s.(before := [], after := [], current := 0)
  {
  }

  lemma {:induction false} TabStep(s: State)
    requires |s.hist| == SHELL_HIST_MAX && s.stat == Normal
    ensures Step(s, 0x09) == (s, Continue)
  {
  }

  /** Ctrl-C and Ctrl-Q drop the line; TAB does nothing. */
  lemma {:induction false} Dropped(keys: seq<byte>, ch: byte)
    requires Type(keys).state.stat == Normal && (ch == 0x03 || ch == 0x11 || ch == 0x09)
    ensures var f, t := Type(keys), Type(keys + [ch]);
            t.lines == f.lines && if ch == 0x09 then t == f else Line(t, [], [])
  {
    hide Step;
    assert (keys + [ch])[..|keys|] == keys;
    if ch == 0x09 {
      TabStep(Type(keys).state);
    } else {
      CancelStep(Type(keys).state, ch);
    }
  }

  lemma {:induction false} FitsOne(s: State, ch: byte)
    requires s.stat == Normal && Printable(ch)
    ensures Fits(s, ch) <==> |s.before| + |s.after| < 63
  {
  }

  /** A line fits exactly when it has at most 63 characters. */
  lemma {:induction false} LineFits(keys: seq<byte>, text: seq<byte>)
    requires AllFit(keys) && Line(Type(keys), [], []) && AllPrintable(text)
    ensures AllFit(keys + text) <==> |text| <= 63
    decreases |text|
  {
    hide Fits, Type, AllFit;
    if text == [] {
      assert keys + [] == keys;
    } else {
      var n := |text| - 1;
      LineFits(keys, text[..n]);
      Typed(keys, text[..n]);
      assert [] + text[..n] == text[..n];
      FitsOne(Type(keys + text[..n]).state, text[n]);
      TypeOne(keys + text[..n], text[n]);
      assert keys + text[..n] + [text[n]] == keys + text;
    }
  }
}
