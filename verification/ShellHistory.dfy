/** Whole runs of the line editor: what the cursor keys, the history rows and the history keys do. */
module ShellHistory {
  import opened Bytes
  import opened Shell

  // ----- editing

  /** The cursor keys change no text, and undo each other where they do anything. */
  lemma {:induction false} CursorKeys(s: State)
    ensures MoveLeft(s).Text() == s.Text() && MoveRight(s).Text() == s.Text()
    ensures s.before != [] ==> MoveRight(MoveLeft(s)) == s
    ensures s.after != [] ==> MoveLeft(MoveRight(s)) == s
  {
    if s.before != [] {
      var n := |s.before| - 1;
      assert s.before[..n] + [s.before[n]] == s.before;
      assert s.before[..n] + ([s.before[n]] + s.after) == s.Text();
    }
    if s.after != [] {
      assert [s.after[0]] + s.after[1..] == s.after;
      assert s.before + [s.after[0]] + s.after[1..] == s.Text();
      assert (s.before + [s.after[0]])[..|s.before|] == s.before;
    }
  }

  /** Erasing takes back the character just inserted, wherever the cursor stands. */
  lemma {:induction false} EraseInserted(s: State, ch: byte)
    ensures Erase(Insert(s, ch)) == s
  {
    assert (s.before + [ch])[..|s.before|] == s.before;
  }

  // ----- runs

  datatype Flow = Flow(state: State, lines: seq<seq<byte>>)

  function Fresh(): State { State(Normal, [], [], [[], [], [], [], []], 0, 0) }

  /** Everything typed since the start, through any number of calls, with the lines entered. */
  function Type(keys: seq<byte>): (f: Flow)
    ensures |f.state.hist| == SHELL_HIST_MAX
    decreases |keys|
  {
    if keys == [] then
      Flow(Fresh(), [])
    else
      var f := Type(keys[..|keys| - 1]);
      var (t, outcome) := Step(f.state, keys[|keys| - 1]);
      StepKeepsHistory(f.state, keys[|keys| - 1]);
      Flow(t, if outcome.Entered? then f.lines + [outcome.text] else f.lines)
  }

  predicate AllFit(keys: seq<byte>)
    decreases |keys|
  {
    keys == [] || (AllFit(keys[..|keys| - 1]) && Fits(Type(keys[..|keys| - 1]).state, keys[|keys| - 1]))
  }

  /** The last five lines, newest first. */
  function Recent(lines: seq<seq<byte>>): seq<seq<byte>> {
    seq(5, i requires 0 <= i < 5 => if i < |lines| then lines[|lines| - 1 - i] else [])
  }

  lemma {:induction false} RecentSnoc(lines: seq<seq<byte>>, text: seq<byte>)
    ensures Recent(lines + [text]) == [text] + Recent(lines)[..SHELL_HIST_MAX - 1]
  {
  }

  lemma {:induction false} CursorKeysKeep(s: State, ch: byte)
    ensures MoveLeft(s).hist == s.hist && MoveLeft(s).count == s.count && MoveLeft(s).current == s.current
    ensures MoveRight(s).hist == s.hist && MoveRight(s).count == s.count && MoveRight(s).current == s.current
    ensures Erase(s).hist == s.hist && Erase(s).count == s.count && Erase(s).current == s.current
    ensures Insert(s, ch).hist == s.hist && Insert(s, ch).count == s.count && Insert(s, ch).current == s.current
  {
  }

  lemma {:induction false} StepHistory(s: State, ch: byte)
    requires |s.hist| == SHELL_HIST_MAX && s.count <= SHELL_HIST_MAX && (s.current == 0 || s.current < s.count)
    ensures var (t, outcome) := Step(s, ch);
            && t.hist == (if outcome.Entered? then [outcome.text] + s.hist[..SHELL_HIST_MAX - 1] else s.hist)
            && t.count == (if outcome.Entered? && s.count < SHELL_HIST_MAX then s.count + 1 else s.count)
            && (t.current == 0 || t.current < t.count)
            && (outcome.Entered? ==> outcome.text == s.Text())
  {
    hide MoveLeft, MoveRight, Erase, Insert;
    CursorKeysKeep(s.(stat := Normal), ch);
    CursorKeysKeep(s, ch);
  }

  lemma {:induction false} NothingRecent()
    ensures Recent([]) == [[], [], [], [], []]
  {
  }

  /** After any keys the rows hold the last lines entered, at most five, newest first. */
  lemma {:induction false} HistoryIsRecent(keys: seq<byte>)
    ensures var f := Type(keys);
            && f.state.hist == Recent(f.lines)
            && f.state.count == (if |f.lines| < 5 then |f.lines| else 5)
            && (f.state.current == 0 || f.state.current < f.state.count)
    decreases |keys|
  {
    hide Step, Recent;
    if keys == [] {
      NothingRecent();
    } else {
      var f, ch := Type(keys[..|keys| - 1]), keys[|keys| - 1];
      HistoryIsRecent(keys[..|keys| - 1]);
      StepHistory(f.state, ch);
      RecentSnoc(f.lines, f.state.Text());
    }
  }

  lemma {:induction false} FreshWf()
    ensures WfState(Fresh())
  {
  }

  lemma {:induction false} WfStat(s: State, stat: Stat)
    requires WfState(s)
    ensures WfState(s.(stat := stat)) && |s.hist| == SHELL_HIST_MAX
  {
    assert s.(stat := stat).Text() == s.Text();
  }

  lemma {:induction false} CancelWf(s: State)
    requires WfState(s)
    ensures WfState(s.(before := [], after := [], current := 0))
  {
  }

  lemma {:induction false} EraseWf(s: State)
    requires WfState(s)
    ensures WfState(Erase(s))
  {
  }

  lemma {:induction false} NonZeroMoves(rest: seq<byte>, last: byte, after: seq<byte>, before: seq<byte>)
    requires before == rest + [last] && NonZero(before) && NonZero(after)
    ensures NonZero(rest) && NonZero([last] + after)
  {
    assert before[|rest|] == last;
    assert forall k :: 0 <= k < |rest| ==> rest[k] == before[k];
  }

  lemma {:induction false} NonZeroJoins(before: seq<byte>, after: seq<byte>)
    requires NonZero(before) && NonZero(after) && after != []
    ensures NonZero(before + [after[0]]) && NonZero(after[1..])
  {
  }

  lemma {:induction false} MoveWf(s: State)
    requires WfState(s)
    ensures WfState(MoveLeft(s)) && WfState(MoveRight(s))
  {
    hide NonZero;
    CursorKeys(s);
    if s.before != [] {
      NonZeroMoves(s.before[..|s.before| - 1], s.before[|s.before| - 1], s.after, s.before);
    }
    if s.after != [] {
      NonZeroJoins(s.before, s.after);
    }
  }

  lemma {:induction false} RecalledWf(s: State, pos: nat)
    requires WfState(s)
    ensures WfState(Recalled(s, pos))
  {
    var k := if pos < SHELL_HIST_MAX then pos else SHELL_HIST_MAX - 1;
    assert s.hist[k] in s.hist;
    assert s.hist[k] + [] == s.hist[k];
  }

  lemma {:induction false} ArrowWf(s: State, ch: byte)
    requires WfState(s)
    ensures WfState(Arrow(s, ch))
  {
    hide MoveLeft, MoveRight;
    MoveWf(s);
    forall pos: nat
      ensures WfState(Recalled(s, pos))
    {
      RecalledWf(s, pos);
    }
  }

  lemma {:induction false} InsertWf(s: State, ch: byte)
    requires WfState(s) && ch != 0 && |s.Text()| < SHELL_BUFFER_SIZE - 1 && ch != CR && ch != LF
    ensures WfState(Plain(s, ch).0)
  {
  }

  lemma {:induction false} PushWf(s: State)
    requires WfState(s)
    ensures WfState(Push(s))
  {
    forall t | t in Push(s).hist
      ensures |t| < SHELL_BUFFER_SIZE && NonZero(t)
    {
      if t != s.Text() {
        assert t in s.hist;
      }
    }
  }

  lemma {:induction false} PlainEnter(s: State, ch: byte)
    requires |s.hist| == SHELL_HIST_MAX && (ch == CR || ch == LF)
    ensures Plain(s, ch).0 == Push(s)
  {
  }

  lemma {:induction false} StepWf(s: State, ch: byte)
    requires WfState(s) && Fits(s, ch)
    ensures WfState(Step(s, ch).0)
  {
    hide WfState, Plain, Arrow, Erase;
    var n := s.(stat := Normal);
    WfStat(s, Normal);
    WfStat(s, Special);
    WfStat(s, Function);
    CancelWf(s);
    ArrowWf(n, ch);
    EraseWf(s);
    if Inserts(s, ch) {
      InsertWf(n, ch);
    } else if ch == CR || ch == LF {
      PushWf(n);
      PlainEnter(n, ch);
    }
    if s.stat == Normal {
      assert n == s;
    }
  }

  /** While every key fits, no text reaches the end of the buffer and no NUL gets into one. */
  lemma {:induction false} StateStaysWf(keys: seq<byte>)
    requires AllFit(keys)
    ensures WfState(Type(keys).state)
    decreases |keys|
  {
    hide Step, WfState, Fits;
    if keys == [] {
      FreshWf();
    } else {
      StateStaysWf(keys[..|keys| - 1]);
      StepWf(Type(keys[..|keys| - 1]).state, keys[|keys| - 1]);
    }
  }

  lemma {:induction false} TypeOne(keys: seq<byte>, ch: byte)
    ensures var f, (t, outcome) := Type(keys), Step(Type(keys).state, ch);
            Type(keys + [ch]) == Flow(t, if outcome.Entered? then f.lines + [outcome.text] else f.lines)
    ensures AllFit(keys + [ch]) <==> AllFit(keys) && Fits(Type(keys).state, ch)
  {
    hide Step, Fits;
    assert (keys + [ch])[..|keys|] == keys;
  }

  predicate Ends(ch: byte) { ch == 0x0D || ch == 0x0A || ch == 0x03 || ch == 0x11 }

  lemma {:induction false} StepEnds(s: State, ch: byte)
    requires |s.hist| == SHELL_HIST_MAX && Step(s, ch).1 != Continue
    ensures Ends(ch)
  {
  }

  lemma {:induction false} FitBefore(keys: seq<byte>, more: seq<byte>)
    requires AllFit(keys + more)
    ensures AllFit(keys)
    decreases |more|
  {
    hide Fits, Type;
    if more == [] {
      assert keys + more == keys;
    } else {
      assert (keys + more)[..|keys + more| - 1] == keys + more[..|more| - 1];
      FitBefore(keys, more[..|more| - 1]);
    }
  }

  /**
   * The calls of SHELL_recv follow one another on one stream of keys: each takes all of them, or those
   * up to the first that is Enter, Ctrl-C or Ctrl-Q, and enters at most one line.
   */
  lemma {:induction false} CallContinues(earlier: seq<byte>, keys: seq<byte>)
    ensures var r, f := Call(Type(earlier).state, keys), Type(earlier);
            && r.used <= |keys|
            && Type(earlier + keys[..r.used]) ==
               Flow(r.state, if r.outcome.Entered? then f.lines + [r.outcome.text] else f.lines)
            && (r.outcome == Continue ==> r.used == |keys|)
            && (r.outcome != Continue ==> r.used > 0 && Ends(keys[r.used - 1]))
    ensures AllFit(earlier) ==>
            (Typable(Type(earlier).state, keys) <==> AllFit(earlier + keys[..Call(Type(earlier).state, keys).used]))
    decreases |keys|
  {
    hide Step, Fits, Type, AllFit;
    if keys == [] {
      assert earlier + [] == earlier;
    } else {
      var all := earlier + [keys[0]];
      var (t, outcome) := Step(Type(earlier).state, keys[0]);
      TypeOne(earlier, keys[0]);
      if outcome == Continue {
        CallContinues(all, keys[1..]);
        var n := Call(t, keys[1..]).used;
        assert all + keys[1..][..n] == earlier + keys[..n + 1];
        if AllFit(all + keys[1..][..n]) {
          FitBefore(all, keys[1..][..n]);
        }
      } else {
        StepEnds(Type(earlier).state, keys[0]);
        assert keys[..1] == [keys[0]];
      }
    }
  }

  // ----- the history keys

  /** ESC, bracket and a letter are one press of an arrow key. */
  lemma {:induction false} ThreeKeys(s: State, key: byte)
    requires |s.hist| == SHELL_HIST_MAX && s.stat == Normal && key != ESC && key != CTRL_C && key != CTRL_Q
    ensures Step(Step(Step(s, ESC).0, BRACKET).0, key) == (Arrow(s, key), Continue)
  {
    hide Arrow;
    assert s.(stat := Special).(stat := Function).(stat := Normal) == s;
  }

  /** The bytes of `j` presses of an arrow key. */
  function Presses(key: byte, j: nat): seq<byte> {
    if j == 0 then [] else Presses(key, j - 1) + [0x1B, 0x5B, key]
  }

  function Arrows(s: State, key: byte, j: nat): (t: State)
    requires |s.hist| == SHELL_HIST_MAX
    ensures |t.hist| == SHELL_HIST_MAX && t.stat == s.stat && t.hist == s.hist && t.count == s.count
    decreases j
  {
    if j == 0 then
      s
    else
      CursorKeysKeep(Arrows(s, key, j - 1), key);
      Arrow(Arrows(s, key, j - 1), key)
  }

  lemma {:induction false} TypeSnoc(keys: seq<byte>, ch: byte)
    ensures Type(keys + [ch]).state == Step(Type(keys).state, ch).0
    ensures Step(Type(keys).state, ch).1 == Continue ==> Type(keys + [ch]).lines == Type(keys).lines
  {
    hide Step;
    assert (keys + [ch])[..|keys|] == keys;
  }

  lemma {:induction false} StepsContinue(s: State)
    requires |s.hist| == SHELL_HIST_MAX && s.stat == Normal
    ensures Step(s, ESC).1 == Continue && |Step(s, ESC).0.hist| == SHELL_HIST_MAX && Step(Step(s, ESC).0, BRACKET).1 == Continue
  {
  }

  /** Typing them is pressing the key so often. */
  lemma {:induction false} PressesTyped(keys: seq<byte>, key: byte, j: nat)
    requires Type(keys).state.stat == Normal && key != ESC && key != CTRL_C && key != CTRL_Q
    ensures Type(keys + Presses(key, j)) == Flow(Arrows(Type(keys).state, key, j), Type(keys).lines)
    decreases j
  {
    hide Type, Step, Arrow;
    if j == 0 {
      assert keys + [] == keys;
    } else {
      var all := keys + Presses(key, j - 1);
      PressesTyped(keys, key, j - 1);
      TypeSnoc(all, ESC);
      TypeSnoc(all + [ESC], BRACKET);
      TypeSnoc(all + [ESC] + [BRACKET], key);
      assert keys + Presses(key, j) == all + [ESC] + [BRACKET] + [key];
      ThreeKeys(Type(all).state, key);
      StepsContinue(Type(all).state);
    }
  }

  function Least(a: int, b: int): int { if a < b then a else b }

  lemma {:induction false} UpsRecall(s: State, j: nat)
    requires |s.hist| == SHELL_HIST_MAX && s.current == 0 && 0 < s.count <= SHELL_HIST_MAX && s.hist[0] != [] && j > 0
    ensures var t := Arrows(s, UP, j);
            && t.before == s.hist[Least(j - 1, s.count - 1)] && t.after == [] && t.current == Least(j, s.count - 1)
    decreases j
  {
    if j == 1 {
      assert Arrows(s, UP, 0) == s;
    } else {
      UpsRecall(s, j - 1);
    }
  }

  /** No Up or Down since the line was begun, no half-typed key, and the line entered last was not empty. */
  predicate Ready(f: Flow) {
    f.state.stat == Normal && f.state.current == 0 && f.lines != [] && f.lines[|f.lines| - 1] != []
  }

  /** The k-th newest of the lines that are still kept, counting from 0. */
  function Kept(lines: seq<seq<byte>>, k: nat): seq<byte>
    requires lines != []
  {
    lines[|lines| - 1 - Least(k, Least(|lines|, 5) - 1)]
  }

  /** So it is right after a line with something in it has been entered. */
  lemma {:induction false} EnteredIsReady(keys: seq<byte>, ch: byte)
    requires Step(Type(keys).state, ch).1.Entered? && Type(keys).state.Text() != []
    ensures Ready(Type(keys + [ch])) && Type(keys + [ch]).lines == Type(keys).lines + [Type(keys).state.Text()]
  {
    assert (keys + [ch])[..|keys|] == keys;
  }

  lemma {:induction false} KeptIs(keys: seq<byte>, k: nat)
    requires Type(keys).lines != []
    ensures var f := Type(keys);
            && 0 < f.state.count <= SHELL_HIST_MAX && f.state.hist[0] == f.lines[|f.lines| - 1]
            && f.state.hist[Least(k, f.state.count - 1)] == Kept(f.lines, k)
  {
    hide Type;
    HistoryIsRecent(keys);
  }

  /** From a fresh line the j-th press of Up shows the j-th newest line entered, and then stays at the oldest kept. */
  lemma {:induction false} UpShows(keys: seq<byte>, j: nat)
    requires Ready(Type(keys)) && j > 0
    ensures var f, t := Type(keys), Type(keys + Presses(0x41, j)).state;
            t.before == Kept(f.lines, j - 1) && t.after == [] && t.hist == f.state.hist
  {
    hide Type, Arrow;
    PressesTyped(keys, UP, j);
    KeptIs(keys, j - 1);
    UpsRecall(Type(keys).state, j);
  }

  function Below(a: int, b: int): nat { if a > b then a - b else 0 }

  lemma {:induction false} DownsRecall(s: State, k: nat)
    requires |s.hist| == SHELL_HIST_MAX && s.current < s.count <= SHELL_HIST_MAX && s.hist[0] != [] && k > 0
    ensures var t := Arrows(s, DOWN, k);
            && t.before == s.hist[Below(s.current, k - 1)] && t.after == [] && t.current == Below(s.current, k)
    decreases k
  {
    if k == 1 {
      assert Arrows(s, DOWN, 0) == s;
    } else {
      DownsRecall(s, k - 1);
    }
  }

  /**
   * After j Ups the k-th Down shows the line j - k + 1 places behind the newest (counting from where
   * the Ups have got to, and staying at the newest). So the first Down does not go back: it shows the
   * line one older than the one shown, or the oldest again, as the position had already moved on.
   */
  lemma {:induction false} DownsAfterUps(keys: seq<byte>, j: nat, k: nat)
    requires Ready(Type(keys)) && j > 0 && k > 0
    ensures var f, t := Type(keys), Type(keys + Presses(0x41, j) + Presses(0x42, k)).state;
            t.before == Kept(f.lines, Below(Least(j, Least(|f.lines|, 5) - 1), k - 1)) && t.after == []
  {
    hide Type, Arrow;
    PressesTyped(keys, UP, j);
    PressesTyped(keys + Presses(UP, j), DOWN, k);
    var f := Type(keys);
    HistoryIsRecent(keys);
    var at := Least(j, Least(|f.lines|, SHELL_HIST_MAX) - 1);
    KeptIs(keys, Below(at, k - 1));
    UpsRecall(f.state, j);
    DownsRecall(Arrows(f.state, UP, j), k);
  }

  /**
   * An empty line as the newest entry switches the history keys off, and nothing else does: a press
   * leaves the line alone if and only if the newest entry is empty or the line shown already is what
   * it would bring.
   */
  lemma {:induction false} EmptyBlocks(keys: seq<byte>, key: byte)
    requires Type(keys).state.stat == Normal && (key == 0x41 || key == 0x42)
    ensures var f, t := Type(keys), Type(keys + Presses(key, 1)).state;
            (t.before == f.state.before && t.after == f.state.after) <==>
            (f.lines == [] || f.lines[|f.lines| - 1] == []
             || (f.state.before == Kept(f.lines, f.state.current) && f.state.after == []))
  {
    hide Type;
    PressesTyped(keys, key, 1);
    var f := Type(keys);
    assert Arrows(f.state, key, 0) == f.state;
    HistoryIsRecent(keys);
    if f.lines != [] {
      KeptIs(keys, f.state.current);
    }
  }
}
