/**
 * The line editor and command history of application/io/shell.c.
 *
 * The reference editor is a pair of texts, before and after the cursor, with the list of the lines
 * entered; the class keeps a zero-terminated line, two positions and five rows as the C does, and
 * each of its methods is one step of the reference.
 */
module Shell {
  import opened Bytes

  const SHELL_BUFFER_SIZE := 64
  const SHELL_HIST_MAX := 5

  const CTRL_C := 0x03
  const CTRL_Q := 0x11
  const ESC := 0x1B
  const TAB := 0x09
  const BACKSPACE := 0x08
  const DEL := 0x7F
  const CR := 0x0D
  const LF := 0x0A
  const BRACKET := 0x5B
  const UP := 0x41
  const DOWN := 0x42
  const RIGHT := 0x43
  const LEFT := 0x44

  // ----- reference: text before and after the cursor, and the lines entered

  datatype Stat = Normal | Special | Function

  /** `hist` is newest first, empty where nothing has been entered yet. */
  datatype State = State(stat: Stat, before: seq<byte>, after: seq<byte>, hist: seq<seq<byte>>, current: nat, count: nat) {
    function Text(): seq<byte> { before + after }
  }

  datatype Outcome = Continue | Entered(text: seq<byte>) | Cancelled(key: byte)

  ghost predicate NonZero(s: seq<byte>) { forall k :: 0 <= k < |s| ==> s[k] != 0 }

  ghost predicate WfState(s: State) {
    && |s.Text()| < SHELL_BUFFER_SIZE && NonZero(s.before) && NonZero(s.after)
    && |s.hist| == SHELL_HIST_MAX && (forall t :: t in s.hist ==> |t| < SHELL_BUFFER_SIZE && NonZero(t))
    && s.count <= SHELL_HIST_MAX && (s.current == 0 || s.current < s.count)
  }

  function Recalled(s: State, pos: nat): State
    requires |s.hist| == SHELL_HIST_MAX
  {
    if s.hist[0] == [] then s.(current := 0)
    else s.(before := s.hist[if pos < SHELL_HIST_MAX then pos else SHELL_HIST_MAX - 1], after := [])
  }

  function MoveLeft(s: State): State {
    if s.before == [] then s
    else s.(before := s.before[..|s.before| - 1], after := [s.before[|s.before| - 1]] + s.after)
  }

  function MoveRight(s: State): State {
    if s.after == [] then s else s.(before := s.before + [s.after[0]], after := s.after[1..])
  }

  function Erase(s: State): State {
    if s.before == [] then s else s.(before := s.before[..|s.before| - 1])
  }

  function Insert(s: State, ch: byte): State { s.(before := s.before + [ch]) }

  function Push(s: State): State
    requires |s.hist| == SHELL_HIST_MAX
  {
    s.(before := [], after := [], current := 0, hist := [s.Text()] + s.hist[..SHELL_HIST_MAX - 1],
       count := if s.count < SHELL_HIST_MAX then s.count + 1 else s.count)
  }

  function Arrow(s: State, ch: byte): State
    requires |s.hist| == SHELL_HIST_MAX
  {
    if ch == UP then
      var t := Recalled(s, s.current);
      if t.current as int < t.count - 1 then t.(current := t.current + 1) else t
    else if ch == DOWN then
      var t := Recalled(s, s.current);
      if t.current > 0 then t.(current := t.current - 1) else t
    else if ch == LEFT then MoveLeft(s)
    else if ch == RIGHT then MoveRight(s)
    else s
  }

  function Plain(s: State, ch: byte): (State, Outcome)
    requires |s.hist| == SHELL_HIST_MAX
  {
    if ch == CR || ch == LF then (Push(s), Entered(s.Text())) else (Insert(s, ch), Continue)
  }

  function Step(s: State, ch: byte): (State, Outcome)
    requires |s.hist| == SHELL_HIST_MAX
  {
    if ch == CTRL_C || ch == CTRL_Q then
      (s.(before := [], after := [], current := 0), Cancelled(ch))
    else if ch == ESC then
      (s.(stat := Special), Continue)
    else if s.stat == Special then
      if ch == BRACKET then (s.(stat := Function), Continue) else Plain(s.(stat := Normal), ch)
    else if s.stat == Function then
      (Arrow(s.(stat := Normal), ch), Continue)
    else if ch == TAB then
      (s, Continue)
    else if ch == DEL || ch == BACKSPACE then
      (Erase(s), Continue)
    else
      Plain(s, ch)
  }

  /** The key would put a character into the line. */
  predicate Inserts(s: State, ch: byte) {
    && ch != CTRL_C && ch != CTRL_Q && ch != ESC && ch != CR && ch != LF
    && s.stat != Function
    && (s.stat == Special ==> ch != BRACKET)
    && (s.stat == Normal ==> ch != TAB && ch != DEL && ch != BACKSPACE)
  }

  /** No character arrives while the line holds 63, and no NUL at all. */
  predicate Fits(s: State, ch: byte) { Inserts(s, ch) ==> ch != 0 && |s.Text()| < SHELL_BUFFER_SIZE - 1 }

  lemma {:induction false} Removed(text: seq<byte>, c: nat)
    requires c < |text| && NonZero(text)
    ensures NonZero(text[..c] + text[c + 1..])
  {
    var u := text[..c] + text[c + 1..];
    forall k | 0 <= k < |u|
      ensures u[k] != 0
    {
      assert u[k] == if k < c then text[k] else text[k + 1];
    }
  }

  lemma {:induction false} Inserted(text: seq<byte>, c: nat, ch: byte)
    requires c <= |text| && ch != 0 && NonZero(text)
    ensures NonZero(text[..c] + [ch] + text[c..])
  {
    var u := text[..c] + [ch] + text[c..];
    forall k | 0 <= k < |u|
      ensures u[k] != 0
    {
      assert u[k] == if k < c then text[k] else if k == c then ch else text[k - 1];
    }
  }

  // ----- the editor

  lemma {:induction false} PlainOutcome(s: State, ch: byte)
    requires |s.hist| == SHELL_HIST_MAX
    ensures Plain(s, ch).1 == Continue <==> ch != CR && ch != LF
  {
  }

  datatype Result = Result(state: State, outcome: Outcome, used: nat)

  function Later(r: Result, n: nat): Result { r.(used := r.used + n) }

  lemma {:induction false} StepKeepsHistory(s: State, ch: byte)
    requires |s.hist| == SHELL_HIST_MAX
    ensures |Step(s, ch).0.hist| == SHELL_HIST_MAX
  {
  }

  /** The keys of one call. */
  function Call(s: State, keys: seq<byte>): Result
    requires |s.hist| == SHELL_HIST_MAX
    decreases |keys|
  {
    if keys == [] then
      Result(s, Continue, 0)
    else
      var (t, outcome) := Step(s, keys[0]);
      StepKeepsHistory(s, keys[0]);
      if outcome == Continue then Later(Call(t, keys[1..]), 1) else Result(t, outcome, 1)
  }

  predicate Typable(s: State, keys: seq<byte>)
    requires |s.hist| == SHELL_HIST_MAX
    decreases |keys|
  {
    if keys == [] then
      true
    else
      var (t, outcome) := Step(s, keys[0]);
      StepKeepsHistory(s, keys[0]);
      Fits(s, keys[0]) && (outcome == Continue ==> Typable(t, keys[1..]))
  }

  class Editor {
    const line: array<byte>
    const histBuf: array2<byte>
    var stat: Stat
    var lPos: byte
    var cPos: byte
    var histCurrent: nat
    var histCount: nat
    /** The lines that the rows of histBuf hold. */
    ghost var hist: seq<seq<byte>>

    ghost predicate RowIs(i: int, text: seq<byte>)
      reads histBuf
    {
      && 0 <= i < histBuf.Length0 && |text| < histBuf.Length1 && NonZero(text)
      && forall j :: 0 <= j < histBuf.Length1 ==> histBuf[i, j] == if j < |text| then text[j] else 0
    }

    ghost predicate RowsAre(rows: seq<seq<byte>>)
      reads histBuf
    {
      |rows| == histBuf.Length0 && forall i :: 0 <= i < |rows| ==> RowIs(i, rows[i])
    }

    ghost predicate HistValid()
      reads this, histBuf
    {
      && line.Length == SHELL_BUFFER_SIZE && histBuf.Length0 == SHELL_HIST_MAX && histBuf.Length1 == SHELL_BUFFER_SIZE
      && |hist| == SHELL_HIST_MAX && RowsAre(hist)
      && histCount <= SHELL_HIST_MAX && (histCurrent == 0 || histCurrent < histCount)
    }

    /** The line holds `text` and then zeros up to its end. */
    ghost predicate LineIs(text: seq<byte>)
      reads line
    {
      && |text| < line.Length && NonZero(text)
      && forall k :: 0 <= k < line.Length ==> line[k] == if k < |text| then text[k] else 0
    }

    ghost predicate Editing(before: seq<byte>, after: seq<byte>)
      reads this, line
    {
      && LineIs(before + after) && cPos as int == |before| && lPos as int == |before + after|
    }

    /** The editor is in state `s`, between the start and the end of a SHELL_recv call. */
    ghost predicate Is(s: State)
      reads this, line, histBuf
    {
      && HistValid() && Editing(s.before, s.after)
      && s.stat == stat && s.hist == hist && s.current == histCurrent && s.count == histCount
    }

    constructor ()
      ensures Is(State(Normal, [], [], seq(SHELL_HIST_MAX, _ => []), 0, 0))
    {
      line := new byte[SHELL_BUFFER_SIZE](_ => 0);
      histBuf := new byte[SHELL_HIST_MAX, SHELL_BUFFER_SIZE]((_, _) => 0);
      stat, lPos, cPos, histCurrent, histCount := Normal, 0, 0, 0, 0;
      hist := seq(SHELL_HIST_MAX, _ => []);
    }

    method RowLength(i: nat, ghost text: seq<byte>) returns (n: nat)
      requires RowIs(i, text)
      ensures n == |text|
    {
      n := 0;
      while histBuf[i, n] != 0
        invariant n <= |text|
        decreases |text| - n
      {
        n := n + 1;
      }
    }

    method LineLength(ghost text: seq<byte>) returns (n: nat)
      requires LineIs(text)
      ensures n == |text|
    {
      n := 0;
      while line[n] != 0
        invariant n <= |text|
        decreases |text| - n
      {
        n := n + 1;
      }
    }

    method CopyRow(dst: nat, src: nat, ghost rows: seq<seq<byte>>)
      requires RowsAre(rows) && src < |rows| && dst < |rows| && dst != src
      modifies histBuf
      ensures RowsAre(rows[dst := rows[src]])
    {
      forall j | 0 <= j < histBuf.Length1 {
        histBuf[dst, j] := 0;
      }
      var n := RowLength(src, rows[src]);
      forall j | 0 <= j < n {
        histBuf[dst, j] := histBuf[src, j];
      }
    }

    method StoreLine(ghost text: seq<byte>, ghost rows: seq<seq<byte>>)
      requires LineIs(text) && RowsAre(rows) && |rows| > 0 && histBuf.Length1 == line.Length
      modifies histBuf
      ensures RowsAre(rows[0 := text])
    {
      forall j | 0 <= j < histBuf.Length1 {
        histBuf[0, j] := 0;
      }
      var n := LineLength(text);
      forall j | 0 <= j < n {
        histBuf[0, j] := line[j];
      }
    }

    /** The rows move down by one and the line becomes the newest. */
    method InputCommand(ghost text: seq<byte>)
      requires HistValid() && LineIs(text)
      modifies this`hist, this`histCount, histBuf
      ensures HistValid() && LineIs(text) && hist == [text] + old(hist)[..SHELL_HIST_MAX - 1]
      ensures histCount == if old(histCount) < SHELL_HIST_MAX then old(histCount) + 1 else old(histCount)
    {
      hide RowsAre, LineIs;
      ghost var was, now := hist, hist;
      var i := SHELL_HIST_MAX - 1;
      while i > 0
        invariant 0 <= i < SHELL_HIST_MAX && hist == was && histCount == old(histCount) && LineIs(text)
        invariant |now| == SHELL_HIST_MAX && RowsAre(now)
        invariant now[..i + 1] == was[..i + 1] && now[i + 1..] == was[i..SHELL_HIST_MAX - 1]
      {
        CopyRow(i, i - 1, now);
        ghost var next := now[i := now[i - 1]];
        assert next[..i] == was[..i] && next[i..] == [was[i - 1]] + now[i + 1..] == was[i - 1..SHELL_HIST_MAX - 1];
        now := next;
        i := i - 1;
      }
      StoreLine(text, now);
      hist := now[0 := text];
      assert hist == [text] + now[1..];
      if histCount < SHELL_HIST_MAX {
        histCount := histCount + 1;
      }
    }

    method GetHistoryCommand(histPos: nat, ghost s: State)
      requires Is(s)
      modifies this`lPos, this`cPos, this`histCurrent, line
      ensures Is(Recalled(s, histPos))
    {
      hide NonZero;
      FirstEmpty();
      if histBuf[0, 0] == 0 {
        histCurrent := 0;
        return;
      }
      var pos := if histPos >= SHELL_HIST_MAX then SHELL_HIST_MAX - 1 else histPos;
      var tmp := LineLength(s.before + s.after);
      forall k | 0 <= k < tmp {
        line[k] := 0;
      }
      ghost var text := hist[pos];
      assert RowIs(pos, text);
      var n := RowLength(pos, text);
      lPos := n;
      cPos := lPos;
      forall k | 0 <= k < n {
        line[k] := histBuf[pos, k];
      }
      assert text + [] == text;
    }

    lemma {:induction false} FirstEmpty()
      requires HistValid()
      ensures histBuf[0, 0] == 0 <==> hist[0] == []
    {
      assert RowIs(0, hist[0]);
    }

    method EraseChar(ghost s: State)
      requires Is(s)
      modifies this`lPos, this`cPos, line
      ensures Is(Erase(s))
    {
      hide NonZero, RowIs, LineIs;
      if cPos == 0 {
        return;
      }
      lPos := lPos - 1;
      cPos := cPos - 1;
      RemoveAt(cPos as int, lPos as int, s.before + s.after);
      assert (s.before + s.after)[..cPos] == s.before[..|s.before| - 1] && (s.before + s.after)[cPos as int + 1..] == s.after;
    }

    /** The part of the line behind the erased character moves down, and a zero takes its end. */
    method RemoveAt(c: nat, last: nat, ghost text: seq<byte>)
      requires LineIs(text) && c <= last == |text| - 1
      modifies line
      ensures LineIs(text[..c] + text[c + 1..])
    {
      hide NonZero;
      if last > c {
        forall k | 0 <= k < last - c {
          line[c + k] := line[c + 1 + k];
        }
        line[last] := 0;
      } else {
        line[last] := 0;
      }
      Removed(text, c);
    }

    /** What a key that does not fit leaves: not the shape of any state. */
    ghost predicate Spoiled(s: State, ch: byte, was: seq<byte>)
      reads this, line, histBuf
      requires was != []
    {
      && HistValid() && stat == Normal && hist == s.hist && histCurrent == s.current && histCount == s.count
      && cPos as int == |s.before| + 1
      && if |s.Text()| < SHELL_BUFFER_SIZE - 1 then
           lPos as int == |s.Text()| + 1 && LineHolds(s.before + [ch] + s.after)
         else
           lPos == 1 && line[..] == was[0 := ch]
    }

    /** Insert the character at the cursor; with 63 in the line `lPos` has just been set back to 0. */
    method InsertChar(ch: byte, ghost s: State)
      requires s.stat == Normal && HistValid() && LineIs(s.Text())
      requires |s.Text()| < SHELL_BUFFER_SIZE && cPos as int == |s.before|
      requires lPos as int == if |s.Text()| < SHELL_BUFFER_SIZE - 1 then |s.Text()| else 0
      requires s.stat == stat && s.hist == hist && s.current == histCurrent && s.count == histCount
      modifies this`lPos, this`cPos, line
      ensures ch != 0 && |s.Text()| < SHELL_BUFFER_SIZE - 1 ==> Is(Insert(s, ch))
      ensures ch == 0 || |s.Text()| == SHELL_BUFFER_SIZE - 1 ==> Spoiled(s, ch, old(line[..]))
    {
      hide NonZero, RowIs, LineIs;
      ghost var text := s.before + s.after;
      assert text[..cPos] == s.before && text[cPos..] == s.after;
      InsertAt(cPos as int, lPos as int, ch, text);
      lPos := lPos + 1;
      cPos := cPos + 1;
    }

    ghost predicate LineHolds(text: seq<byte>)
      reads line
    {
      forall k :: 0 <= k < line.Length ==> line[k] == if k < |text| then text[k] else 0
    }

    /** The part of the line behind the cursor moves up to make room. */
    method InsertAt(c: nat, end: nat, ch: byte, ghost text: seq<byte>)
      requires LineIs(text) && c <= |text| && end == if |text| < line.Length - 1 then |text| else 0
      modifies line
      ensures |text| < line.Length - 1 ==> LineHolds(text[..c] + [ch] + text[c..])
      ensures |text| < line.Length - 1 && ch != 0 ==> LineIs(text[..c] + [ch] + text[c..])
      ensures |text| == line.Length - 1 ==> line[..] == old(line[..])[0 := ch]
    {
      hide NonZero;
      if c < end {
        forall k | 0 <= k < end - c {
          line[c + 1 + k] := line[c + k];
        }
        line[c] := ch;
      } else {
        line[end] := ch;
      }
      if ch != 0 {
        Inserted(text, c, ch);
      }
    }

    lemma {:induction false} LineShows(s: State)
      requires Is(s)
      ensures |line[..]| == SHELL_BUFFER_SIZE && |s.Text()| < SHELL_BUFFER_SIZE && NonZero(s.Text())
      ensures forall k :: 0 <= k < |s.Text()| ==> line[..][k] == s.Text()[k]
    {
      hide RowIs;
    }

    /** A NUL before `lPos`, or something else behind it, is no state's line. */
    lemma {:induction false} NoState(k: nat, t: State)
      requires k < line.Length && (line[k] == 0 <==> k < lPos as int)
      ensures !Is(t)
    {
      hide RowIs;
    }

    lemma {:induction false} SpoiledAt(s: State, ch: byte, was: seq<byte>) returns (k: nat)
      requires |was| == SHELL_BUFFER_SIZE && Spoiled(s, ch, was) && |s.Text()| < SHELL_BUFFER_SIZE
      requires NonZero(s.Text()) && forall k :: 0 <= k < |s.Text()| ==> was[k] == s.Text()[k]
      requires ch == 0 || |s.Text()| == SHELL_BUFFER_SIZE - 1
      ensures k < line.Length && (line[k] == 0 <==> k < lPos as int)
    {
      hide RowIs;
      if |s.Text()| < SHELL_BUFFER_SIZE - 1 {
        k := |s.before|;
        assert (s.before + [ch] + s.after)[k] == ch;
      } else {
        k := 1;
        assert line[..][1] == line[1];
      }
    }

    /** Between two calls: no cursor position, whatever the buffer still holds. */
    ghost predicate Idle(s: State)
      reads this, histBuf
    {
      && HistValid() && cPos == 0 && lPos == 0 && s.before == [] && s.after == []
      && s.stat == stat && s.hist == hist && s.current == histCurrent && s.count == histCount
    }

    method HandleArrow(ch: byte, ghost s: State)
      requires Is(s)
      modifies this`lPos, this`cPos, this`histCurrent, line
      ensures Is(Arrow(s, ch))
    {
      hide RowIs, LineIs, NonZero;
      if ch == UP {
        GetHistoryCommand(histCurrent, s);
        if histCurrent as int < histCount - 1 {
          histCurrent := histCurrent + 1;
        }
      } else if ch == DOWN {
        GetHistoryCommand(histCurrent, s);
        if histCurrent > 0 {
          histCurrent := histCurrent - 1;
        }
      } else if ch == LEFT {
        if cPos != 0 {
          cPos := cPos - 1;
          assert s.before[..|s.before| - 1] + ([s.before[|s.before| - 1]] + s.after) == s.before + s.after;
        }
      } else if ch == RIGHT {
        if cPos < lPos {
          cPos := cPos + 1;
          assert s.before + [s.after[0]] + s.after[1..] == s.before + s.after;
        }
      }
    }

    method HandlePlain(ch: byte, ghost s: State) returns (outcome: Outcome)
      requires Is(s) && s.stat == Normal
      modifies this, line, histBuf
      ensures outcome == Plain(s, ch).1
      ensures outcome != Continue ==> Idle(Plain(s, ch).0)
      ensures outcome == Continue && ch != 0 && |s.Text()| < SHELL_BUFFER_SIZE - 1 ==> Is(Plain(s, ch).0)
      ensures outcome == Continue && (ch == 0 || |s.Text()| == SHELL_BUFFER_SIZE - 1) ==> Spoiled(s, ch, old(line[..]))
    {
      hide RowIs, NonZero;
      if lPos as int >= SHELL_BUFFER_SIZE - 1 {
        lPos := 0;
      }
      if ch == CR || ch == LF {
        cPos, lPos := 0, 0;
        histCurrent := 0;
        ghost var text := s.before + s.after;
        InputCommand(text);
        var n := LineLength(text);
        assert line[..n] == text;
        return Entered(line[..n]);
      }
      InsertChar(ch, s);
      outcome := Continue;
    }

    /**
     * One key of SHELL_recv. A key that fits is one step of the reference; one that does not leaves
     * the editor in the shape of no state at all.
     */
    method HandleKey(ch: byte, ghost s: State) returns (outcome: Outcome)
      requires Is(s)
      modifies this, line, histBuf
      ensures outcome == Step(s, ch).1
      ensures outcome != Continue ==> Idle(Step(s, ch).0)
      ensures outcome == Continue && Fits(s, ch) ==> Is(Step(s, ch).0)
      ensures !Fits(s, ch) ==> outcome == Continue && Spoiled(s, ch, old(line[..])) && forall t :: !Is(t)
    {
      hide RowIs, LineIs, NonZero, Plain, Arrow, Erase;
      ghost var was := line[..];
      LineShows(s);
      outcome := Continue;
      if ch == CTRL_C || ch == CTRL_Q {
        cPos, lPos := 0, 0;
        histCurrent := 0;
        return Cancelled(ch);
      } else if ch == ESC {
        stat := Special;
        return;
      } else if stat == Special {
        if ch == BRACKET {
          stat := Function;
          return;
        }
        stat := Normal;
      } else if stat == Function {
        stat := Normal;
        HandleArrow(ch, s.(stat := Normal));
        return;
      } else if ch == TAB {
        return;
      } else if ch == DEL || ch == BACKSPACE {
        EraseChar(s);
        return;
      }
      outcome := HandlePlain(ch, s.(stat := Normal));
      PlainOutcome(s.(stat := Normal), ch);
      if !Fits(s, ch) {
        var k := SpoiledAt(s, ch, was);
        forall t: State ensures !Is(t) {
          NoState(k, t);
        }
      }
    }

    /**
     * SHELL_recv on the keys that arrive: it returns at the first Enter, Ctrl-C or Ctrl-Q, and
     * otherwise still waits when they are used up.
     */
    method Recv(keys: seq<byte>, ghost s: State) returns (outcome: Outcome, used: nat)
      requires Idle(s) && Typable(s, keys)
      modifies this, line, histBuf
      ensures (used, outcome) == (Call(s, keys).used, Call(s, keys).outcome)
      ensures if outcome == Continue then Is(Call(s, keys).state) else Idle(Call(s, keys).state)
    {
      hide RowIs, LineIs, NonZero, Step, Fits;
      ClearLine(s);
      outcome, used := Continue, 0;
      ghost var now := s;
      assert keys[0..] == keys;
      while used < |keys| && outcome == Continue
        invariant used <= |keys| && |now.hist| == SHELL_HIST_MAX
        invariant (outcome == Continue ==> Is(now) && Typable(now, keys[used..]))
        invariant outcome == Continue ==> Call(s, keys) == Later(Call(now, keys[used..]), used)
        invariant outcome != Continue ==> Idle(now) && Call(s, keys) == Result(now, outcome, used)
        decreases |keys| - used + (if outcome == Continue then 1 else 0)
      {
        assert keys[used..][0] == keys[used] && keys[used..][1..] == keys[used + 1..];
        StepKeepsHistory(now, keys[used]);
        outcome := HandleKey(keys[used], now);
        now := Step(now, keys[used]).0;
        used := used + 1;
      }
    }

    /** memset of the line at the start of a call. */
    method ClearLine(ghost s: State)
      requires Idle(s)
      modifies line
      ensures Is(s)
    {
      forall k | 0 <= k < line.Length {
        line[k] := 0;
      }
    }
  }
}
