/** What JSON_Validate means by a partial document. */
module JsonPartial {
  import opened Bytes
  import opened JsonGrammar
  import opened JsonScan
  import opened JsonCollection
  import Utf8

  /** Closing brackets, at least one. */
  ghost predicate Closes(c: seq<byte>) { c != [] && forall k | 0 <= k < |c| :: IsClose(c[k]) }

  // ----- closing brackets behind a text change no token of it

  lemma {:induction false} SpaceKept(buf: seq<byte>, c: seq<byte>, i: nat)
    requires Closes(c) && i <= |buf|
    ensures SpaceEnd(buf + c, i) == SpaceEnd(buf, i)
    decreases |buf| - i
  {
    if i < |buf| && IsSpace(buf[i]) {
      SpaceKept(buf, c, i + 1);
    } else if i == |buf| {
      assert (buf + c)[i] == c[0];
    }
  }

  lemma {:induction false} DigitsKept(buf: seq<byte>, c: seq<byte>, i: nat)
    requires Closes(c) && i <= |buf|
    ensures DigitsEnd(buf + c, i) == DigitsEnd(buf, i)
    decreases |buf| - i
  {
    if i < |buf| && IsDigit(buf[i]) {
      DigitsKept(buf, c, i + 1);
    } else if i == |buf| {
      assert (buf + c)[i] == c[0];
    }
  }

  lemma {:induction false} SliceKept(buf: seq<byte>, c: seq<byte>, i: nat, j: nat)
    requires i <= j <= |buf|
    ensures (buf + c)[i..j] == buf[i..j]
  {
  }

  /** A slice that reaches beyond the text holds a closing bracket. */
  lemma {:induction false} SliceBeyond(buf: seq<byte>, c: seq<byte>, i: nat, j: nat)
    requires Closes(c) && i <= |buf| < j <= |buf + c|
    ensures (buf + c)[i..j][|buf| - i] == c[0] && IsClose(c[0])
  {
  }

  lemma {:induction false} CodePointKept(buf: seq<byte>, c: seq<byte>, i: nat, n: nat)
    requires Closes(c) && i < |buf|
    ensures Utf8.CodePointAt(buf + c, i, n) == Utf8.CodePointAt(buf, i, n)
  {
    if i + n <= |buf| {
      SliceKept(buf, c, i, i + n);
    } else if i + n <= |buf + c| {
      SliceBeyond(buf, c, i, i + n);
    }
  }

  lemma {:induction false} OneHexCut(buf: seq<byte>, c: seq<byte>, i: nat)
    requires Closes(c) && i <= |buf| < i + 6
    ensures !OneHex(buf + c, i)
  {
    var all := buf + c;
    assert all[|buf|] == c[0];
    if i + 6 < |all| && i + 2 <= |buf| {
      SliceBeyond(buf, c, i + 2, i + 6);
    }
  }

  lemma {:induction false} OneHexKept(buf: seq<byte>, c: seq<byte>, i: nat)
    requires Closes(c) && i <= |buf|
    ensures OneHex(buf, i) ==> OneHex(buf + c, i) && (buf + c)[i + 2..i + 6] == buf[i + 2..i + 6]
    ensures OneHex(buf + c, i) && !OneHex(buf, i) ==> i + 6 == |buf|
  {
    if i + 6 <= |buf| {
      SliceKept(buf, c, i + 2, i + 6);
    } else {
      OneHexCut(buf, c, i);
    }
  }

  lemma {:induction false} OneHexFits(buf: seq<byte>, i: nat)
    ensures OneHex(buf, i) ==> i + 6 < |buf| && IsHex4(buf[i + 2..i + 6])
  {
  }

  lemma {:induction false} NoHexBeyond(buf: seq<byte>, c: seq<byte>)
    requires Closes(c)
    ensures !OneHex(buf + c, |buf|)
  {
    assert (buf + c)[|buf|] == c[0];
  }

  lemma {:induction false} HexKept(buf: seq<byte>, c: seq<byte>, i: nat)
    requires Closes(c) && i < |buf|
    ensures HexEnd(buf, i).Some? ==> HexEnd(buf + c, i) == HexEnd(buf, i)
    ensures HexEnd(buf, i).None? ==> HexEnd(buf + c, i).None? || HexEnd(buf + c, i).value == |buf|
  {
    hide OneHex, HexValue, IsHex4;
    OneHexKept(buf, c, i);
    if i + 6 <= |buf| {
      OneHexKept(buf, c, i + 6);
      if i + 6 == |buf| && OneHex(buf + c, i + 6) {
        NoHexBeyond(buf, c);
      }
    }
    OneHexFits(buf, i);
    OneHexFits(buf + c, i);
    OneHexFits(buf, i + 6);
    OneHexFits(buf + c, i + 6);
  }

  lemma {:induction false} UnitKept(buf: seq<byte>, c: seq<byte>, i: nat)
    requires Closes(c) && i < |buf|
    ensures UnitEnd(buf, i).Some? ==> UnitEnd(buf + c, i) == UnitEnd(buf, i)
    ensures UnitEnd(buf, i).None? ==> UnitEnd(buf + c, i).None? || UnitEnd(buf + c, i).value == |buf|
  {
    hide Utf8.CodePointAt, HexEnd;
    HexKept(buf, c, i);
    CodePointKept(buf, c, i, 2);
    CodePointKept(buf, c, i, 3);
    CodePointKept(buf, c, i, 4);
    if i + 1 == |buf| {
      assert (buf + c)[i + 1] == c[0];
      if buf[i] == BACKSLASH && c[0] == LOWER_U {
        assert false;
      }
    }
  }

  lemma {:induction false} NoQuoteBeyond(buf: seq<byte>, c: seq<byte>, i: nat)
    requires Closes(c) && |buf| <= i
    ensures UnitsEnd(buf + c, i) == None
    decreases |buf + c| - i
  {
    if i < |buf + c| {
      assert (buf + c)[i] == c[i - |buf|];
      NoQuoteBeyond(buf, c, i + 1);
    }
  }

  lemma {:induction false} UnitsKept(buf: seq<byte>, c: seq<byte>, i: nat)
    requires Closes(c) && i <= |buf|
    ensures UnitsEnd(buf + c, i) == UnitsEnd(buf, i)
    decreases |buf| - i
  {
    hide UnitEnd;
    NoQuoteBeyond(buf, c, |buf|);
    if i < |buf| && buf[i] != QUOTE {
      UnitKept(buf, c, i);
      if UnitEnd(buf, i).Some? {
        UnitsKept(buf, c, UnitEnd(buf, i).value);
      }
    }
  }

  lemma {:induction false} StringKept(buf: seq<byte>, c: seq<byte>, i: nat)
    requires Closes(c) && i <= |buf|
    ensures StringEnd(buf + c, i) == StringEnd(buf, i)
  {
    hide UnitsEnd;
    if i == |buf| {
      assert (buf + c)[i] == c[0];
    } else if buf[i] == QUOTE {
      UnitsKept(buf, c, i + 1);
    }
  }

  lemma {:induction false} StartsKept(buf: seq<byte>, c: seq<byte>, i: nat, s: seq<byte>)
    requires Closes(c) && i <= |buf| && forall k | 0 <= k < |s| :: !IsClose(s[k])
    ensures StartsWith(buf + c, i, s) == StartsWith(buf, i, s)
  {
    if i + |s| <= |buf| {
      SliceKept(buf, c, i, i + |s|);
    } else if i + |s| <= |buf + c| {
      SliceBeyond(buf, c, i, i + |s|);
      assert (buf + c)[i..i + |s|][|buf| - i] != s[|buf| - i];
    }
  }

  lemma {:induction false} NoDigits(buf: seq<byte>)
    ensures DigitsEnd(buf, |buf|) == |buf|
  {
  }

  lemma {:induction false} DecimalsKept(buf: seq<byte>, c: seq<byte>, i: nat)
    requires Closes(c) && i <= |buf|
    ensures DecimalsEnd(buf + c, i) == DecimalsEnd(buf, i)
  {
    hide DigitsEnd;
    assert (buf + c)[|buf|] == c[0];
    if i < |buf| {
      DigitsKept(buf, c, i + 1);
    }
  }

  lemma {:induction false} ExponentKept(buf: seq<byte>, c: seq<byte>, i: nat)
    requires Closes(c) && i <= |buf|
    ensures ExponentEnd(buf + c, i) == ExponentEnd(buf, i)
  {
    hide DigitsEnd;
    assert (buf + c)[|buf|] == c[0];
    if i < |buf| {
      DigitsKept(buf, c, i + 1);
      if i + 2 <= |buf| {
        DigitsKept(buf, c, i + 2);
      }
    }
  }

  lemma {:induction false} NumberKept(buf: seq<byte>, c: seq<byte>, i: nat)
    requires Closes(c) && i <= |buf|
    ensures NumberEnd(buf + c, i) == NumberEnd(buf, i)
  {
    hide DigitsEnd, DecimalsEnd, ExponentEnd;
    var all := buf + c;
    assert all[|buf|] == c[0];
    var j := if i < |buf| && buf[i] == MINUS then i + 1 else i;
    DigitsKept(buf, c, j);
    if j < |buf| {
      var k := if buf[j] == ZERO then j + 1 else DigitsEnd(buf, j);
      DecimalsKept(buf, c, k);
      ExponentKept(buf, c, DecimalsEnd(buf, k));
    } else {
      NoDigits(buf);
    }
  }

  lemma {:induction false} ScalarKept(buf: seq<byte>, c: seq<byte>, i: nat)
    requires Closes(c) && i <= |buf|
    ensures ScalarEnd(buf + c, i) == ScalarEnd(buf, i)
  {
    hide StringEnd, NumberEnd, StartsWith;
    StringKept(buf, c, i);
    StartsKept(buf, c, i, TRUE);
    StartsKept(buf, c, i, FALSE);
    StartsKept(buf, c, i, NULL);
    NumberKept(buf, c, i);
  }

  lemma {:induction false} CommaKept(buf: seq<byte>, c: seq<byte>, i: nat)
    requires Closes(c) && i <= |buf|
    ensures CommaEnd(buf + c, i) == CommaEnd(buf, i)
  {
    hide SpaceEnd;
    var j := SpaceEnd(buf, i);
    SpaceKept(buf, c, i);
    assert (buf + c)[|buf|] == c[0];
    if j < |buf| {
      SpaceKept(buf, c, j + 1);
    }
  }

  lemma {:induction false} ArrayScalarsKept(buf: seq<byte>, c: seq<byte>, i: nat)
    requires Closes(c) && i <= |buf|
    ensures ArrayScalarsEnd(buf + c, i) == ArrayScalarsEnd(buf, i)
    decreases |buf| - i
  {
    hide ScalarEnd, CommaEnd;
    ScalarKept(buf, c, i);
    if ScalarEnd(buf, i).Some? {
      var j := ScalarEnd(buf, i).value;
      CommaKept(buf, c, j);
      if CommaEnd(buf, j).1 {
        ArrayScalarsKept(buf, c, CommaEnd(buf, j).0);
      }
    }
  }

  lemma {:induction false} NoScalarBeyond(buf: seq<byte>, i: nat)
    requires i >= |buf|
    ensures ScalarEnd(buf, i) == None
  {
  }

  lemma {:induction false} SpaceBeyond(buf: seq<byte>)
    ensures SpaceEnd(buf, |buf| + 1) == |buf| + 1
  {
  }

  lemma {:induction false} ObjectScalarsKept(buf: seq<byte>, c: seq<byte>, i: nat)
    requires Closes(c) && i <= |buf|
    ensures ObjectScalarsEnd(buf + c, i) == ObjectScalarsEnd(buf, i)
    decreases |buf| - i
  {
    hide ScalarEnd, CommaEnd, StringEnd, SpaceEnd;
    var all := buf + c;
    assert all[|buf|] == c[0];
    StringKept(buf, c, i);
    if StringEnd(buf, i).Some? {
      var s := StringEnd(buf, i).value;
      var q := SpaceEnd(buf, s);
      SpaceKept(buf, c, s);
      if q == |buf| {
        SpaceBeyond(buf);
        NoScalarBeyond(buf, |buf| + 1);
      } else if buf[q] == COLON {
        var v := SpaceEnd(buf, q + 1);
        SpaceKept(buf, c, q + 1);
        ScalarKept(buf, c, v);
        if ScalarEnd(buf, v).Some? {
          var j := ScalarEnd(buf, v).value;
          CommaKept(buf, c, j);
          if CommaEnd(buf, j).1 {
            ObjectScalarsKept(buf, c, CommaEnd(buf, j).0);
          }
        }
      }
    }
  }

  // ----- the machine on the text and on the text with brackets behind it

  ghost predicate AllOpen(st: seq<byte>) { forall k | 0 <= k < |st| :: IsOpen(st[k]) }

  function ResumeStack(buf: seq<byte>, i: nat, st: seq<byte>): (r: Option<seq<byte>>)
    requires i <= |buf| && st != []
    decreases |buf| - i, 1
  {
    match ScalarsEnd(buf, i, st[|st| - 1])
    case None => None
    case Some(p) => RunStack(buf, p, st)
  }

  function ContinueStack(buf: seq<byte>, i: nat, st: seq<byte>): (r: Option<seq<byte>>)
    requires i <= |buf| && st != []
    decreases |buf| - i, 2
  {
    var (p, comma) := CommaEnd(buf, i);
    if comma then ResumeStack(buf, p, st) else RunStack(buf, p, st)
  }

  /** The open brackets with which the machine meets the end of the text, if it does. */
  function RunStack(buf: seq<byte>, i: nat, st: seq<byte>): (r: Option<seq<byte>>)
    requires i <= |buf|
    decreases |buf| - i, 0
  {
    if i == |buf| then Some(st)
    else if IsOpen(buf[i]) then
      if |st| >= MAX_DEPTH then None else ResumeStack(buf, i + 1, st + [buf[i]])
    else if IsClose(buf[i]) && st != [] && IsMatching(st[|st| - 1], buf[i]) then
      (if |st| == 1 then None else ContinueStack(buf, i + 1, st[..|st| - 1]))
    else None
  }

  /** How the machine goes on with the brackets `c` behind the text. */
  ghost predicate Carries(buf: seq<byte>, c: seq<byte>, end: Option<seq<byte>>, short: Outcome, long: Outcome)
    requires Closes(c)
  {
    match end
    case None => long == short && short.status != Partial
    case Some(top) =>
      && short.status == Partial && AllOpen(top)
      && (if top != [] && IsMatching(top[|top| - 1], c[0]) then long == Run(buf + c, |buf|, top) else long == ILLEGAL)
  }

  lemma {:induction false} RunStackEnd(buf: seq<byte>, i: nat, st: seq<byte>)
    requires i == |buf|
    ensures RunStack(buf, i, st) == Some(st)
  {
  }

  lemma {:induction false} Refused(buf: seq<byte>, c: seq<byte>)
    requires Closes(c)
    ensures Carries(buf, c, None, ILLEGAL, ILLEGAL)
  {
  }

  lemma {:induction false} ScalarsKept(buf: seq<byte>, c: seq<byte>, i: nat, mode: byte)
    requires Closes(c) && i <= |buf| && SpaceEnd(buf, i) < |buf|
    ensures ScalarsEnd(buf + c, i, mode) == ScalarsEnd(buf, i, mode)
  {
    hide ArrayScalarsEnd, ObjectScalarsEnd, SpaceEnd;
    SpaceKept(buf, c, i);
    ArrayScalarsKept(buf, c, SpaceEnd(buf, i));
    ObjectScalarsKept(buf, c, SpaceEnd(buf, i));
  }

  lemma {:induction false} NoStringAtEnd(buf: seq<byte>)
    ensures StringEnd(buf, |buf|) == None
  {
  }

  /** Nothing but white space is left: the machine meets the bracket that follows. */
  lemma {:induction false} AtTheEnd(buf: seq<byte>, c: seq<byte>, i: nat, st: seq<byte>)
    requires Closes(c) && i <= |buf| && SpaceEnd(buf, i) == |buf| && AllOpen(st) && st != []
    ensures ResumeStack(buf, i, st) == Some(st)
    ensures Carries(buf, c, Some(st), Resume(buf, i, st), Resume(buf + c, i, st))
  {
    hide SpaceEnd, ScalarEnd, StringEnd, CommaEnd;
    var all := buf + c;
    SpaceKept(buf, c, i);
    assert all[|buf|] == c[0] && IsOpen(st[|st| - 1]);
    ScalarKept(buf, c, |buf|);
    NoScalarBeyond(buf, |buf|);
    StringKept(buf, c, |buf|);
    NoStringAtEnd(buf);
    RunStackEnd(buf, |buf|, st);
  }

  lemma {:induction false} ResumeCarries(buf: seq<byte>, c: seq<byte>, i: nat, st: seq<byte>)
    requires Closes(c) && i <= |buf| && AllOpen(st) && st != []
    ensures Carries(buf, c, ResumeStack(buf, i, st), Resume(buf, i, st), Resume(buf + c, i, st))
    ensures ResumeStack(buf, i, st).Some? ==> ResumeStack(buf, i, st).value != []
    decreases |buf| - i, 1
  {
    hide ScalarsEnd, Run, Carries, AllOpen;
    var mode := st[|st| - 1];
    if SpaceEnd(buf, i) < |buf| {
      ScalarsKept(buf, c, i, mode);
      if ScalarsEnd(buf, i, mode).Some? {
        var p := ScalarsEnd(buf, i, mode).value;
        RunCarries(buf, c, p, st);
        if p == |buf| {
          RunStackEnd(buf, p, st);
        }
      } else {
        Refused(buf, c);
      }
    } else {
      AtTheEnd(buf, c, i, st);
    }
  }

  lemma {:induction false} ContinueCarries(buf: seq<byte>, c: seq<byte>, i: nat, st: seq<byte>)
    requires Closes(c) && i <= |buf| && AllOpen(st) && st != []
    ensures Carries(buf, c, ContinueStack(buf, i, st), Continue(buf, i, st), Continue(buf + c, i, st))
    ensures ContinueStack(buf, i, st).Some? ==> ContinueStack(buf, i, st).value != []
    decreases |buf| - i, 2
  {
    hide CommaEnd, Run, Resume, Carries, AllOpen;
    CommaKept(buf, c, i);
    var (p, comma) := CommaEnd(buf, i);
    if comma {
      ResumeCarries(buf, c, p, st);
    } else {
      RunCarries(buf, c, p, st);
      if p == |buf| {
        RunStackEnd(buf, p, st);
      }
    }
  }

  lemma {:induction false} RunCarries(buf: seq<byte>, c: seq<byte>, i: nat, st: seq<byte>)
    requires Closes(c) && i <= |buf| && AllOpen(st)
    ensures Carries(buf, c, RunStack(buf, i, st), Run(buf, i, st), Run(buf + c, i, st))
    ensures i < |buf| && RunStack(buf, i, st).Some? ==> RunStack(buf, i, st).value != []
    decreases |buf| - i, 0
  {
    hide ScalarsEnd, CommaEnd;
    assert (buf + c)[|buf|] == c[0];
    if i < |buf| {
      assert (buf + c)[i] == buf[i];
      if IsOpen(buf[i]) {
        if |st| < MAX_DEPTH {
          ResumeCarries(buf, c, i + 1, st + [buf[i]]);
        }
      } else if IsClose(buf[i]) && st != [] && IsMatching(st[|st| - 1], buf[i]) {
        if |st| > 1 {
          ContinueCarries(buf, c, i + 1, st[..|st| - 1]);
        }
      }
    }
  }

  // ----- the brackets that complete a text

  function Closers(st: seq<byte>): (c: seq<byte>)
    ensures |c| == |st|
    ensures forall k | 0 <= k < |c| :: IsClose(c[k])
  {
    if st == [] then [] else [CloseOf(st[|st| - 1])] + Closers(st[..|st| - 1])
  }

  lemma {:induction false} ClosersRun(all: seq<byte>, i: nat, st: seq<byte>)
    requires i <= |all| && all[i..] == Closers(st) && st != [] && AllOpen(st)
    ensures Run(all, i, st) == Outcome(Success, |all|)
    decreases |st|
  {
    hide ScalarsEnd;
    var c := Closers(st);
    assert all[i] == all[i..][0] == c[0];
    var rest := st[..|st| - 1];
    assert all[i + 1..] == all[i..][1..] == Closers(rest);
    assert IsOpen(st[|st| - 1]) && IsMatching(st[|st| - 1], all[i]) && IsClose(all[i]);
    assert |all[i..]| == |st| && !IsOpen(all[i]);
    assert Run(all, i, st) == Close(all, i + 1, rest);
    if rest != [] {
      assert all[i + 1] == all[i + 1..][0] == Closers(rest)[0];
      assert IsClose(all[i + 1]);
      assert CommaEnd(all, i + 1) == (i + 1, false);
      ClosersRun(all, i + 1, rest);
      assert Close(all, i + 1, rest) == Continue(all, i + 1, rest) == Run(all, i + 1, rest);
    }
  }

  /** Closing brackets alone make an accepted text of it. */
  ghost predicate Completable(buf: seq<byte>) {
    exists c :: Closes(c) && Verdict(buf + c) == Success
  }

  lemma {:induction false} SpaceDone(buf: seq<byte>)
    ensures SpaceEnd(buf, |buf|) == |buf|
  {
  }

  lemma {:induction false} PartialCompletes(buf: seq<byte>) returns (c: seq<byte>)
    requires Verdict(buf) == Partial && SpaceEnd(buf, 0) < |buf|
    ensures Closes(c) && Verdict(buf + c) == Success
  {
    hide ScalarEnd, Run, RunStack;
    var i := SpaceEnd(buf, 0);
    RunCarries(buf, [SQUARE_CLOSE], i, []);
    var top := RunStack(buf, i, []).value;
    c := Closers(top);
    RunCarries(buf, c, i, []);
    SpaceKept(buf, c, 0);
    ScalarKept(buf, c, i);
    assert (buf + c)[|buf|..] == c;
    ClosersRun(buf + c, |buf|, top);
    SpaceDone(buf + c);
  }

  lemma {:induction false} CompletedIsPartial(buf: seq<byte>, c: seq<byte>)
    requires buf != [] && Closes(c) && Verdict(buf + c) == Success
    ensures Verdict(buf) == Partial && SpaceEnd(buf, 0) < |buf|
  {
    hide ScalarEnd, Run, RunStack, SpaceEnd;
    var i := SpaceEnd(buf, 0);
    SpaceKept(buf, c, 0);
    ScalarKept(buf, c, i);
    RunCarries(buf, c, i, []);
    if i == |buf| {
      RunStackEnd(buf, i, []);
    }
    if ScalarEnd(buf, i).Some? {
      SpaceKept(buf, c, ScalarEnd(buf, i).value);
    } else if RunStack(buf, i, []).None? && Run(buf, i, []).status == Success {
      SpaceKept(buf, c, Run(buf, i, []).end);
    }
  }

  /** JSONPartial is the verdict exactly on white space alone and on what closing brackets alone complete. */
  lemma {:induction false} PartialExact(buf: seq<byte>)
    requires buf != []
    ensures Verdict(buf) == Partial <==> SpaceEnd(buf, 0) == |buf| || Completable(buf)
  {
    hide ScalarEnd, SpaceEnd;
    if Verdict(buf) == Partial && SpaceEnd(buf, 0) < |buf| {
      var c := PartialCompletes(buf);
    }
    if SpaceEnd(buf, 0) == |buf| {
      NoScalarBeyond(buf, |buf|);
    } else if c :| Closes(c) && Verdict(buf + c) == Success {
      CompletedIsPartial(buf, c);
    }
  }
}
