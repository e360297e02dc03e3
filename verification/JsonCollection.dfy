/** The bracket-stack machine of core_json.c and JSON_Validate on top of it. */
module JsonCollection {
  import opened Bytes
  import opened JsonGrammar
  import opened JsonScan

  datatype Status =
    | Partial | Success | IllegalDocument | MaxDepthExceeded | NotFound | NullParameter | BadParameter

  /** A status and, on success, the index after what was recognised. */
  datatype Outcome = Outcome(status: Status, end: nat)

  const ILLEGAL := Outcome(IllegalDocument, 0)

  // ----- specification functions

  /** After a value: the index to go on from, and whether a comma that is not a trailing one was passed. */
  function CommaEnd(buf: seq<byte>, i: nat): (r: (nat, bool))
    ensures i <= r.0 && (i <= |buf| ==> r.0 <= |buf|)
    ensures r.1 ==> i < r.0 < |buf| && !IsSpace(buf[r.0]) && !IsClose(buf[r.0])
    ensures !r.1 ==> r.0 == SpaceEnd(buf, i)
  {
    var j := SpaceEnd(buf, i);
    if j < |buf| && buf[j] == COMMA then
      var k := SpaceEnd(buf, j + 1);
      if k < |buf| && !IsClose(buf[k]) then (k, true) else (j, false)
    else (j, false)
  }

  function ArrayScalarsEnd(buf: seq<byte>, i: nat): (e: nat)
    requires i <= |buf|
    ensures i <= e <= |buf|
    decreases |buf| - i
  {
    match ScalarEnd(buf, i)
    case None => i
    case Some(j) =>
      var (p, comma) := CommaEnd(buf, j);
      if comma then ArrayScalarsEnd(buf, p) else p
  }

  function ObjectScalarsEnd(buf: seq<byte>, i: nat): (e: Option<nat>)
    requires i <= |buf|
    ensures e.Some? ==> i <= e.value <= |buf|
    decreases |buf| - i
  {
    match StringEnd(buf, i)
    case None => None
    case Some(s) =>
      var c := SpaceEnd(buf, s);
      if c < |buf| && buf[c] != COLON then None
      else
        var v := SpaceEnd(buf, c + 1);
        if v < |buf| && IsOpen(buf[v]) then Some(v)
        else
          match ScalarEnd(buf, v)
          case None => None
          case Some(j) =>
            var (p, comma) := CommaEnd(buf, j);
            if comma then ObjectScalarsEnd(buf, p) else Some(p)
  }

  function ScalarsEnd(buf: seq<byte>, i: nat, mode: byte): (e: Option<nat>)
    requires i <= |buf|
    ensures e.Some? ==> i <= e.value <= |buf|
  {
    var j := SpaceEnd(buf, i);
    if j >= |buf| then Some(j)
    else if mode == SQUARE_OPEN then
      Some(if buf[j] != SQUARE_CLOSE then ArrayScalarsEnd(buf, j) else j)
    else
      if buf[j] != CURLY_CLOSE then ObjectScalarsEnd(buf, j) else Some(j)
  }

  /** The machine at the head of its loop, with the open brackets `st`. */
  function Run(buf: seq<byte>, i: nat, st: seq<byte>): (r: Outcome)
    requires i <= |buf|
    ensures r.status == Success ==> i < r.end <= |buf|
    ensures r.status in {Partial, Success, IllegalDocument, MaxDepthExceeded}
    decreases |buf| - i, 0
  {
    if i == |buf| then Outcome(Partial, 0)
    else if IsOpen(buf[i]) then
      if |st| >= MAX_DEPTH then Outcome(MaxDepthExceeded, 0) else Resume(buf, i + 1, st + [buf[i]])
    else if IsClose(buf[i]) && st != [] && IsMatching(st[|st| - 1], buf[i]) then
      Close(buf, i + 1, st[..|st| - 1])
    else ILLEGAL
  }

  /** A bracket has been opened, or a comma passed: scan the scalars that follow. */
  function Resume(buf: seq<byte>, i: nat, st: seq<byte>): (r: Outcome)
    requires i <= |buf| && st != []
    ensures r.status == Success ==> i < r.end <= |buf|
    ensures r.status in {Partial, Success, IllegalDocument, MaxDepthExceeded}
    decreases |buf| - i, 1
  {
    match ScalarsEnd(buf, i, st[|st| - 1])
    case None => ILLEGAL
    case Some(p) => Run(buf, p, st)
  }

  /** A collection has been closed, leaving the open brackets `st`. */
  function Close(buf: seq<byte>, i: nat, st: seq<byte>): (r: Outcome)
    requires 0 < i <= |buf|
    ensures r.status == Success ==> i <= r.end <= |buf|
    ensures r.status in {Partial, Success, IllegalDocument, MaxDepthExceeded}
    decreases |buf| - i, 3
  {
    if st == [] then Outcome(Success, i) else Continue(buf, i, st)
  }

  /** A value has ended inside the open brackets `st`. */
  function Continue(buf: seq<byte>, i: nat, st: seq<byte>): (r: Outcome)
    requires i <= |buf| && st != []
    ensures r.status == Success ==> i < r.end <= |buf|
    ensures r.status in {Partial, Success, IllegalDocument, MaxDepthExceeded}
    decreases |buf| - i, 2
  {
    var (p, comma) := CommaEnd(buf, i);
    if comma then Resume(buf, p, st) else Run(buf, p, st)
  }

  /** What JSON_Validate says of a text. */
  function Verdict(buf: seq<byte>): Status {
    if buf == [] then BadParameter
    else
      var i := SpaceEnd(buf, 0);
      var r := if ScalarEnd(buf, i).Some? then Outcome(Success, ScalarEnd(buf, i).value) else Run(buf, i, []);
      if r.status == Success && SpaceEnd(buf, r.end) != |buf| then IllegalDocument else r.status
  }

  // ----- the code

  method SkipSpaceAndComma(buf: seq<byte>, start: nat) returns (comma: bool, end: nat)
    ensures (end, comma) == CommaEnd(buf, start)
  {
    comma := false;
    end := SkipSpace(buf, start);
    var i := end;
    if i < |buf| && buf[i] == COMMA {
      i := i + 1;
      i := SkipSpace(buf, i);
      if i < |buf| && !IsClose(buf[i]) {
        comma := true;
        end := i;
      }
    }
  }

  method SkipArrayScalars(buf: seq<byte>, start: nat) returns (end: nat)
    requires start <= |buf|
    ensures end == ArrayScalarsEnd(buf, start)
  {
    end := start;
    while end < |buf|
      invariant start <= end <= |buf| && ArrayScalarsEnd(buf, end) == ArrayScalarsEnd(buf, start)
    {
      var ok, i := SkipAnyScalar(buf, end);
      if !ok {
        return;
      }
      var comma;
      comma, end := SkipSpaceAndComma(buf, i);
      if !comma {
        return;
      }
    }
  }

  method SkipObjectScalars(buf: seq<byte>, start: nat) returns (ok: bool, end: nat)
    requires start < |buf|
    ensures ok == ObjectScalarsEnd(buf, start).Some?
    ensures ok ==> end == ObjectScalarsEnd(buf, start).value
  {
    end := start;
    var i := start;
    while i < |buf|
      invariant start <= i < |buf| && ObjectScalarsEnd(buf, i) == ObjectScalarsEnd(buf, start)
    {
      var str, j := SkipString(buf, i);
      if !str {
        return false, end;
      }
      i := SkipSpace(buf, j);
      if i < |buf| && buf[i] != COLON {
        return false, end;
      }
      i := i + 1;
      i := SkipSpace(buf, i);
      if i < |buf| && IsOpen(buf[i]) {
        return true, i;
      }
      var scalar;
      scalar, i := SkipAnyScalar(buf, i);
      if !scalar {
        return false, end;
      }
      var comma;
      comma, i := SkipSpaceAndComma(buf, i);
      end := i;
      if !comma {
        return true, end;
      }
    }
    ok := true;
  }

  method SkipScalars(buf: seq<byte>, start: nat, mode: byte) returns (ok: bool, end: nat)
    requires start <= |buf| && IsOpen(mode)
    ensures ok == ScalarsEnd(buf, start, mode).Some?
    ensures ok ==> end == ScalarsEnd(buf, start, mode).value
  {
    ok := true;
    end := SkipSpace(buf, start);
    if end < |buf| {
      if mode == SQUARE_OPEN {
        if buf[end] != SQUARE_CLOSE {
          end := SkipArrayScalars(buf, end);
        }
      } else {
        if buf[end] != CURLY_CLOSE {
          ok, end := SkipObjectScalars(buf, end);
        }
      }
    }
  }

  method SkipCollection(buf: seq<byte>, start: nat) returns (ret: Status, end: nat)
    requires start <= |buf|
    ensures ret == Run(buf, start, []).status
    ensures end == if ret == Success then Run(buf, start, []).end else start
  {
    hide ScalarsEnd, CommaEnd;
    ret := Partial;
    end := start;
    var stack := new byte[MAX_DEPTH];
    var depth := -1;
    var i := start;
    while i < |buf|
      invariant start <= i <= |buf| && -1 <= depth < MAX_DEPTH
      invariant forall k | 0 <= k <= depth :: IsOpen(stack[k])
      invariant ret == Partial && Run(buf, i, stack[..depth + 1]) == Run(buf, start, [])
      decreases |buf| - i
    {
      ghost var st := stack[..depth + 1];
      var c := buf[i];
      i := i + 1;
      if IsOpen(c) {
        depth := depth + 1;
        if depth >= MAX_DEPTH {
          ret := MaxDepthExceeded;
          assert Run(buf, i - 1, st) == Outcome(MaxDepthExceeded, 0);
          break;
        }
        stack[depth] := c;
        assert stack[..depth + 1] == st + [c];
        assert Run(buf, i - 1, st) == Resume(buf, i, st + [c]);
        ghost var before := i;
        var ok;
        ok, i := SkipScalars(buf, i, stack[depth]);
        if !ok {
          ret := IllegalDocument;
          assert Resume(buf, before, st + [c]) == ILLEGAL;
          break;
        }
      } else if IsClose(c) {
        if depth > 0 && IsMatching(stack[depth], c) {
          depth := depth - 1;
          assert stack[..depth + 1] == st[..|st| - 1];
          assert Run(buf, i - 1, st) == Continue(buf, i, st[..|st| - 1]);
          var comma;
          comma, i := SkipSpaceAndComma(buf, i);
          if comma && IsOpen(stack[depth]) {
            ghost var before := i;
            var ok;
            ok, i := SkipScalars(buf, i, stack[depth]);
            if !ok {
              ret := IllegalDocument;
              assert Resume(buf, before, st[..|st| - 1]) == ILLEGAL;
              break;
            }
          }
        } else {
          assert Run(buf, i - 1, st) ==
                 if depth == 0 && IsMatching(stack[depth], c) then Close(buf, i, []) else ILLEGAL;
          ret := if depth == 0 && IsMatching(stack[depth], c) then Success else IllegalDocument;
          break;
        }
      } else {
        ret := IllegalDocument;
        assert Run(buf, i - 1, st) == ILLEGAL;
        break;
      }
    }
    if ret == Success {
      end := i;
    }
  }

  /** JSON_Validate; `None` is the null pointer. */
  method Validate(text: Option<seq<byte>>) returns (ret: Status)
    ensures ret == if text.None? then NullParameter else Verdict(text.value)
  {
    if text.None? {
      return NullParameter;
    }
    var buf := text.value;
    if |buf| == 0 {
      return BadParameter;
    }
    var i := SkipSpace(buf, 0);
    var scalar;
    scalar, i := SkipAnyScalar(buf, i);
    if scalar {
      ret := Success;
    } else {
      ret, i := SkipCollection(buf, i);
    }
    if ret == Success && i < |buf| {
      i := SkipSpace(buf, i);
      if i != |buf| {
        ret := IllegalDocument;
      }
    }
  }
}
