/** JSON_SearchConst and JSON_Iterate of core_json.c. */
module JsonSearch {
  import opened Bytes
  import opened JsonGrammar
  import opened JsonScan
  import opened JsonCollection

  /** A stretch of a buffer. */
  datatype Span = Span(start: nat, length: nat)

  datatype KeyValue = KeyValue(key: Span, value: Span, end: nat)

  datatype Kind = JSONString | JSONNumber | JSONTrue | JSONFalse | JSONNull | JSONObject | JSONArray

  datatype Found = Found(status: Status, value: Span, kind: Kind)

  /** A member given by JSON_Iterate; no key for an element of an array. */
  datatype Member = Member(key: Option<Span>, value: Span, kind: Kind)

  // ----- specification functions

  /** The end of the value at `i`, if one is there. */
  function ValueEnd(buf: seq<byte>, i: nat): (e: Option<nat>)
    requires i <= |buf|
    ensures e.Some? ==> i < e.value <= |buf|
  {
    if ScalarEnd(buf, i).Some? then ScalarEnd(buf, i)
    else if Run(buf, i, []).status == Success then Some(Run(buf, i, []).end)
    else None
  }

  function PairAt(buf: seq<byte>, i: nat): (r: Option<KeyValue>)
    requires i <= |buf|
    ensures r.Some? ==> i < r.value.end <= |buf| && r.value.key.start + r.value.key.length <= |buf|
    ensures r.Some? ==> r.value.value.start + r.value.value.length == r.value.end
    ensures r.Some? ==> i < r.value.key.start && i < r.value.value.start && r.value.value.length > 0
  {
    match StringEnd(buf, i)
    case None => None
    case Some(s) =>
      var c := SpaceEnd(buf, s);
      if c < |buf| && buf[c] == COLON then
        var x := SpaceEnd(buf, c + 1);
        match ValueEnd(buf, x)
        case None => None
        case Some(e) => Some(KeyValue(Span(i + 1, s - i - 2), Span(x, e - x), e))
      else None
  }

  /** The value of the first pair from `i` on whose key is `name`. */
  function FindPair(buf: seq<byte>, i: nat, name: seq<byte>): (r: Option<Span>)
    requires i <= |buf|
    ensures r.Some? ==> 0 < r.value.start && r.value.start + r.value.length <= |buf|
    decreases |buf| - i
  {
    match PairAt(buf, i)
    case None => None
    case Some(kv) =>
      if buf[kv.key.start..kv.key.start + kv.key.length] == name then Some(kv.value)
      else
        var (p, comma) := CommaEnd(buf, kv.end);
        if comma then FindPair(buf, p, name) else None
  }

  /** The value `n` elements on from `i`. */
  function FindElement(buf: seq<byte>, i: nat, n: nat): (r: Option<Span>)
    requires i <= |buf|
    ensures r.Some? ==> i <= r.value.start && r.value.start + r.value.length <= |buf|
    decreases |buf| - i
  {
    match ValueEnd(buf, i)
    case None => None
    case Some(e) =>
      if n == 0 then Some(Span(i, e - i))
      else
        var (p, comma) := CommaEnd(buf, e);
        if comma then FindElement(buf, p, n - 1) else None
  }

  function ObjectFind(buf: seq<byte>, name: seq<byte>): (r: Option<Span>)
    ensures r.Some? ==> r.value.start + r.value.length <= |buf|
  {
    var i := SpaceEnd(buf, 0);
    if i < |buf| && buf[i] == CURLY_OPEN then FindPair(buf, SpaceEnd(buf, i + 1), name) else None
  }

  function ArrayFind(buf: seq<byte>, n: nat): (r: Option<Span>)
    ensures r.Some? ==> r.value.start + r.value.length <= |buf|
  {
    var i := SpaceEnd(buf, 0);
    if i < |buf| && buf[i] == SQUARE_OPEN then FindElement(buf, SpaceEnd(buf, i + 1), n) else None
  }

  predicate EndsPart(b: byte) { b == DOT || b == SQUARE_OPEN }

  function PartEnd(query: seq<byte>, i: nat): (e: nat)
    requires i <= |query|
    ensures i <= e <= |query|
    decreases |query| - i
  {
    if i < |query| && !EndsPart(query[i]) then PartEnd(query, i + 1) else i
  }

  function DotEnd(query: seq<byte>, i: nat): nat {
    if i < |query| && query[i] == DOT then i + 1 else i
  }

  /** The index written at `i`, -1 when there is none or it is too large. */
  function IndexAt(query: seq<byte>, i: nat): int
    requires i <= |query|
  {
    var j := DigitsEnd(query, i);
    DigitsAre(query, i);
    if j > i then IndexOf(query[i..j]) else -1
  }

  /** Follow the query from `i` on, from the value at `at`. */
  function Follow(buf: seq<byte>, at: Span, query: seq<byte>, i: nat): (r: (Status, Span))
    requires at.start + at.length <= |buf| && i <= |query|
    ensures r.1.start + r.1.length <= |buf|
    ensures r.0 in {Success, NotFound, BadParameter}
    decreases |query| - i
  {
    var part := buf[at.start..at.start + at.length];
    if i == |query| then (Success, at)
    else if query[i] == SQUARE_OPEN then
      var j := DigitsEnd(query, i + 1);
      var n := IndexAt(query, i + 1);
      if n < 0 || j >= |query| || query[j] != SQUARE_CLOSE then (BadParameter, at)
      else
        match ArrayFind(part, n)
        case None => (NotFound, at)
        case Some(s) => Follow(buf, Span(at.start + s.start, s.length), query, DotEnd(query, j + 1))
    else
      var j := PartEnd(query, i);
      if j == i || j == |query| - 1 then (BadParameter, at)
      else
        match ObjectFind(part, query[i..j])
        case None => (NotFound, at)
        case Some(s) => Follow(buf, Span(at.start + s.start, s.length), query, DotEnd(query, j))
  }

  function KindOf(c: byte): Kind {
    if c == QUOTE then JSONString
    else if c == CURLY_OPEN then JSONObject
    else if c == SQUARE_OPEN then JSONArray
    else if c == TRUE[0] then JSONTrue
    else if c == FALSE[0] then JSONFalse
    else if c == NULL[0] then JSONNull
    else JSONNumber
  }

  /** The span reported for a value: without the quotes when it is a string. */
  function Stripped(s: Span, kind: Kind): Span {
    if kind == JSONString && s.length >= 2 then Span(s.start + 1, s.length - 2) else s
  }

  /** What JSON_SearchConst gives; value and kind mean something on success only. */
  function SearchResult(buf: seq<byte>, query: seq<byte>): Found {
    if buf == [] || query == [] then Found(BadParameter, Span(0, 0), JSONNumber)
    else
      var (status, at) := Follow(buf, Span(0, |buf|), query, 0);
      if status != Success || at.start >= |buf| then Found(status, Span(0, 0), JSONNumber)
      else
        var kind := KindOf(buf[at.start]);
        Found(Success, Stripped(at, kind), kind)
  }

  /** One call of JSON_Iterate: status, the new start and next, and the member on success. */
  datatype Turn = Turn(status: Status, start: nat, next: nat, member: Option<Member>)

  function IterateResult(buf: seq<byte>, start: nat, next: nat): Turn {
    if buf == [] || start >= |buf| || next > |buf| then Turn(BadParameter, start, next, None)
    else
      var s := SpaceEnd(buf, start);
      var n := if next <= s then SpaceEnd(buf, s + 1) else next;
      if s >= |buf| || n > |buf| then Turn(NotFound, s, n, None)
      else if buf[s] == SQUARE_OPEN then
        match ValueEnd(buf, n)
        case None => Turn(NotFound, s, n, None)
        case Some(e) =>
          var kind := KindOf(buf[n]);
          Turn(Success, s, CommaEnd(buf, e).0, Some(Member(None, Stripped(Span(n, e - n), kind), kind)))
      else if buf[s] == CURLY_OPEN then
        match PairAt(buf, n)
        case None => Turn(NotFound, s, n, None)
        case Some(kv) =>
          var kind := KindOf(buf[kv.value.start]);
          Turn(Success, s, CommaEnd(buf, kv.end).0, Some(Member(Some(kv.key), Stripped(kv.value, kind), kind)))
      else Turn(IllegalDocument, s, n, None)
  }

  // ----- the code

  method NextValue(buf: seq<byte>, start: nat) returns (ok: bool, end: nat, value: Span)
    requires start <= |buf|
    ensures ok == ValueEnd(buf, start).Some? && end == EndOr(ValueEnd(buf, start), start)
    ensures ok ==> value == Span(start, end - start)
  {
    value := Span(start, 0);
    ok, end := SkipAnyScalar(buf, start);
    if !ok {
      var ret;
      ret, end := SkipCollection(buf, start);
      ok := ret == Success;
    }
    if ok {
      value := Span(start, end - start);
    }
  }

  method NextKeyValuePair(buf: seq<byte>, start: nat) returns (ok: bool, end: nat, key: Span, value: Span)
    requires start <= |buf|
    ensures ok == PairAt(buf, start).Some?
    ensures ok ==> PairAt(buf, start).value == KeyValue(key, value, end)
    ensures !ok ==> end == start
  {
    key, value, end := Span(0, 0), Span(0, 0), start;
    var i;
    ok, i := SkipString(buf, start);
    if ok {
      key := Span(start + 1, i - start - 2);
      i := SkipSpace(buf, i);
      if i < |buf| && buf[i] == COLON {
        i := i + 1;
        i := SkipSpace(buf, i);
      } else {
        ok := false;
      }
    }
    if ok {
      ok, i, value := NextValue(buf, i);
    }
    if ok {
      end := i;
    }
  }

  method ObjectSearch(buf: seq<byte>, query: seq<byte>) returns (r: Option<Span>)
    ensures r == ObjectFind(buf, query)
  {
    hide PairAt, SpaceEnd, CommaEnd;
    var i := SkipSpace(buf, 0);
    if i < |buf| && buf[i] == CURLY_OPEN {
      i := i + 1;
      i := SkipSpace(buf, i);
      ghost var first := i;
      while i < |buf|
        invariant first <= i <= |buf| && FindPair(buf, i, query) == FindPair(buf, first, query)
        decreases |buf| - i
      {
        var ok, end, key, value := NextKeyValuePair(buf, i);
        if !ok {
          return None;
        }
        if |query| == key.length {
          var same := StrnEq(query, buf[key.start..], key.length);
          assert buf[key.start..][..key.length] == buf[key.start..key.start + key.length];
          if same {
            return Some(value);
          }
        }
        var comma;
        comma, i := SkipSpaceAndComma(buf, end);
        if !comma {
          return None;
        }
      }
    }
    return None;
  }

  const UINT32_MAX: nat := 0xFFFF_FFFF

  method ArraySearch(buf: seq<byte>, queryIndex: nat) returns (r: Option<Span>)
    requires queryIndex <= UINT32_MAX
    ensures r == ArrayFind(buf, queryIndex)
  {
    hide ValueEnd, SpaceEnd, CommaEnd;
    var i := SkipSpace(buf, 0);
    if i < |buf| && buf[i] == SQUARE_OPEN {
      i := i + 1;
      i := SkipSpace(buf, i);
      ghost var first := i;
      var currentIndex := 0;
      while i < |buf|
        invariant first <= i <= |buf| && currentIndex <= queryIndex
        invariant FindElement(buf, i, queryIndex - currentIndex) == FindElement(buf, first, queryIndex)
        decreases |buf| - i
      {
        var ok, end, value := NextValue(buf, i);
        if !ok {
          return None;
        }
        if currentIndex == queryIndex {
          return Some(value);
        }
        var comma;
        comma, i := SkipSpaceAndComma(buf, end);
        if !comma || currentIndex == UINT32_MAX {
          return None;
        }
        currentIndex := currentIndex + 1;
      }
    }
    return None;
  }

  method SkipQueryPart(query: seq<byte>, start: nat) returns (ok: bool, end: nat)
    requires start <= |query|
    ensures end == PartEnd(query, start) && ok == (end > start)
  {
    end := start;
    while end < |query| && !EndsPart(query[end])
      invariant start <= end <= |query| && PartEnd(query, end) == PartEnd(query, start)
    {
      end := end + 1;
    }
    ok := end > start;
  }

  lemma {:induction false} IndexIs(query: seq<byte>, i: nat, ok: bool, j: nat, value: int32)
    requires i <= |query| && j == DigitsEnd(query, i) && ok == (j > i)
    requires AllDigits(query[i..j]) && value as int == IndexOf(query[i..j])
    ensures IndexAt(query, i) == if ok then value as int else -1
  {
    hide IndexOf, DigitsEnd;
  }

  function FollowFrom(buf: seq<byte>, at: Span, found: Option<Span>, query: seq<byte>, j: nat): (Status, Span)
    requires at.start + at.length <= |buf| && j <= |query|
    requires found.Some? ==> found.value.start + found.value.length <= at.length
  {
    match found
    case None => (NotFound, at)
    case Some(s) => Follow(buf, Span(at.start + s.start, s.length), query, DotEnd(query, j))
  }

  /** The definition of Follow, case by case, where the loop uses it. */
  lemma {:induction false} FollowStep(buf: seq<byte>, at: Span, query: seq<byte>, i: nat)
    requires at.start + at.length <= |buf| && i < |query|
    ensures query[i] == SQUARE_OPEN ==>
            var j, n := DigitsEnd(query, i + 1), IndexAt(query, i + 1);
            if n < 0 || j >= |query| || query[j] != SQUARE_CLOSE then Follow(buf, at, query, i) == (BadParameter, at)
            else Follow(buf, at, query, i) == FollowFrom(buf, at, ArrayFind(buf[at.start..at.start + at.length], n), query, j + 1)
    ensures query[i] != SQUARE_OPEN ==>
            var j := PartEnd(query, i);
            if j == i || j == |query| - 1 then Follow(buf, at, query, i) == (BadParameter, at)
            else Follow(buf, at, query, i) == FollowFrom(buf, at, ObjectFind(buf[at.start..at.start + at.length], query[i..j]), query, j)
  {
    hide ObjectFind, ArrayFind, DigitsEnd, PartEnd, IndexOf, IndexAt, AllDigits, EndsPart, IsDigit;
  }

  lemma {:induction false} FollowEnds(buf: seq<byte>, query: seq<byte>)
    ensures forall at: Span | at.start + at.length <= |buf| :: Follow(buf, at, query, |query|) == (Success, at)
  {
  }

  method MultiSearch(buf: seq<byte>, query: seq<byte>) returns (ret: Status, at: Span)
    requires buf != [] && query != []
    ensures (ret, at) == Follow(buf, Span(0, |buf|), query, 0)
  {
    hide ObjectFind, ArrayFind, DigitsEnd, PartEnd, IndexOf, IndexAt, AllDigits, EndsPart, IsDigit, Follow;
    FollowEnds(buf, query);
    ret := Success;
    at := Span(0, |buf|);
    var i := 0;
    while i < |query|
      invariant i <= |query| && at.start + at.length <= |buf|
      invariant ret == Success && Follow(buf, at, query, i) == Follow(buf, Span(0, |buf|), query, 0)
      decreases |query| - i
    {
      FollowStep(buf, at, query, i);
      var part := buf[at.start..at.start + at.length];
      var found;
      if query[i] == SQUARE_OPEN {
        var queryIndex: int32 := -1;
        var ok, j, value := SkipDigits(query, i + 1);
        if ok {
          queryIndex := value;
        }
        IndexIs(query, i + 1, ok, j, value);
        if queryIndex < 0 || j >= |query| || query[j] != SQUARE_CLOSE {
          ret := BadParameter;
          break;
        }
        i := j + 1;
        found := ArraySearch(part, queryIndex as nat);
      } else {
        var start := i;
        var ok, j := SkipQueryPart(query, i);
        if !ok || j == |query| - 1 {
          ret := BadParameter;
          break;
        }
        i := j;
        found := ObjectSearch(part, query[start..i]);
      }
      if found.None? {
        ret := NotFound;
        break;
      }
      at := Span(at.start + found.value.start, found.value.length);
      if i < |query| && query[i] == DOT {
        i := i + 1;
      }
    }
  }

  /** JSON_SearchConst; `None` is a null pointer. */
  method SearchConst(text: Option<seq<byte>>, queryText: Option<seq<byte>>) returns (r: Found)
    ensures text.None? || queryText.None? ==> r.status == NullParameter
    ensures text.Some? && queryText.Some? ==> r == SearchResult(text.value, queryText.value)
  {
    r := Found(NullParameter, Span(0, 0), JSONNumber);
    if text.Some? && queryText.Some? {
      var buf, query := text.value, queryText.value;
      if |buf| == 0 || |query| == 0 {
        return Found(BadParameter, Span(0, 0), JSONNumber);
      }
      var status, at := MultiSearch(buf, query);
      r := Found(status, Span(0, 0), JSONNumber);
      if status == Success && at.start < |buf| {
        var kind := KindOf(buf[at.start]);
        r := Found(Success, Stripped(at, kind), kind);
      }
    }
  }

  /** JSON_Iterate on non-null pointers; start and next are in-out parameters. */
  method Iterate(buf: seq<byte>, start: nat, next: nat) returns (r: Turn)
    ensures r == IterateResult(buf, start, next)
    ensures |buf| == 0 || start >= |buf| || next > |buf| ==> r == Turn(BadParameter, start, next, None)
  {
    hide ValueEnd, PairAt, SpaceEnd, CommaEnd, KindOf, Stripped;
    if |buf| == 0 || start >= |buf| || next > |buf| {
      return Turn(BadParameter, start, next, None);
    }
    var s := SkipSpace(buf, start);
    var n := next;
    if n <= s {
      n := s + 1;
      n := SkipSpace(buf, n);
    }
    r := Turn(NotFound, s, n, None);
    if s < |buf| && n <= |buf| {
      var key: Option<Span> := None;
      var found, end, value;
      if buf[s] == SQUARE_OPEN {
        found, end, value := NextValue(buf, n);
      } else if buf[s] == CURLY_OPEN {
        var k;
        found, end, k, value := NextKeyValuePair(buf, n);
        key := Some(k);
      } else {
        return Turn(IllegalDocument, s, n, None);
      }
      if found {
        var _, after := SkipSpaceAndComma(buf, end);
        var kind := KindOf(buf[value.start]);
        r := Turn(Success, s, after, Some(Member(key, Stripped(value, kind), kind)));
      }
    }
  }
}
