/** Consistent-overhead byte stuffing, as in Middlewares/Third_Party/cobs/cobs.c. */
module Cobs {
  import opened Bytes

  newtype uint8 = x: int | 0 <= x < 0x100
  newtype uint16 = x: int | 0 <= x < 0x1_0000

  // ----- specification

  /**
   * The stuffed form of `blk + s`, where `blk` is what the open block already holds: each block
   * is a code byte, one more than the block's length, and the block.
   */
  function Stuff(blk: seq<byte>, s: seq<byte>): seq<byte>
    requires |blk| < 254
    decreases |s|
  {
    if s == [] then
      [|blk| + 1] + blk
    else if s[0] == 0 then
      [|blk| + 1] + blk + Stuff([], s[1..])
    else if |blk| == 253 then
      [255] + (blk + [s[0]]) + Stuff([], s[1..])
    else
      Stuff(blk + [s[0]], s[1..])
  }

  /** What cobs_encode writes. */
  function Encode(s: seq<byte>): seq<byte> { Stuff([], s) + [0] }

  /** What cobs_decode makes of its input; None where it returns early with 0. */
  function Decode(s: seq<byte>): Option<seq<byte>>
    decreases |s|
  {
    if s == [] then
      Some([])
    else if s[0] == 0 || s[0] > |s| then
      None
    else
      var data, rest := s[1..s[0]], s[s[0]..];
      if rest == [] then
        Some(data)
      else
        match Decode(rest)
        case None => None
        case Some(d) => Some(data + (if s[0] != 0xFF then [0] else []) + d)
  }

  ghost predicate ZeroFree(s: seq<byte>) { forall k :: 0 <= k < |s| ==> s[k] != 0 }

  // ----- main results

  lemma {:induction false} StuffNonEmpty(blk: seq<byte>, s: seq<byte>)
    requires |blk| < 254
    ensures |Stuff(blk, s)| > |blk|
    decreases |s|
  {
    if s != [] && s[0] != 0 && |blk| < 253 {
      StuffNonEmpty(blk + [s[0]], s[1..]);
    }
  }

  /** Taking one block off the front. */
  lemma {:induction false} DecodeBlock(data: seq<byte>, rest: seq<byte>)
    requires |data| <= 254
    ensures rest == [] ==> Decode([|data| + 1] + data) == Some(data)
    ensures rest != [] && Decode(rest).Some? ==>
            Decode([|data| + 1] + data + rest) == Some(data + (if |data| < 254 then [0] else []) + Decode(rest).value)
  {
    var one := [|data| + 1] + data;
    assert one[1..|data| + 1] == data && one[|data| + 1..] == [];
    var s := one + rest;
    assert s[1..|data| + 1] == data && s[|data| + 1..] == rest;
  }

  lemma {:induction false} Unstuff(blk: seq<byte>, s: seq<byte>)
    requires |blk| < 254
    ensures Decode(Stuff(blk, s)) == Some(blk + s)
    decreases |s|
  {
    hide Decode;
    if s == [] {
      DecodeBlock(blk, []);
      assert blk + s == blk;
    } else if s[0] == 0 {
      Unstuff([], s[1..]);
      StuffNonEmpty([], s[1..]);
      DecodeBlock(blk, Stuff([], s[1..]));
      assert blk + [0] + ([] + s[1..]) == blk + s;
    } else if |blk| == 253 {
      Unstuff([], s[1..]);
      StuffNonEmpty([], s[1..]);
      DecodeBlock(blk + [s[0]], Stuff([], s[1..]));
      assert blk + [s[0]] + [] + ([] + s[1..]) == blk + s;
    } else {
      Unstuff(blk + [s[0]], s[1..]);
      assert blk + [s[0]] + s[1..] == blk + s;
    }
  }

  /** Decoding what was encoded, without its delimiter, gives the input back. */
  lemma {:induction false} RoundTrip(s: seq<byte>)
    ensures Decode(Encode(s)[..|Encode(s)| - 1]) == Some(s)
  {
    hide Decode, Stuff;
    Unstuff([], s);
    assert Encode(s)[..|Encode(s)| - 1] == Stuff([], s) && [] + s == s;
  }

  lemma {:induction false} StuffZeroFree(blk: seq<byte>, s: seq<byte>)
    requires |blk| < 254 && ZeroFree(blk)
    ensures ZeroFree(Stuff(blk, s))
    decreases |s|
  {
    if s != [] {
      if s[0] == 0 || |blk| == 253 {
        StuffZeroFree([], s[1..]);
      } else {
        StuffZeroFree(blk + [s[0]], s[1..]);
      }
    }
  }

  /** The only zero byte of an encoding is its last one, so a receiver can cut a stream of them. */
  lemma {:induction false} OnlyDelimiter(s: seq<byte>, k: nat)
    requires k < |Encode(s)|
    ensures Encode(s)[k] == 0 <==> k == |Encode(s)| - 1
  {
    hide Stuff;
    StuffZeroFree([], s);
  }

  lemma {:induction false} StuffLength(blk: seq<byte>, s: seq<byte>)
    requires |blk| < 254
    ensures |Stuff(blk, s)| <= |blk| + |s| + 1 + (|blk| + |s|) / 254
    decreases |s|
  {
    if s != [] {
      if s[0] == 0 || |blk| == 253 {
        StuffLength([], s[1..]);
      } else {
        StuffLength(blk + [s[0]], s[1..]);
      }
    }
  }

  lemma {:induction false} StuffLeast(blk: seq<byte>, s: seq<byte>)
    requires |blk| < 254
    ensures |Stuff(blk, s)| >= |blk| + |s| + 1
    decreases |s|
  {
    if s != [] {
      if s[0] == 0 || |blk| == 253 {
        StuffLeast([], s[1..]);
      } else {
        StuffLeast(blk + [s[0]], s[1..]);
      }
    }
  }

  lemma {:induction false} LengthBound(s: seq<byte>)
    ensures |s| + 2 <= |Encode(s)| <= |s| + |s| / 254 + 2
  {
    hide Stuff;
    StuffLength([], s);
    StuffLeast([], s);
  }

  /** The bound is reached whenever no byte is zero. */
  lemma {:induction false} BoundReached(blk: seq<byte>, s: seq<byte>)
    requires |blk| < 254 && ZeroFree(s)
    ensures |Stuff(blk, s)| == |blk| + |s| + 1 + (|blk| + |s|) / 254
    decreases |s|
  {
    if s != [] {
      if |blk| == 253 {
        BoundReached([], s[1..]);
      } else {
        BoundReached(blk + [s[0]], s[1..]);
      }
    }
  }

  /** The decoder never produces more than it reads. */
  lemma {:induction false} DecodeShrinks(s: seq<byte>)
    ensures Decode(s).Some? ==> |Decode(s).value| <= |s| && (s != [] ==> |Decode(s).value| < |s|)
    decreases |s|
  {
    if s != [] && s[0] != 0 && s[0] <= |s| && s[s[0]..] != [] {
      DecodeShrinks(s[s[0]..]);
    }
  }

  // ----- cobs_encode

  /** `s` stands in the array from `at` on. */
  ghost predicate Holds(a: array<byte>, at: int, s: seq<byte>)
    reads a
  {
    0 <= at && at + |s| <= a.Length && forall k :: at <= k < at + |s| ==> a[k] == s[k - at]
  }

  lemma {:induction false} HoldsSlice(a: array<byte>, at: int, s: seq<byte>)
    requires Holds(a, at, s)
    ensures a[at..at + |s|] == s
  {
  }

  /** From `at` on the array is as it was. */
  ghost predicate Kept(a: array<byte>, at: int, was: seq<byte>)
    reads a
  {
    a.Length == |was| && forall k :: 0 <= at <= k < |was| ==> a[k] == was[k]
  }

  /** `output[write_index++] = b` */
  method Put(output: array<byte>, writeIndex: uint16, b: byte, ghost before: int, ghost done: seq<byte>,
             ghost out: seq<byte>, ghost was: seq<byte>)
    requires writeIndex as int < output.Length && Holds(output, 0, done) && |done| <= before
    requires Kept(output, writeIndex as int, was) && Holds(output, before, out) && before + |out| == writeIndex as int
    modifies output
    ensures Holds(output, 0, done) && Holds(output, before, out + [b])
    ensures Kept(output, writeIndex as int + 1, was)
    ensures forall k :: writeIndex as int < k < output.Length ==> output[k] == old(output[k])
  {
    output[writeIndex] := b;
  }

  /** `output[code_index] = code` */
  method Close(output: array<byte>, codeIndex: uint16, code: uint8, ghost done: seq<byte>, ghost blk: seq<byte>,
               ghost writeIndex: int, ghost was: seq<byte>)
    requires codeIndex as int < output.Length && |done| == codeIndex as int
    requires Holds(output, 0, done) && Holds(output, codeIndex as int + 1, blk)
    requires Kept(output, writeIndex, was) && codeIndex as int < writeIndex
    modifies output
    ensures Holds(output, 0, done + ([code as byte] + blk))
    ensures Kept(output, writeIndex, was)
  {
    output[codeIndex] := code as byte;
  }

  lemma {:induction false} HoldsNothing(a: array<byte>, at: nat)
    requires at <= a.Length
    ensures Holds(a, at, [])
  {
  }

  lemma {:induction false} KeptLater(a: array<byte>, i: int, j: int, was: seq<byte>)
    requires Kept(a, i, was) && 0 <= i <= j
    ensures Kept(a, j, was)
  {
  }

  lemma {:induction false} EncodeStart(output: array<byte>, s: seq<byte>)
    requires output.Length > 0
    ensures |Stuff([], s)| >= 1 && [] + Stuff([], s[0..]) == Stuff([], s)
    ensures Holds(output, 0, []) && Holds(output, 1, []) && Kept(output, 1, output[..])
  {
    hide Stuff;
    StuffNonEmpty([], s);
    assert s[0..] == s;
  }

  /** The definition of Stuff, for use where it is hidden. */
  lemma {:induction false} StuffStep(blk: seq<byte>, s: seq<byte>)
    requires |blk| < 254
    ensures s == [] ==> Stuff(blk, s) == [|blk| + 1] + blk
    ensures s != [] && s[0] == 0 ==> Stuff(blk, s) == [|blk| + 1] + blk + Stuff([], s[1..])
    ensures s != [] && s[0] != 0 && |blk| == 253 ==> Stuff(blk, s) == [255] + (blk + [s[0]]) + Stuff([], s[1..])
    ensures s != [] && s[0] != 0 && |blk| < 253 ==> Stuff(blk, s) == Stuff(blk + [s[0]], s[1..])
  {
  }

  /** What each turn of the loop does to the closed blocks, the open block and the input left. */
  lemma {:induction false} EncodeStep(done: seq<byte>, blk: seq<byte>, s: seq<byte>)
    requires |blk| < 254
    ensures s == [] ==> done + Stuff(blk, s) == done + ([|blk| + 1] + blk)
    ensures s != [] && s[0] == 0 ==>
            && done + Stuff(blk, s) == done + ([|blk| + 1] + blk) + Stuff([], s[1..])
            && |Stuff([], s[1..])| >= 1
    ensures s != [] && s[0] != 0 && |blk| == 253 ==>
            && done + Stuff(blk, s) == done + ([255] + (blk + [s[0]])) + Stuff([], s[1..])
            && |Stuff([], s[1..])| >= 1
    ensures s != [] && s[0] != 0 && |blk| < 253 ==>
            && done + Stuff(blk, s) == done + Stuff(blk + [s[0]], s[1..])
            && |Stuff(blk + [s[0]], s[1..])| >= |blk| + 2
  {
    hide Stuff;
    StuffStep(blk, s);
    if s != [] {
      var tail := Stuff([], s[1..]);
      StuffNonEmpty([], s[1..]);
      if s[0] == 0 {
        assert done + ([|blk| + 1] + blk + tail) == done + ([|blk| + 1] + blk) + tail;
      } else if |blk| == 253 {
        assert done + ([255] + (blk + [s[0]]) + tail) == done + ([255] + (blk + [s[0]])) + tail;
      } else {
        StuffNonEmpty(blk + [s[0]], s[1..]);
      }
    }
  }

  method CobsEncode(input: array<byte>, length: uint16, output: array<byte>) returns (n: uint16)
    requires input != output && length as int <= input.Length
    requires |Encode(input[..length])| < 0x1_0000 && |Encode(input[..length])| <= output.Length
    modifies output
    ensures n as int == |Encode(input[..length])| && output[..n] == Encode(input[..length])
    ensures Kept(output, n as int, old(output[..]))
  {
    hide Stuff, Holds, Kept;
    ghost var s, was := input[..length], output[..];
    ghost var total := Stuff([], s);
    ghost var done: seq<byte>, blk: seq<byte> := [], [];
    var readIndex: uint16 := 0;
    var writeIndex: uint16 := 1;
    var codeIndex: uint16 := 0;
    var code: uint8 := 1;
    EncodeStart(output, s);
    while readIndex < length
      invariant readIndex <= length
      invariant |done| == codeIndex as int && |blk| + 1 == code as int < 255
      invariant codeIndex as int + code as int == writeIndex as int <= |total|
      invariant Holds(output, 0, done) && Holds(output, codeIndex as int + 1, blk)
      invariant done + Stuff(blk, s[readIndex..]) == total
      invariant Kept(output, writeIndex as int, was)
    {
      EncodeStep(done, blk, s[readIndex..]);
      assert s[readIndex..][0] == input[readIndex] && s[readIndex..][1..] == s[readIndex + 1..];
      if input[readIndex] == 0 {
        Close(output, codeIndex, code, done, blk, writeIndex as int, was);
        done, blk := done + ([code as byte] + blk), [];
        codeIndex := writeIndex;
        writeIndex := writeIndex + 1;
        code := 1;
        KeptLater(output, codeIndex as int, writeIndex as int, was);
        HoldsNothing(output, writeIndex as int);
      } else {
        Put(output, writeIndex, input[readIndex], codeIndex as int + 1, done, blk, was);
        writeIndex := writeIndex + 1;
        code := code + 1;
        blk := blk + [input[readIndex]];
        if code == 0xFF {
          Close(output, codeIndex, code, done, blk, writeIndex as int, was);
          done, blk := done + ([code as byte] + blk), [];
          codeIndex := writeIndex;
          writeIndex := writeIndex + 1;
          code := 1;
          KeptLater(output, codeIndex as int, writeIndex as int, was);
          HoldsNothing(output, writeIndex as int);
        }
      }
      readIndex := readIndex + 1;
    }
    EncodeStep(done, blk, s[readIndex..]);
    Close(output, codeIndex, code, done, blk, writeIndex as int, was);
    HoldsNothing(output, 0);
    Put(output, writeIndex, 0, 0, [], total, was);
    writeIndex := writeIndex + 1;
    HoldsSlice(output, 0, total + [0]);
    return writeIndex;
  }

  // ----- cobs_decode

  /** Decoding `s` when `before` has been written already. */
  function Prefixed(before: seq<byte>, d: Option<seq<byte>>): Option<seq<byte>> {
    match d
    case None => None
    case Some(v) => Some(before + v)
  }

  lemma {:induction false} DecodeNothing()
    ensures Decode([]) == Some([])
  {
  }

  /** What taking the block at offset `i` does. */
  lemma {:induction false} DecodeStep(before: seq<byte>, s: seq<byte>, i: nat)
    requires i < |s|
    ensures s[i] == 0 || i + s[i] > |s| ==> Prefixed(before, Decode(s[i..])) == None
    ensures s[i] == 255 && i + s[i] <= |s| ==>
            Prefixed(before, Decode(s[i..])) == Prefixed(before + s[i + 1..i + s[i]], Decode(s[i + s[i]..]))
    ensures s[i] != 0 && i + s[i] == |s| ==>
            Prefixed(before, Decode(s[i..])) == Prefixed(before + s[i + 1..i + s[i]], Decode(s[i + s[i]..]))
    ensures 0 < s[i] < 255 && i + s[i] < |s| ==>
            Prefixed(before, Decode(s[i..])) == Prefixed(before + s[i + 1..i + s[i]] + [0], Decode(s[i + s[i]..]))
  {
    var t := s[i..];
    if t[0] != 0 && t[0] <= |t| {
      var data, rest := t[1..t[0]], t[t[0]..];
      var z: seq<byte> := if t[0] != 0xFF then [0] else [];
      assert data == s[i + 1..i + s[i]] && rest == s[i + s[i]..];
      if rest == [] {
        DecodeNothing();
        assert before + data + [] == before + data;
      } else if Decode(rest).Some? {
        var d := Decode(rest).value;
        assert before + (data + z + d) == before + data + z + d;
        assert before + data + [] == before + data;
      }
    }
  }

  /** The bytes of `input` from `at` on have not been overwritten. */
  ghost predicate Unread(input: array<byte>, at: int, s: seq<byte>)
    reads input
  {
    |s| <= input.Length && forall k :: 0 <= at <= k < |s| ==> input[k] == s[k]
  }

  lemma {:induction false} Snoc(before: seq<byte>, s: seq<byte>, i: nat, j: nat)
    requires i <= j < |s|
    ensures before + s[i..j] + [s[j]] == before + s[i..j + 1]
  {
  }

  /** The inner loop: the `code - 1` bytes of a block. */
  method CopyBlock(input: array<byte>, length: uint16, output: array<byte>, readIn: uint16, writeIn: uint16,
                   code: uint8, ghost s: seq<byte>, ghost out: seq<byte>, ghost was: seq<byte>)
    returns (readIndex: uint16, writeIndex: uint16)
    requires length as int == |s| <= input.Length && |s| <= output.Length
    requires writeIn < readIn && code > 0 && readIn as int + code as int - 1 <= |s|
    requires Unread(input, readIn as int, s) && Holds(output, 0, out) && |out| == writeIn as int
    requires Kept(output, writeIn as int, was)
    modifies output
    ensures readIndex as int == readIn as int + code as int - 1 && writeIndex as int == writeIn as int + code as int - 1
    ensures Unread(input, readIndex as int, s) && Holds(output, 0, out + s[readIn..readIndex])
    ensures Kept(output, writeIndex as int, was)
  {
    hide Holds, Kept;
    readIndex, writeIndex := readIn, writeIn;
    ghost var now := out;
    assert out + s[readIn..readIn] == out;
    var i: uint8 := 1;
    while i < code
      invariant 1 <= i <= code && readIndex as int == readIn as int + i as int - 1 <= |s|
      invariant writeIndex < readIndex && |now| == writeIndex as int == writeIn as int + i as int - 1
      invariant now == out + s[readIn..readIndex]
      invariant Unread(input, readIndex as int, s) && Holds(output, 0, now) && Kept(output, writeIndex as int, was)
    {
      Snoc(out, s, readIn as int, readIndex as int);
      HoldsNothing(output, 0);
      Put(output, writeIndex, input[readIndex], 0, [], now, was);
      now := now + [s[readIndex]];
      writeIndex := writeIndex + 1;
      readIndex := readIndex + 1;
      i := i + 1;
    }
  }

  lemma {:induction false} KeptAll(a: array<byte>)
    ensures Kept(a, 0, a[..])
  {
  }

  lemma {:induction false} PrefixedNothing(d: Option<seq<byte>>)
    ensures Prefixed([], d) == d
  {
    if d.Some? {
      assert [] + d.value == d.value;
    }
  }

  lemma {:induction false} PrefixedSome(out: seq<byte>)
    ensures Prefixed(out, Some([])) == Some(out)
  {
    assert out + [] == out;
  }

  /** Works in place too: the writer stays behind the reader. */
  method CobsDecode(input: array<byte>, length: uint16, output: array<byte>) returns (n: uint16)
    requires length as int <= input.Length && length as int <= output.Length
    modifies output
    ensures n as int <= output.Length
    ensures Decode(old(input[..length])) == None ==> n == 0
    ensures Decode(old(input[..length])).Some? ==>
            Some(output[..n]) == Decode(old(input[..length])) && Kept(output, n as int, old(output[..]))
  {
    hide Decode, Prefixed, Holds, Kept;
    ghost var s, was := input[..length], output[..];
    ghost var out: seq<byte> := [];
    var readIndex: uint16 := 0;
    var writeIndex: uint16 := 0;
    assert s[0..] == s;
    PrefixedNothing(Decode(s));
    DecodeNothing();
    HoldsNothing(output, 0);
    KeptAll(output);
    while readIndex < length
      invariant writeIndex <= readIndex <= length && |out| == writeIndex as int
      invariant Unread(input, readIndex as int, s)
      invariant Holds(output, 0, out)
      invariant Prefixed(out, Decode(s[readIndex..])) == Decode(s)
      invariant Kept(output, writeIndex as int, was)
    {
      ghost var start := readIndex as int;
      DecodeStep(out, s, start);
      var code := input[readIndex] as uint8;
      readIndex := readIndex + 1;
      if code == 0 || readIndex as int + code as int - 1 > length as int {
        return 0;
      }
      readIndex, writeIndex := CopyBlock(input, length, output, readIndex, writeIndex, code, s, out, was);
      out := out + s[start + 1..readIndex];
      if code != 0xFF && readIndex < length {
        HoldsNothing(output, 0);
        Put(output, writeIndex, 0, 0, [], out, was);
        out := out + [0];
        writeIndex := writeIndex + 1;
      }
    }
    assert s[readIndex..] == [];
    PrefixedSome(out);
    HoldsSlice(output, 0, out);
    return writeIndex;
  }
}
