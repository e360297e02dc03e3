/**
 * Bytes, optional values and the "this text stands at this offset" relation used everywhere.
 *
 * A byte is an integer below 256; the modules that need its bits convert it with ByteBits.
 */
module Bytes {
  type byte = x: int | 0 <= x < 256

  datatype Option<+T> = None | Some(value: T)

  /** At most `n` bytes of `s`, from its front. */
  function Take(s: seq<byte>, n: nat): (r: seq<byte>)
    ensures |r| == if |s| <= n then |s| else n
  {
    if |s| <= n then s else s[..n]
  }

  /** The pieces one behind the other. */
  function Flat(pieces: seq<seq<byte>>): seq<byte> {
    if pieces == [] then [] else Flat(pieces[..|pieces| - 1]) + pieces[|pieces| - 1]
  }

  /** A number in decimal. */
  function DecimalDigits(n: nat): (s: seq<byte>)
    ensures s != []
  {
    if n < 10 then [48 + n] else DecimalDigits(n / 10) + [48 + n % 10]
  }

  /** `s` stands in `buf` at offset `i`. */
  ghost predicate At(buf: seq<byte>, i: int, s: seq<byte>) {
    0 <= i && i + |s| <= |buf| && buf[i..i + |s|] == s
  }

  lemma AtConcat(buf: seq<byte>, i: int, a: seq<byte>, b: seq<byte>)
    ensures At(buf, i, a + b) <==> At(buf, i, a) && At(buf, i + |a|, b)
  {
    if At(buf, i, a + b) {
      var s := buf[i..i + |a + b|];
      assert buf[i..i + |a|] == s[..|a|] == a;
      assert buf[i + |a|..i + |a| + |b|] == s[|a|..] == b;
    }
    if At(buf, i, a) && At(buf, i + |a|, b) {
      assert buf[i..i + |a + b|] == buf[i..i + |a|] + buf[i + |a|..i + |a| + |b|];
    }
  }

  lemma AtConcat4(buf: seq<byte>, i: int, a: seq<byte>, b: seq<byte>, c: seq<byte>, d: seq<byte>)
    ensures At(buf, i, a + b + c + d) <==>
            At(buf, i, a) && At(buf, i + |a|, b) && At(buf, i + |a| + |b|, c) && At(buf, i + |a| + |b| + |c|, d)
  {
    hide At;
    AtConcat(buf, i, a + b + c, d);
    AtConcat(buf, i, a + b, c);
    AtConcat(buf, i, a, b);
  }

  lemma Cut(buf: seq<byte>, i: nat, j: nat, e: nat)
    requires i <= j <= e <= |buf|
    ensures buf[i..e] == buf[i..j] + buf[j..e]
  {
  }

  lemma CutByte(buf: seq<byte>, i: nat)
    requires i < |buf|
    ensures buf[i..i + 1] == [buf[i]]
  {
  }

  lemma AtByte(buf: seq<byte>, i: int, s: seq<byte>, k: nat)
    requires At(buf, i, s) && k < |s|
    ensures 0 <= i + k < |buf| && buf[i + k] == s[k]
  {
    assert buf[i..i + |s|][k] == s[k];
  }
}
