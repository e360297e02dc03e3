/** WebSocket frames (section 5.2 of RFC 6455) as application/http_server/websocket.c reads and writes them. */
module WebSocketFrame {
  import opened Bytes
  import opened ByteBits

  // ----- masking

  /** Section 5.3 of RFC 6455: octet i is combined with octet i modulo 4 of the key. */
  function Masked(p: seq<byte>, key: seq<byte>): (r: seq<byte>)
    requires key == [] || |key| == 4
    ensures |r| == |p|
  {
    if key == [] then p else seq(|p|, i requires 0 <= i < |p| => XorByte(p[i], key[i % 4]))
  }

  /** Masking and unmasking are the same operation and undo each other. */
  lemma {:induction false} MaskedTwice(p: seq<byte>, key: seq<byte>)
    requires key == [] || |key| == 4
    ensures Masked(Masked(p, key), key) == p
  {
    hide XorByte;
    forall i | 0 <= i < |p|
      ensures Masked(Masked(p, key), key)[i] == p[i]
    {
      if key != [] {
        XorTwice(p[i], key[i % 4]);
      }
    }
  }

  /** Masking flips exactly the bits that are set in the octet of the key. */
  lemma {:induction false} MaskedBits(p: seq<byte>, key: seq<byte>, i: nat, k: nat)
    requires |key| == 4 && i < |p| && k < 8
    ensures BitOf(Masked(p, key)[i], k) <==> BitOf(p[i], k) != BitOf(key[i % 4], k)
  {
    hide XorByte, BitOf;
    XorByteBits(p[i], key[i % 4], k);
  }

  // ----- big-endian numbers

  function Pow256(k: nat): (p: nat)
    ensures p > 0
  {
    if k == 0 then 1 else 256 * Pow256(k - 1)
  }

  function Big(s: seq<byte>): nat {
    if s == [] then 0 else Big(s[..|s| - 1]) * 256 + s[|s| - 1]
  }

  function BigBytes(n: nat, k: nat): (s: seq<byte>)
    ensures |s| == k
    decreases k
  {
    if k == 0 then [] else BigBytes(n / 256, k - 1) + [n % 256]
  }

  lemma {:induction false} BigRoundTrip(n: nat, k: nat)
    requires n < Pow256(k)
    ensures Big(BigBytes(n, k)) == n
    decreases k
  {
    if k > 0 {
      BigRoundTrip(n / 256, k - 1);
      var s := BigBytes(n, k);
      assert s[..|s| - 1] == BigBytes(n / 256, k - 1);
    }
  }

  lemma {:induction false} BytesRoundTrip(s: seq<byte>)
    ensures BigBytes(Big(s), |s|) == s && Big(s) < Pow256(|s|)
    decreases |s|
  {
    if s != [] {
      var t, b := s[..|s| - 1], s[|s| - 1];
      BytesRoundTrip(t);
      assert (Big(t) * 256 + b) / 256 == Big(t) && (Big(t) * 256 + b) % 256 == b;
      assert t + [b] == s;
    }
  }

  lemma {:induction false} Powers()
    ensures Pow256(0) == 1 && Pow256(1) == 0x100 && Pow256(2) == 0x1_0000
    ensures Pow256(7) == 0x100_0000_0000_0000 && Pow256(8) == 0x1_0000_0000_0000_0000
  {
    assert Pow256(2) == 0x1_0000;
    assert Pow256(3) == 256 * Pow256(2);
    assert Pow256(4) == 256 * Pow256(3);
    assert Pow256(5) == 256 * Pow256(4);
    assert Pow256(6) == 256 * Pow256(5);
    assert Pow256(7) == 256 * Pow256(6);
    assert Pow256(8) == 256 * Pow256(7);
  }

  // ----- the shape of a frame, seen from its bytes

  function Code(b1: byte): int { b1 % 128 }
  function ExtLength(b1: byte): nat { if Code(b1) == 126 then 2 else if Code(b1) == 127 then 8 else 0 }
  function KeyLength(b1: byte): nat { if b1 >= 128 then 4 else 0 }
  function HeaderLength(b1: byte): nat { 2 + ExtLength(b1) + KeyLength(b1) }

  predicate HasHeader(b: seq<byte>) { |b| >= 2 && |b| >= HeaderLength(b[1]) }

  function PayloadLength(b: seq<byte>): nat
    requires HasHeader(b)
  {
    if ExtLength(b[1]) == 0 then Code(b[1]) else Big(b[2..2 + ExtLength(b[1])])
  }

  function FrameLength(b: seq<byte>): nat
    requires HasHeader(b)
  {
    HeaderLength(b[1]) + PayloadLength(b)
  }

  /** The buffer begins with a whole frame. */
  predicate Complete(b: seq<byte>) { HasHeader(b) && FrameLength(b) <= |b| }

  function Key(b: seq<byte>): (k: seq<byte>)
    requires HasHeader(b)
    ensures |k| == KeyLength(b[1])
  {
    b[2 + ExtLength(b[1])..HeaderLength(b[1])]
  }

  function Payload(b: seq<byte>): seq<byte>
    requires Complete(b)
  {
    Masked(b[HeaderLength(b[1])..FrameLength(b)], Key(b))
  }

  /** RFC 6455 wants the most significant bit of a 64-bit length clear. */
  predicate TopBitClear(b: seq<byte>) { |b| >= 10 && Code(b[1]) == 127 ==> b[2] < 128 }

  /** The 64-bit sum of header length and payload length does not wrap. */
  predicate SumFits(b: seq<byte>) { HasHeader(b) ==> FrameLength(b) < 0x1_0000_0000_0000_0000 }

  // ----- the parser

  /** ws_frame_t; the payload is where the header ends. */
  datatype FrameInfo = FrameInfo(fin: bool, opcode: byte, masked: bool, payloadLen: nat, mask: seq<byte>, headerLen: nat)

  function InfoOf(b: seq<byte>): FrameInfo
    requires HasHeader(b)
  {
    FrameInfo(b[0] >= 128, b[0] % 16, b[1] >= 128, PayloadLength(b), Key(b), HeaderLength(b[1]))
  }

  /** The buffer with the payload of its first frame unmasked. */
  function Unmasked(b: seq<byte>): (u: seq<byte>)
    requires Complete(b)
    ensures |u| == |b|
  {
    b[..HeaderLength(b[1])] + Payload(b) + b[FrameLength(b)..]
  }

  lemma {:induction false} BigStep(s: seq<byte>, i: nat, k: nat)
    requires i <= k < |s|
    ensures Big(s[i..k + 1]) == Big(s[i..k]) * 256 + s[k]
  {
    assert s[i..k + 1][..k - i] == s[i..k];
  }

  lemma {:induction false} BigTwo(s: seq<byte>)
    requires |s| >= 4
    ensures Big(s[2..4]) == s[2] as int * 256 + s[3]
  {
    BigStep(s, 2, 2);
    BigStep(s, 2, 3);
  }

  /** The three-way length decoding; -1 where the buffer is too short for it. */
  method ParseLength(buffer: array<byte>, len: nat) returns (headerLen: int, payloadLen: nat)
    requires 2 <= len <= buffer.Length
    ensures headerLen == -1 <==> len < 2 + ExtLength(buffer[1])
    ensures headerLen != -1 ==>
            && headerLen == 2 + ExtLength(buffer[1])
            && payloadLen == if ExtLength(buffer[1]) == 0 then Code(buffer[1]) else Big(buffer[2..headerLen])
  {
    payloadLen := buffer[1] % 128;
    headerLen := 2;
    if payloadLen == 126 {
      if len < 4 {
        return -1, payloadLen;
      }
      payloadLen := buffer[2] as int * 256 + buffer[3];
      BigTwo(buffer[..]);
      assert buffer[..][2..4] == buffer[2..4];
      headerLen := 4;
    } else if payloadLen == 127 {
      if len < 10 {
        return -1, payloadLen;
      }
      payloadLen := 0;
      var i := 0;
      while i < 8
        invariant 0 <= i <= 8 && payloadLen == Big(buffer[2..2 + i])
      {
        assert buffer[2..2 + (i + 1)][..i] == buffer[2..2 + i];
        payloadLen := payloadLen * 256 + buffer[2 + i];
        i := i + 1;
      }
      headerLen := 10;
    }
  }

  /** The loop has reached the i-th payload byte. */
  ghost predicate UnmaskedTo(was: seq<byte>, now: seq<byte>, start: nat, i: nat, mask: seq<byte>)
    requires |mask| == 4
  {
    && |now| == |was|
    && (forall k :: 0 <= k < |was| && !(start <= k < start + i) ==> now[k] == was[k])
    && (forall k :: start <= k < start + i && k < |was| ==> now[k] == XorByte(was[k], mask[(k - start) % 4]))
  }

  lemma {:induction false} NoneUnmasked(was: seq<byte>, start: nat, mask: seq<byte>)
    requires |mask| == 4
    ensures UnmaskedTo(was, was, start, 0, mask)
  {
  }

  lemma {:induction false} UnmaskOne(was: seq<byte>, now: seq<byte>, start: nat, i: nat, mask: seq<byte>)
    requires |mask| == 4 && UnmaskedTo(was, now, start, i, mask) && start + i < |was|
    ensures UnmaskedTo(was, now[start + i := XorByte(now[start + i], mask[i % 4])], start, i + 1, mask)
  {
    hide XorByte;
  }

  lemma {:induction false} Rejoin(was: seq<byte>, now: seq<byte>, i: nat, j: nat)
    requires i <= j <= |was| == |now| && forall k :: 0 <= k < i || j <= k < |was| ==> now[k] == was[k]
    ensures now == was[..i] + now[i..j] + was[j..]
  {
  }

  lemma {:induction false} AllUnmasked(was: seq<byte>, now: seq<byte>, start: nat, count: nat, mask: seq<byte>)
    requires |mask| == 4 && start + count <= |was| && UnmaskedTo(was, now, start, count, mask)
    ensures now == was[..start] + Masked(was[start..start + count], mask) + was[start + count..]
  {
    hide XorByte;
    var part := was[start..start + count];
    forall i | 0 <= i < count
      ensures now[start..start + count][i] == Masked(part, mask)[i]
    {
      var k := start + i;
      assert now[k] == XorByte(was[k], mask[(k - start) % 4]);
    }
    assert now[start..start + count] == Masked(part, mask);
    Rejoin(was, now, start, start + count);
  }

  /** payload[i] ^= mask[i % 4] */
  method Unmask(buffer: array<byte>, start: nat, count: nat, mask: seq<byte>)
    requires start + count <= buffer.Length && |mask| == 4
    modifies buffer
    ensures buffer[..] == old(buffer[..start] + Masked(buffer[start..start + count], mask) + buffer[start + count..])
  {
    hide XorByte, Masked, UnmaskedTo;
    ghost var was := buffer[..];
    NoneUnmasked(was, start, mask);
    var i := 0;
    while i < count
      invariant 0 <= i <= count && UnmaskedTo(was, buffer[..], start, i, mask)
    {
      ghost var now := buffer[..];
      UnmaskOne(was, now, start, i, mask);
      buffer[start + i] := XorByte(buffer[start + i], mask[i % 4]);
      assert buffer[..] == now[start + i := XorByte(now[start + i], mask[i % 4])];
      i := i + 1;
    }
    AllUnmasked(was, buffer[..], start, count, mask);
  }

  lemma {:induction false} Slices(a: array<byte>, len: nat, i: nat, j: nat)
    requires i <= j <= len <= a.Length
    ensures a[..len][i..j] == a[i..j]
  {
  }

  lemma {:induction false} HeaderParts(b: seq<byte>)
    requires |b| >= 2
    ensures HeaderLength(b[1]) == 2 + ExtLength(b[1]) + (if b[1] >= 128 then 4 else 0)
  {
  }

  /** Enough bytes for the length and the key is enough for the header. */
  lemma {:induction false} HeaderDone(b: seq<byte>)
    requires HasHeader(b)
    ensures PayloadLength(b) == if ExtLength(b[1]) == 0 then Code(b[1]) else Big(b[2..2 + ExtLength(b[1])])
    ensures FrameLength(b) == HeaderLength(b[1]) + PayloadLength(b)
    ensures Key(b) == if b[1] >= 128 then b[2 + ExtLength(b[1])..2 + ExtLength(b[1]) + 4] else []
  {
  }

  method ParseHeader(buffer: array<byte>, len: nat) returns (ok: bool, frame: FrameInfo)
    requires len <= buffer.Length
    ensures ok <==> HasHeader(buffer[..len])
    ensures ok ==> frame == InfoOf(buffer[..len])
  {
    hide Big, FrameLength, PayloadLength, ExtLength, KeyLength, Code;
    frame := FrameInfo(false, 0, false, 0, [], 0);
    ghost var b := buffer[..len];
    if len < 2 {
      return false, frame;
    }
    var headerLen, payloadLen := ParseLength(buffer, len);
    HeaderParts(b);
    if headerLen == -1 {
      return false, frame;
    }
    Slices(buffer, len, 2, headerLen);
    var masked := buffer[1] >= 128;
    var mask: seq<byte> := [];
    if masked {
      if len < headerLen + 4 {
        return false, frame;
      }
      mask := buffer[headerLen..headerLen + 4];
      headerLen := headerLen + 4;
    }
    Slices(buffer, len, headerLen - |mask|, headerLen);
    HeaderDone(b);
    return true, FrameInfo(buffer[0] >= 128, buffer[0] % 16, masked, payloadLen, mask, headerLen);
  }

  lemma {:induction false} KeyFour(b: seq<byte>)
    requires HasHeader(b)
    ensures |Key(b)| == if b[1] >= 128 then 4 else 0
  {
  }

  lemma {:induction false} InPlace(was: seq<byte>, now: seq<byte>, len: nat)
    requires len <= |was| && Complete(was[..len]) && was[1] >= 128
    requires var h, size, key := HeaderLength(was[1]), FrameLength(was[..len]), Key(was[..len]);
             now == was[..h] + Masked(was[h..size], key) + was[size..]
    ensures |now| == |was| && now[..len] == Unmasked(was[..len]) && now[len..] == was[len..]
  {
    hide Masked, ExtLength, KeyLength, Code, Big;
    var b := was[..len];
    var h, size := HeaderLength(was[1]), FrameLength(b);
    assert b[h..size] == was[h..size] && b[..h] == was[..h] && b[size..] == was[size..len];
    assert was[size..] == was[size..len] + was[len..];
  }

  lemma {:induction false} KeyNone(b: seq<byte>)
    requires Complete(b) && b[1] < 128
    ensures Payload(b) == b[HeaderLength(b[1])..FrameLength(b)]
  {
  }

  lemma {:induction false} NothingToUnmask(b: seq<byte>)
    requires Complete(b) && b[1] < 128
    ensures Unmasked(b) == b
  {
    hide ExtLength, Code, Big;
    KeyNone(b);
    var h, size := HeaderLength(b[1]), FrameLength(b);
    assert b == b[..h] + b[h..size] + b[size..];
  }

  /**
   * Accepts exactly the buffers that begin with a whole frame. One that does not is left as it is;
   * one that does gets its payload, and nothing else, unmasked in place.
   */
  method ParseFrame(buffer: array<byte>, len: nat) returns (size: int, frame: FrameInfo)
    requires len <= buffer.Length && SumFits(buffer[..len])
    modifies buffer
    ensures size == -1 <==> !Complete(old(buffer[..len]))
    ensures size == -1 ==> buffer[..] == old(buffer[..])
    ensures size != -1 ==>
            && size == FrameLength(old(buffer[..len])) && frame == InfoOf(old(buffer[..len]))
            && buffer[..len] == Unmasked(old(buffer[..len])) && buffer[len..] == old(buffer[len..])
  {
    hide Big, Masked, Unmasked, PayloadLength, ExtLength, KeyLength, Code, Key;
    ghost var b, was := buffer[..len], buffer[..];
    var ok;
    ok, frame := ParseHeader(buffer, len);
    if !ok {
      return -1, frame;
    }
    if len < (frame.headerLen + frame.payloadLen) % 0x1_0000_0000_0000_0000 {
      return -1, frame;
    }
    size := frame.headerLen + frame.payloadLen;
    if frame.masked {
      KeyFour(b);
      Unmask(buffer, frame.headerLen, frame.payloadLen, frame.mask);
      InPlace(was, buffer[..], len);
    } else {
      NothingToUnmask(b);
    }
  }

  /** A big-endian number is bounded by its first byte. */
  lemma {:induction false} BigBound(s: seq<byte>)
    requires s != []
    ensures Big(s) < (s[0] as int + 1) * Pow256(|s| - 1)
    decreases |s|
  {
    var t := s[..|s| - 1];
    if t != [] {
      BigBound(t);
      assert (s[0] as int + 1) * Pow256(|s| - 1) == 256 * ((s[0] as int + 1) * Pow256(|t| - 1));
    } else {
      assert Big(s) == Big([]) * 256 + s[0];
    }
  }

  /** With the top bit clear, as the RFC has it, the sum compared with the buffer length does not wrap. */
  lemma {:induction false} NoWrap(b: seq<byte>)
    requires TopBitClear(b)
    ensures SumFits(b)
  {
    hide Big, Pow256;
    if HasHeader(b) && ExtLength(b[1]) != 0 {
      var e := ExtLength(b[1]);
      var s := b[2..2 + e];
      BigBound(s);
      Powers();
      if e == 8 {
        assert (s[0] as int + 1) * 0x100_0000_0000_0000 <= 128 * 0x100_0000_0000_0000;
      }
    }
  }

  /** The test the parser makes with 64-bit arithmetic. */
  predicate TestPasses(b: seq<byte>)
    requires HasHeader(b)
  {
    (HeaderLength(b[1]) + PayloadLength(b)) % 0x1_0000_0000_0000_0000 <= |b|
  }

  lemma {:induction false} WrappedOnce(n: nat, h: nat)
    requires n < 0x1_0000_0000_0000_0000 && h <= 14
    ensures (h + n) % 0x1_0000_0000_0000_0000 ==
            if h + n < 0x1_0000_0000_0000_0000 then h + n else h + n - 0x1_0000_0000_0000_0000
  {
  }

  /**
   * Without it the test is right if and only if the sum does not wrap: every header whose sum does
   * wrap passes, and no buffer holds its frame.
   */
  lemma {:induction false} WrapExact(b: seq<byte>)
    requires HasHeader(b) && |b| < 0x1_0000_0000_0000_0000
    ensures (TestPasses(b) <==> Complete(b)) <==> SumFits(b)
    ensures !SumFits(b) ==> TestPasses(b) && !Complete(b)
  {
    hide Big, BigBytes, Pow256;
    var e := ExtLength(b[1]);
    if e != 0 {
      BytesRoundTrip(b[2..2 + e]);
      Powers();
    }
    assert PayloadLength(b) < 0x1_0000_0000_0000_0000;
    WrappedOnce(PayloadLength(b), HeaderLength(b[1]));
  }

  lemma {:induction false} AllOnes(s: seq<byte>, k: nat)
    requires |s| == k && forall i :: 0 <= i < k ==> s[i] == 255
    ensures Big(s) == Pow256(k) - 1
    decreases k
  {
    if k > 0 {
      AllOnes(s[..k - 1], k - 1);
    }
  }

  /** Such a header: a binary frame that announces 2^64 - 1 bytes. */
  lemma {:induction false} WrapHappens()
    ensures var b: seq<byte> := [0x82, 127, 255, 255, 255, 255, 255, 255, 255, 255];
            HasHeader(b) && TestPasses(b) && !Complete(b)
  {
    hide Big, Pow256;
    var b: seq<byte> := [0x82, 127, 255, 255, 255, 255, 255, 255, 255, 255];
    AllOnes(b[2..10], 8);
    Powers();
    WrapExact(b);
  }

  // ----- frames as section 5.2 of RFC 6455 lays them out

  /** How the payload length is written. */
  datatype Form = Short | Medium | Long

  datatype Frame = Frame(fin: bool, rsv: int, opcode: int, key: seq<byte>, payload: seq<byte>, form: Form)

  ghost predicate WfFrame(f: Frame) {
    && 0 <= f.rsv < 8 && 0 <= f.opcode < 16 && (f.key == [] || |f.key| == 4)
    && match f.form {
         case Short => |f.payload| < 126
         case Medium => |f.payload| < 0x1_0000
         case Long => |f.payload| < 0x8000_0000_0000_0000
       }
  }

  /** The shortest form for a length, which section 5.2 requires of senders. */
  function MinimalForm(n: nat): Form { if n < 126 then Short else if n < 0x1_0000 then Medium else Long }

  function LengthCode(f: Frame): (c: nat)
    requires WfFrame(f)
    ensures c < 128
  {
    match f.form
    case Short => |f.payload|
    case Medium => 126
    case Long => 127
  }

  function LengthBytes(f: Frame): seq<byte> {
    match f.form
    case Short => []
    case Medium => BigBytes(|f.payload|, 2)
    case Long => BigBytes(|f.payload|, 8)
  }

  function FirstByte(f: Frame): byte
    requires WfFrame(f)
  {
    (if f.fin then 128 else 0) + f.rsv * 16 + f.opcode
  }

  function SecondByte(f: Frame): byte
    requires WfFrame(f)
  {
    (if f.key == [] then 0 else 128) + LengthCode(f)
  }

  function WireHeader(f: Frame): seq<byte>
    requires WfFrame(f)
  {
    [FirstByte(f), SecondByte(f)] + LengthBytes(f) + f.key
  }

  /** A frame on the wire: header, key and masked payload. */
  function Wire(f: Frame): seq<byte>
    requires WfFrame(f)
  {
    WireHeader(f) + Masked(f.payload, f.key)
  }

  lemma {:induction false} HeaderBytes(f: Frame)
    requires WfFrame(f)
    ensures FirstByte(f) >= 128 <==> f.fin
    ensures FirstByte(f) % 16 == f.opcode
    ensures SecondByte(f) >= 128 <==> f.key != []
    ensures Code(SecondByte(f)) == LengthCode(f)
    ensures HeaderLength(SecondByte(f)) == |WireHeader(f)|
    ensures ExtLength(SecondByte(f)) == |LengthBytes(f)| && KeyLength(SecondByte(f)) == |f.key|
  {
    hide BigBytes;
    assert (f.rsv * 16 + f.opcode) % 16 == f.opcode;
  }

  lemma {:induction false} LengthRead(f: Frame)
    requires WfFrame(f)
    ensures |f.payload| == if LengthBytes(f) == [] then Code(SecondByte(f)) else Big(LengthBytes(f))
  {
    hide Pow256, BigBytes, Big;
    Powers();
    if f.form == Medium {
      BigRoundTrip(|f.payload|, 2);
    } else if f.form == Long {
      BigRoundTrip(|f.payload|, 8);
    }
  }

  /** A buffer that begins with the header of `f` is read as that header. */
  lemma {:induction false} HeaderRead(f: Frame, b: seq<byte>)
    requires WfFrame(f) && WireHeader(f) <= b
    ensures HasHeader(b) && HeaderLength(b[1]) == |WireHeader(f)| && FrameLength(b) == |Wire(f)|
    ensures InfoOf(b) == FrameInfo(f.fin, f.opcode, f.key != [], |f.payload|, f.key, |WireHeader(f)|)
  {
    hide BigBytes, Big, Masked, FirstByte, SecondByte, LengthCode, LengthBytes, Code, ExtLength, KeyLength;
    HeaderBytes(f);
    var h := WireHeader(f);
    assert b[0] == h[0] && b[1] == h[1];
    var e := |LengthBytes(f)|;
    assert h[2..2 + e] == LengthBytes(f) && h[2 + e..] == f.key;
    assert b[2..2 + e] == h[2..2 + e] && b[2 + e..|h|] == h[2 + e..|h|];
    LengthRead(f);
  }

  /** Parsing a frame followed by anything returns exactly its length, its header fields and its payload. */
  lemma {:induction false} WireParsed(f: Frame, rest: seq<byte>)
    requires WfFrame(f)
    ensures Complete(Wire(f) + rest) && FrameLength(Wire(f) + rest) == |Wire(f)|
    ensures InfoOf(Wire(f) + rest) == FrameInfo(f.fin, f.opcode, f.key != [], |f.payload|, f.key, |WireHeader(f)|)
    ensures Payload(Wire(f) + rest) == f.payload
    ensures Unmasked(Wire(f) + rest) == WireHeader(f) + f.payload + rest
  {
    hide WireHeader, Masked, FrameLength, HeaderLength, PayloadLength, HasHeader;
    var b := Wire(f) + rest;
    HeaderRead(f, b);
    var h := |WireHeader(f)|;
    assert b[h..|Wire(f)|] == Masked(f.payload, f.key);
    MaskedTwice(f.payload, f.key);
    assert b[..h] == WireHeader(f) && b[|Wire(f)|..] == rest;
  }

  lemma {:induction false} HeaderShort(b: seq<byte>, f: Frame)
    requires WfFrame(f) && b <= WireHeader(f) && |b| < |WireHeader(f)|
    ensures !HasHeader(b)
  {
    hide BigBytes, FirstByte, SecondByte, LengthCode, LengthBytes, Code, ExtLength, KeyLength;
    HeaderBytes(f);
    if |b| >= 2 {
      assert b[1] == WireHeader(f)[1];
    }
  }

  /** Every strict prefix of a frame is refused. */
  lemma {:induction false} PrefixRefused(f: Frame, k: nat)
    requires WfFrame(f) && k < |Wire(f)|
    ensures !Complete(Wire(f)[..k])
  {
    hide WireHeader, Masked, FrameLength, HeaderLength, PayloadLength, HasHeader;
    var b := Wire(f)[..k];
    if k < |WireHeader(f)| {
      assert b == WireHeader(f)[..k];
      HeaderShort(b, f);
    } else {
      assert WireHeader(f) == b[..|WireHeader(f)|];
      HeaderRead(f, b);
    }
  }

  /** The frame a complete buffer begins with. */
  function FrameOf(b: seq<byte>): Frame
    requires Complete(b)
  {
    Frame(b[0] >= 128, b[0] % 128 / 16, b[0] % 16, Key(b), Payload(b),
          if Code(b[1]) == 126 then Medium else if Code(b[1]) == 127 then Long else Short)
  }

  lemma {:induction false} LengthWritten(b: seq<byte>)
    requires Complete(b) && TopBitClear(b)
    ensures ExtLength(b[1]) == 0 ==> PayloadLength(b) < 126
    ensures ExtLength(b[1]) == 2 ==> PayloadLength(b) < 0x1_0000 && BigBytes(PayloadLength(b), 2) == b[2..4]
    ensures ExtLength(b[1]) == 8 ==>
            PayloadLength(b) < 0x8000_0000_0000_0000 && BigBytes(PayloadLength(b), 8) == b[2..10]
  {
    hide Big, BigBytes, Pow256;
    Powers();
    var e := ExtLength(b[1]);
    var s := b[2..2 + e];
    BytesRoundTrip(s);
    if e != 0 {
      BigBound(s);
      assert e == 8 ==> (s[0] as int + 1) * 0x100_0000_0000_0000 <= 128 * 0x100_0000_0000_0000;
    }
  }

  /** Nothing but frames is accepted: a complete buffer begins with the bytes of one. */
  lemma {:induction false} CompleteIsWire(b: seq<byte>)
    requires Complete(b) && TopBitClear(b)
    ensures WfFrame(FrameOf(b)) && Wire(FrameOf(b)) == b[..FrameLength(b)]
  {
    hide Masked, Big, BigBytes, Pow256;
    var f := FrameOf(b);
    var e := ExtLength(b[1]);
    var h := HeaderLength(b[1]);
    var s := b[2..2 + e];
    LengthWritten(b);
    assert WfFrame(f);
    assert FirstByte(f) == b[0] && SecondByte(f) == b[1];
    assert LengthBytes(f) == s;
    assert b[..2] == [b[0], b[1]];
    assert WireHeader(f) == b[..h] by {
      assert b[..h] == b[..2] + s + b[2 + e..h];
    }
    MaskedTwice(b[h..FrameLength(b)], Key(b));
    assert b[..FrameLength(b)] == b[..h] + b[h..FrameLength(b)];
  }

  // ----- the senders

  /** What a sender puts on the wire: one unmasked final frame with the shortest length form. */
  function Sent(opcode: int, data: seq<byte>): Frame { Frame(true, 0, opcode, [], data, MinimalForm(|data|)) }

  /** `n >> (8 * k)` */
  function ShiftBytes(n: nat, k: nat): nat
    decreases k
  {
    if k == 0 then n else ShiftBytes(n / 256, k - 1)
  }

  lemma {:induction false} BigBytesAt(n: nat, k: nat, i: nat)
    requires i < k
    ensures BigBytes(n, k)[i] == ShiftBytes(n, k - 1 - i) % 256
    decreases k
  {
    if i < k - 1 {
      BigBytesAt(n / 256, k - 1, i);
    }
  }

  lemma {:induction false} ShiftFew(n: nat)
    ensures ShiftBytes(n, 0) == n && ShiftBytes(n, 1) == n / 256
  {
    assert ShiftBytes(n, 1) == ShiftBytes(n / 256, 0);
  }

  /** The header of a payload of `len` bytes, filled into a local array as both senders do. */
  method BuildHeader(opcode: int, len: nat, ghost data: seq<byte>) returns (h: seq<byte>)
    requires 0 <= opcode < 16 && len == |data| < 0x8000_0000_0000_0000
    ensures h == WireHeader(Sent(opcode, data))
  {
    hide BigBytes, ShiftBytes;
    var header := new byte[10];
    header[0] := 0x80 + opcode;
    var headerLen;
    if len < 126 {
      header[1] := len;
      headerLen := 2;
    } else if len < 65536 {
      BigBytesAt(len, 2, 0);
      BigBytesAt(len, 2, 1);
      ShiftFew(len);
      header[1] := 126;
      header[2] := len / 256 % 256;
      header[3] := len % 256;
      headerLen := 4;
    } else {
      header[1] := 127;
      var i := 0;
      while i < 8
        invariant 0 <= i <= 8 && header[0] == 0x80 + opcode && header[1] == 127
        invariant forall k :: 0 <= k < i ==> header[2 + k] == BigBytes(len, 8)[k]
      {
        BigBytesAt(len, 8, i);
        header[2 + i] := ShiftBytes(len, 7 - i) % 256;
        i := i + 1;
      }
      headerLen := 10;
      assert header[2..10] == BigBytes(len, 8);
    }
    return header[..headerLen];
  }

  method SendTextFrame(text: seq<byte>) returns (out: seq<byte>)
    requires |text| < 0x8000_0000_0000_0000
    ensures out == Wire(Sent(1, text))
  {
    hide WireHeader;
    var header := BuildHeader(1, |text|, text);
    out := header + text;
  }

  /**
   * `results` are the values the socket's send returns for the data, at most the size asked for; a
   * call beyond them takes all it is given. A value that is not positive ends the transfer.
   */
  method SendBinaryFrame(data: seq<byte>, results: seq<int>) returns (out: seq<byte>)
    requires |data| < 0x8000_0000_0000_0000
    ensures out <= Wire(Sent(2, data)) && WireHeader(Sent(2, data)) <= out
    ensures (forall k :: 0 <= k < |results| ==> results[k] > 0) ==> out == Wire(Sent(2, data))
  {
    hide WireHeader;
    var header := BuildHeader(2, |data|, data);
    out := header;
    var remaining := |data|;
    var call := 0;
    while remaining > 0
      invariant 0 <= remaining <= |data| && 0 <= call
      invariant out == header + data[..|data| - remaining]
    {
      var chunk := if remaining > 1024 then 1024 else remaining;
      var sent := if call < |results| && results[call] < chunk then results[call] else chunk;
      if sent <= 0 {
        break;
      }
      var at := |data| - remaining;
      out := out + data[at..at + sent];
      assert data[..at + sent] == data[..at] + data[at..at + sent];
      remaining := remaining - sent;
      call := call + 1;
    }
  }

  /** Either sender's output, followed by anything, parses to its opcode and its data. */
  lemma {:induction false} SentParsed(opcode: int, data: seq<byte>, rest: seq<byte>)
    requires 0 <= opcode < 16 && |data| < 0x8000_0000_0000_0000
    ensures var b := Wire(Sent(opcode, data)) + rest;
            && Complete(b) && FrameLength(b) == |Wire(Sent(opcode, data))|
            && InfoOf(b).opcode == opcode && InfoOf(b).fin && Payload(b) == data
  {
    hide Wire, FrameLength, HasHeader;
    WireParsed(Sent(opcode, data), rest);
  }

  /** No other way of writing the length of the same payload gives a shorter header. */
  lemma {:induction false} SentIsMinimal(opcode: int, data: seq<byte>, form: Form)
    requires 0 <= opcode < 16 && WfFrame(Frame(true, 0, opcode, [], data, form))
    ensures WfFrame(Sent(opcode, data))
    ensures |WireHeader(Sent(opcode, data))| <= |WireHeader(Frame(true, 0, opcode, [], data, form))|
    ensures |WireHeader(Sent(opcode, data))| == |WireHeader(Frame(true, 0, opcode, [], data, form))| ==> form == MinimalForm(|data|)
  {
  }

  // ----- the examples of section 5.7 of RFC 6455

  lemma {:induction false} HelloUnmasked()
    ensures XorByte(0x7F, 0x37) == 0x48 && XorByte(0x9F, 0xFA) == 0x65 && XorByte(0x4D, 0x21) == 0x6C
    ensures XorByte(0x51, 0x3D) == 0x6C && XorByte(0x58, 0x37) == 0x6F
  {
  }

  /** The masked text frame "Hello", and the Pong of the same payload. */
  lemma {:induction false} MaskedExample(b0: byte)
    ensures var b: seq<byte> := [b0, 0x85, 0x37, 0xFA, 0x21, 0x3D, 0x7F, 0x9F, 0x4D, 0x51, 0x58];
            && Complete(b) && FrameLength(b) == 11 && Payload(b) == [0x48, 0x65, 0x6C, 0x6C, 0x6F]
            && InfoOf(b) == FrameInfo(b0 >= 0x80, b0 % 16, true, 5, [0x37, 0xFA, 0x21, 0x3D], 6)
  {
    hide XorByte;
    HelloUnmasked();
    var b: seq<byte> := [b0, 0x85, 0x37, 0xFA, 0x21, 0x3D, 0x7F, 0x9F, 0x4D, 0x51, 0x58];
    assert Key(b) == [0x37, 0xFA, 0x21, 0x3D];
    assert b[6..11] == [0x7F, 0x9F, 0x4D, 0x51, 0x58];
  }

  lemma {:induction false} BigExamples()
    ensures BigBytes(256, 2) == [1, 0] && BigBytes(0x1_0000, 8) == [0, 0, 0, 0, 0, 1, 0, 0]
  {
    assert BigBytes(0, 1) == [0] && BigBytes(0, 2) == [0, 0] && BigBytes(0, 3) == [0, 0, 0];
    assert BigBytes(0, 4) == [0, 0, 0, 0] && BigBytes(0, 5) == [0, 0, 0, 0, 0];
    assert BigBytes(1, 6) == BigBytes(0, 5) + [1];
    assert BigBytes(256, 7) == BigBytes(1, 6) + [0];
    assert BigBytes(1, 1) == [1];
  }

  /** Unmasked frames of 5, 256 and 65536 bytes, as the senders write them. */
  lemma {:induction false} SentExamples(data: seq<byte>)
    ensures |data| == 5 ==> Wire(Sent(1, data)) == [0x81, 0x05] + data
    ensures |data| == 256 ==> Wire(Sent(2, data)) == [0x82, 0x7E, 0x01, 0x00] + data
    ensures |data| == 0x1_0000 ==> Wire(Sent(2, data)) == [0x82, 0x7F, 0, 0, 0, 0, 0, 1, 0, 0] + data
  {
    BigExamples();
  }
}
