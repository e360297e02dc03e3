/** What the receiver takes the bytes on its line for. */
module YmodemBytes {
  import opened Bytes
  import opened Ymodem

  /** What the next packet is, and what is left on the line behind it. */
  function Met(buf: seq<byte>, input: seq<Delivery>): (Event, seq<Delivery>)
    requires |buf| == BUFFER_SIZE
  {
    OkMeansSound(buf, input);
    (EventOf(Receive(buf, input)), Receive(buf, input).input)
  }

  /** Nothing arrives, or a byte that begins no packet. */
  lemma {:induction false} FirstByte(buf: seq<byte>, b: byte, more: seq<Delivery>)
    requires |buf| == 1030
    ensures Met(buf, [Got([])] + more) == (Bad, more)
    ensures b == 0x04 ==> Met(buf, [Got([b])] + more) == (EndOfFile, more)
    ensures b == 0x41 || b == 0x61 ==> Met(buf, [Got([b])] + more) == (UserAborts, more)
    ensures b !in {0x01, 0x02, 0x04, 0x18, 0x41, 0x61} ==> Met(buf, [Got([b])] + more) == (Bad, more)
  {
    assert ([Got([b])] + more)[1..] == more && ([Got([])] + more)[1..] == more;
  }

  /** A CA cancels when another one follows it, or when the read for it fails; a silent line or any other byte does not. */
  lemma {:induction false} CancelBytes(buf: seq<byte>, second: Delivery, more: seq<Delivery>)
    requires |buf| == 1030
    ensures var cancels := second.Failed? || (second.bytes != [] && second.bytes[0] == 0x18);
            Met(buf, [Got([0x18]), second] + more) == (if cancels then SenderAborts else Bad, more)
  {
    var input := [Got([0x18]), second] + more;
    assert input[1..] == [second] + more && input[1..][1..] == more;
  }

  lemma {:induction false} StoredBody(buf: seq<byte>, s: seq<byte>, n: nat)
    requires |buf| == 1030 && |s| == n + 4 && n <= 1024
    ensures var now := Stored(buf, 2, s);
            && now[2] == s[0] && now[3] == s[1] && now[4..4 + n] == s[2..2 + n] && now[4 + n] == s[n + 2] && now[5 + n] == s[n + 3]
  {
    var now := Stored(buf, 2, s);
    assert forall k :: 0 <= k < |s| ==> now[2 + k] == s[k];
  }

  /** A byte 0x01 begins a packet of 128 bytes of data and 0x02 one of 1024; it is taken exactly when both its checks hold. */
  lemma {:induction false} BodyBytes(buf: seq<byte>, start: byte, body: seq<byte>, more: seq<Delivery>)
    requires |buf| == 1030 && ((start == 0x01 && |body| >= 132) || (start == 0x02 && |body| >= 1028))
    ensures var n := if start == 0x01 then 128 else 1024;
            Met(buf, [Got([start]), Got(body)] + more) ==
            (if body[0] as int + body[1] == 255 && Crc(body[2..2 + n]) == body[2 + n] as int * 256 + body[3 + n]
             then Data(body[0], body[2..2 + n]) else Bad, more)
  {
    hide Crc;
    var n := if start == 0x01 then 128 else 1024;
    var input := [Got([start]), Got(body)] + more;
    assert input[1..] == [Got(body)] + more && input[1..][1..] == more;
    var s := body[..n + 4];
    assert Take(body, n + 4) == s;
    StoredBody(buf[0 := start], s, n);
    assert s[2..2 + n] == body[2..2 + n] && s[n + 2] == body[n + 2] && s[n + 3] == body[n + 3];
  }
}
