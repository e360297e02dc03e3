/** The YMODEM receiver of Middlewares/modem/ymodem.c. */
module Ymodem {
  import opened Bytes
  import opened ByteBits
  import Crc16

  const SOH := 0x01
  const STX := 0x02
  const EOT := 0x04
  const ACK := 0x06
  const NAK := 0x15
  const CA := 0x18
  const CRC16 := 0x43
  const ABORT1 := 0x41
  const ABORT2 := 0x61
  const MAX_ERRORS := 5

  const HAL_OK := 0
  const HAL_ERROR := 1
  const HAL_BUSY := 2
  const END_OF_FILE := 4
  const SENDER_ABORT := 5

  const PACKET_SIZE := 128
  const PACKET_1K_SIZE := 1024
  const PACKET_NUMBER_INDEX := 2
  const PACKET_CNUMBER_INDEX := 3
  const PACKET_DATA_INDEX := 4
  const PACKET_OVERHEAD_SIZE := 4
  const BUFFER_SIZE := 1030

  // ----- one packet

  /** The CRC the receiver computes over a packet's data. */
  function Crc(data: seq<byte>): (c: nat)
    ensures c < 0x1_0000
  {
    Crc16.Augmented(ToBits(data)) as nat
  }

  /**
   * What one debug_recv does: it stores bytes, none when it times out, or it fails with a negative
   * code, and then `junk` is what a byte nobody has written holds.
   */
  datatype Delivery = Got(bytes: seq<byte>) | Failed(junk: byte)

  /** The result is not 0, which is what the receiver tests. */
  predicate Taken(d: Delivery) { d.Failed? || d.bytes != [] }

  function Payload(d: Delivery): seq<byte> { if d.Got? then d.bytes else [] }

  function Limited(d: Delivery, n: nat): Delivery { if d.Got? then Got(Take(d.bytes, n)) else d }

  function Next(input: seq<Delivery>): Delivery { if input == [] then Got([]) else input[0] }

  function Rest(input: seq<Delivery>): seq<Delivery> { if input == [] then [] else input[1..] }

  /** The buffer with `s` stored from `at` on. */
  function Stored(buf: seq<byte>, at: nat, s: seq<byte>): (r: seq<byte>)
    requires at + |s| <= |buf|
    ensures |r| == |buf|
  {
    buf[..at] + s + buf[at + |s|..]
  }

  /** The number and its complement agree, and so do the data and the CRC behind them. */
  predicate Sound(buf: seq<byte>, size: nat)
    requires |buf| == BUFFER_SIZE && size <= PACKET_1K_SIZE
  {
    && buf[PACKET_NUMBER_INDEX] == 255 - buf[PACKET_CNUMBER_INDEX]
    && Crc(buf[PACKET_DATA_INDEX..PACKET_DATA_INDEX + size]) ==
       buf[PACKET_DATA_INDEX + size] as int * 256 + buf[PACKET_DATA_INDEX + size + 1]
  }

  datatype Received = Received(status: int, length: nat, buf: seq<byte>, input: seq<Delivery>)

  function ReceiveBody(buf: seq<byte>, size: nat, input: seq<Delivery>): (r: Received)
    requires |buf| == BUFFER_SIZE && (size == PACKET_SIZE || size == PACKET_1K_SIZE)
    ensures |r.buf| == BUFFER_SIZE
  {
    var body := Limited(Next(input), size + PACKET_OVERHEAD_SIZE);
    var now := Stored(buf, PACKET_NUMBER_INDEX, Payload(body));
    if Taken(body) && Sound(now, size) then Received(HAL_OK, size, now, Rest(input))
    else Received(HAL_ERROR, 0, now, Rest(input))
  }

  /** What ReceivePacket does to the packet buffer and the input. */
  function Receive(buf: seq<byte>, input: seq<Delivery>): (r: Received)
    requires |buf| == BUFFER_SIZE
    ensures |r.buf| == BUFFER_SIZE
  {
    var first := Next(input);
    var rest := Rest(input);
    if !Taken(first) then
      Received(HAL_ERROR, 0, buf, rest)
    else
      var c := if first.Failed? then first.junk else first.bytes[0];
      if c == SOH then ReceiveBody(buf[0 := c], PACKET_SIZE, rest)
      else if c == STX then ReceiveBody(buf[0 := c], PACKET_1K_SIZE, rest)
      else if c == EOT then Received(END_OF_FILE, 0, buf[0 := c], rest)
      else if c == CA then
        var second := Next(rest);
        if Payload(second) != [] && second.bytes[0] != CA then Received(HAL_ERROR, 0, buf[0 := second.bytes[0]], Rest(rest))
        else if Taken(second) then Received(SENDER_ABORT, 2, buf[0 := c], Rest(rest))
        else Received(HAL_ERROR, 0, buf[0 := c], Rest(rest))
      else if c == ABORT1 || c == ABORT2 then Received(HAL_BUSY, 0, buf[0 := c], rest)
      else Received(HAL_ERROR, 0, buf[0 := c], rest)
  }

  /** Success means a whole packet of 128 or 1024 bytes that passed both checks. */
  lemma {:induction false} OkMeansSound(buf: seq<byte>, input: seq<Delivery>)
    requires |buf| == BUFFER_SIZE
    ensures var r := Receive(buf, input);
            r.status == HAL_OK ==> (r.length == PACKET_SIZE || r.length == PACKET_1K_SIZE) && Sound(r.buf, r.length)
  {
    hide Sound, Stored, Take;
  }

  /** A packet as a sender frames it, without its first byte. */
  function Framed(number: byte, data: seq<byte>): (f: seq<byte>)
    ensures |f| == |data| + PACKET_OVERHEAD_SIZE
  {
    [number, 255 - number] + data + [Crc(data) / 256, Crc(data) % 256]
  }

  function StartOf(data: seq<byte>): byte { if |data| == PACKET_SIZE then SOH else STX }

  /** A packet that arrives as it was framed is accepted, with its number and its data. */
  lemma {:induction false} FramedAccepted(buf: seq<byte>, number: byte, data: seq<byte>, more: seq<Delivery>)
    requires |buf| == BUFFER_SIZE && (|data| == PACKET_SIZE || |data| == PACKET_1K_SIZE)
    ensures var r := Receive(buf, [Got([StartOf(data)]), Got(Framed(number, data))] + more);
            && r.status == HAL_OK && r.length == |data| && r.input == more
            && r.buf[PACKET_NUMBER_INDEX] == number
            && r.buf[PACKET_DATA_INDEX..PACKET_DATA_INDEX + |data|] == data
  {
    hide Crc;
    var s := Framed(number, data);
    var input := [Got([StartOf(data)]), Got(s)] + more;
    assert input[1..] == [Got(s)] + more && input[1..][1..] == more;
    var now := Stored(buf[0 := StartOf(data)], PACKET_NUMBER_INDEX, s);
    assert forall k :: 0 <= k < |s| ==> now[2 + k] == s[k];
    assert now[PACKET_DATA_INDEX..PACKET_DATA_INDEX + |data|] == data;
    assert s[|data| + 2] == Crc(data) / 256 && s[|data| + 3] == Crc(data) % 256;
  }

  /**
   * When the read of a packet's body fails, the checks are made on what the buffer still holds: the
   * packet accepted last is accepted again.
   */
  lemma {:induction false} StalePacket(buf: seq<byte>, input: seq<Delivery>, junk: byte, more: seq<Delivery>)
    requires |buf| == BUFFER_SIZE && Receive(buf, input).status == HAL_OK
    ensures var r := Receive(buf, input);
            var start: byte := if r.length == PACKET_SIZE then SOH else STX;
            Receive(r.buf, [Got([start]), Failed(junk)] + more) == Received(HAL_OK, r.length, r.buf[0 := start], more)
  {
    hide Crc;
    var r := Receive(buf, input);
    OkMeansSound(buf, input);
    var start: byte := if r.length == PACKET_SIZE then SOH else STX;
    var again := [Got([start]), Failed(junk)] + more;
    assert again[1..] == [Failed(junk)] + more && again[1..][1..] == more;
    var now := r.buf[0 := start];
    assert Stored(now, PACKET_NUMBER_INDEX, []) == now;
    assert now[PACKET_DATA_INDEX..PACKET_DATA_INDEX + r.length] == r.buf[PACKET_DATA_INDEX..PACKET_DATA_INDEX + r.length];
  }

  // ----- the header packet

  /** Where the name ends: its NUL, or 63 bytes on. */
  function NameLength(data: seq<byte>, i: nat): (n: nat)
    requires i <= 63 < |data|
    ensures i <= n <= 63
    decreases 63 - i
  {
    if i < 63 && data[i] != 0 then NameLength(data, i + 1) else i
  }

  /** The size field ends with a space or after 15 bytes. */
  function SizeEnd(data: seq<byte>, at: nat, i: nat): (n: nat)
    requires i <= 15 && at + 15 < |data|
    ensures i <= n <= 15
    decreases 15 - i
  {
    if i < 15 && data[at + i] != 32 then SizeEnd(data, at, i + 1) else i
  }

  function Wrap32(x: int): (r: int)
    ensures 0 <= r < 0x1_0000_0000
  {
    x % 0x1_0000_0000
  }

  predicate IsDec(c: byte) { 48 <= c <= 57 }
  predicate IsHex(c: byte) { IsDec(c) || 65 <= c <= 70 || 97 <= c <= 102 }

  function HexValue(c: byte): int
    requires IsHex(c)
  {
    if IsDec(c) then c - 48 else if c <= 70 then c - 55 else c - 87
  }

  /** A character of the C string: NUL behind its end. */
  function CharAt(s: seq<byte>, i: nat): byte { if i < |s| then s[i] else 0 }

  function HexFrom(s: seq<byte>, i: nat, val: int): Option<int>
    requires i <= 11
    decreases 11 - i
  {
    if i < 11 && CharAt(s, i) != 0 then
      if IsHex(CharAt(s, i)) then HexFrom(s, i + 1, Wrap32(val * 16 + HexValue(CharAt(s, i)))) else None
    else if CharAt(s, i) == 0 then Some(val)
    else None
  }

  function DecFrom(s: seq<byte>, i: nat, val: int): Option<int>
    requires i <= 11
    decreases 11 - i
  {
    if i == 11 then None
    else if CharAt(s, i) == 0 then Some(val)
    else if (CharAt(s, i) == 107 || CharAt(s, i) == 75) && i > 0 then Some(Wrap32(val * 1024))
    else if (CharAt(s, i) == 109 || CharAt(s, i) == 77) && i > 0 then Some(Wrap32(val * 1048576))
    else if IsDec(CharAt(s, i)) then DecFrom(s, i + 1, Wrap32(val * 10 + CharAt(s, i) - 48))
    else None
  }

  /** Str2Int; None where it leaves its result unwritten. */
  function NumberIn(s: seq<byte>): Option<int> {
    if CharAt(s, 0) == 48 && (CharAt(s, 1) == 120 || CharAt(s, 1) == 88) then HexFrom(s, 2, 0) else DecFrom(s, 0, 0)
  }

  method Str2Int(s: seq<byte>, was: int) returns (ok: bool, value: int)
    ensures ok == NumberIn(s).Some?
    ensures value == if ok then NumberIn(s).value else was
  {
    ok, value := false, was;
    var i: nat := 0;
    var val := 0;
    if CharAt(s, 0) == 48 && (CharAt(s, 1) == 120 || CharAt(s, 1) == 88) {
      i := 2;
      while i < 11 && CharAt(s, i) != 0
        invariant 2 <= i <= 11 && HexFrom(s, i, val) == NumberIn(s)
      {
        if IsHex(CharAt(s, i)) {
          val := Wrap32(val * 16 + HexValue(CharAt(s, i)));
        } else {
          break;
        }
        i := i + 1;
      }
      if CharAt(s, i) == 0 {
        ok, value := true, val;
      }
    } else {
      while i < 11 && !ok
        invariant i <= 11
        invariant !ok ==> DecFrom(s, i, val) == NumberIn(s) && value == was
        invariant ok ==> NumberIn(s) == Some(value)
      {
        var c := CharAt(s, i);
        if c == 0 {
          ok, value := true, val;
        } else if (c == 107 || c == 75) && i > 0 {
          val := Wrap32(val * 1024);
          ok, value := true, val;
        } else if (c == 109 || c == 77) && i > 0 {
          val := Wrap32(val * 1048576);
          ok, value := true, val;
        } else if IsDec(c) {
          val := Wrap32(val * 10 + c - 48);
        } else {
          break;
        }
        i := i + 1;
      }
    }
  }

  /** The size a header declares; `was` where it declares none. */
  function DeclaredSize(data: seq<byte>, was: int): int
    requires |data| >= PACKET_SIZE
  {
    var at := NameLength(data, 0) + 1;
    var field := data[at..at + SizeEnd(data, at, 0)];
    if NumberIn(field).Some? then NumberIn(field).value else was
  }

  lemma {:induction false} NameTurn(data: seq<byte>, i: nat)
    requires i <= 63 < |data|
    ensures NameLength(data, i) == if i < 63 && data[i] != 0 then NameLength(data, i + 1) else i
  {
  }

  lemma {:induction false} SizeTurn(data: seq<byte>, at: nat, i: nat)
    requires i <= 15 && at + 15 < |data|
    ensures SizeEnd(data, at, i) == if i < 15 && data[at + i] != 32 then SizeEnd(data, at, i + 1) else i
  {
  }

  lemma {:induction false} DeclaredIs(data: seq<byte>, was: int)
    requires |data| >= PACKET_SIZE
    ensures var at := NameLength(data, 0) + 1;
            var number := NumberIn(data[at..at + SizeEnd(data, at, 0)]);
            DeclaredSize(data, was) == if number.Some? then number.value else was
  {
  }

  // ----- a session

  datatype Config = Config(offset: int, limit: int, results: seq<int>)

  /** The k-th call of write_file fails. */
  predicate Fails(cfg: Config, k: nat) { k < |cfg.results| && cfg.results[k] != 0 }

  datatype Write = Write(offset: int, data: seq<byte>)

  datatype Event = Data(number: byte, data: seq<byte>) | EndOfFile | SenderAborts | UserAborts | Bad

  /** `code` is what download_file returned, if it has. */
  datatype Session = Session(number: byte, errors: nat, begun: bool, flash: int, len: int, filesize: int,
                             writes: seq<Write>, replies: seq<byte>, code: Option<int>)

  function Start(filesize: int): Session { Session(0, 0, false, 0, 0, filesize, [], [], None) }

  function Accepted(s: Session): Session { s.(number := (s.number + 1) % 256, begun := true) }

  function OnHeader(cfg: Config, s: Session, data: seq<byte>): Session
    requires |data| >= PACKET_SIZE
  {
    if data[0] == 0 then
      s.(replies := s.replies + [ACK], code := Some(0))
    else
      var size := DeclaredSize(data, s.filesize);
      if size > cfg.limit then
        Accepted(s.(filesize := size, replies := s.replies + [CA, CA, ACK, CRC16], code := Some(0)))
      else
        Accepted(s.(filesize := size, replies := s.replies + [ACK, CRC16]))
  }

  function OnData(cfg: Config, s: Session, data: seq<byte>): Session {
    var t := s.(len := Wrap32(s.len + |data|));
    if Fails(cfg, |s.writes|) then
      t.(replies := s.replies + [CA, CA], code := Some(1))
    else
      Accepted(t.(writes := s.writes + [Write(Wrap32(cfg.offset + s.flash), data)],
                  flash := Wrap32(s.flash + |data|), replies := s.replies + [ACK]))
  }

  predicate WfEvent(e: Event) { e.Data? ==> |e.data| == PACKET_SIZE || |e.data| == PACKET_1K_SIZE }

  /** One turn of the loop. */
  function Step(cfg: Config, s: Session, e: Event): Session
    requires WfEvent(e)
  {
    if s.code.Some? then
      s
    else
      match e
      case SenderAborts => s.(code := Some(5))
      case EndOfFile => s.(replies := s.replies + [CA, CA], code := Some(0))
      case UserAborts => s.(replies := s.replies + [CA, CA], code := Some(1))
      case Data(number, data) =>
        var t := s.(errors := 0);
        if number != t.number then t.(replies := t.replies + [NAK])
        else if t.number == 0 then OnHeader(cfg, t, data)
        else OnData(cfg, t, data)
      case Bad =>
        var errors := if s.begun then s.errors + 1 else s.errors;
        if errors > MAX_ERRORS then s.(errors := errors, replies := s.replies + [CA, CA], code := Some(1))
        else s.(errors := errors, replies := s.replies + [CRC16])
  }

  function EventOf(r: Received): (e: Event)
    requires |r.buf| == BUFFER_SIZE && (r.status == HAL_OK ==> r.length == PACKET_SIZE || r.length == PACKET_1K_SIZE)
    ensures WfEvent(e)
  {
    if r.status == HAL_OK then
      Data(r.buf[PACKET_NUMBER_INDEX], r.buf[PACKET_DATA_INDEX..PACKET_DATA_INDEX + r.length])
    else if r.status == END_OF_FILE then EndOfFile
    else if r.status == SENDER_ABORT then SenderAborts
    else if r.status == HAL_BUSY then UserAborts
    else Bad
  }

  lemma {:induction false} Consumes(buf: seq<byte>, input: seq<Delivery>)
    requires |buf| == BUFFER_SIZE && input != []
    ensures |Receive(buf, input).input| < |input|
  {
    hide Sound, Stored, Take;
  }

  /** The whole call, until it returns or the input ends. */
  function Download(cfg: Config, s: Session, buf: seq<byte>, input: seq<Delivery>): Session
    requires |buf| == BUFFER_SIZE
    decreases |input|
  {
    if s.code.Some? || input == [] then
      s
    else
      var r := Receive(buf, input);
      OkMeansSound(buf, input);
      Consumes(buf, input);
      Download(cfg, Step(cfg, s, EventOf(r)), r.buf, r.input)
  }

  // ----- the receiver

  /** The definition of Download where the loop uses it. */
  lemma {:induction false} DownloadTurn(cfg: Config, s: Session, buf: seq<byte>, input: seq<Delivery>)
    requires |buf| == BUFFER_SIZE && input != [] && s.code == None
    ensures var r := Receive(buf, input);
            && (r.status == HAL_OK ==> r.length == PACKET_SIZE || r.length == PACKET_1K_SIZE)
            && |r.input| < |input|
            && Download(cfg, s, buf, input) == Download(cfg, Step(cfg, s, EventOf(r)), r.buf, r.input)
            && (Step(cfg, s, EventOf(r)).code.Some? ==> Download(cfg, s, buf, input) == Step(cfg, s, EventOf(r)))
  {
    hide Receive, Step, EventOf;
    OkMeansSound(buf, input);
    Consumes(buf, input);
  }

  lemma {:induction false} DownloadOver(cfg: Config, s: Session, buf: seq<byte>, input: seq<Delivery>)
    requires |buf| == BUFFER_SIZE && (s.code.Some? || input == [])
    ensures Download(cfg, s, buf, input) == s
  {
  }

  class Modem {
    const packet: array<byte>
    /** What the line will still deliver. */
    var input: seq<Delivery>
    var flashdestination: int

    ghost predicate Valid() { packet.Length == BUFFER_SIZE }

    constructor (input: seq<Delivery>)
      ensures Valid() && this.input == input && fresh(packet)
    {
      packet := new byte[BUFFER_SIZE];
      this.input := input;
      flashdestination := 0;
    }

    /** debug_recv: the next bytes of the line, at most `size` of them. */
    method DebugRecv(size: nat) returns (d: Delivery)
      modifies this`input
      ensures d == Limited(Next(old(input)), size) && input == Rest(old(input))
    {
      d := Limited(Next(input), size);
      input := Rest(input);
    }

    method Store(at: nat, bytes: seq<byte>)
      requires at + |bytes| <= packet.Length
      modifies packet
      ensures packet[..] == Stored(old(packet[..]), at, bytes)
    {
      forall i | 0 <= i < |bytes| {
        packet[at + i] := bytes[i];
      }
    }

    method ReceiveRest(size: nat) returns (status: int, length: nat)
      requires Valid() && (size == PACKET_SIZE || size == PACKET_1K_SIZE)
      modifies this`input, packet
      ensures Received(status, length, packet[..], input) == ReceiveBody(old(packet[..]), size, old(input))
    {
      hide Stored, Crc16.Augmented;
      var d := DebugRecv(size + PACKET_OVERHEAD_SIZE);
      Store(PACKET_NUMBER_INDEX, Payload(d));
      status, length := HAL_ERROR, size;
      if Taken(d) {
        status := HAL_OK;
      }
      if status == HAL_OK {
        if packet[PACKET_NUMBER_INDEX] != 255 - packet[PACKET_CNUMBER_INDEX] {
          length := 0;
          status := HAL_ERROR;
        } else {
          var crc := packet[size + PACKET_DATA_INDEX] as int * 256 + packet[size + PACKET_DATA_INDEX + 1];
          ghost var now := packet[..];
          var data := packet[PACKET_DATA_INDEX..PACKET_DATA_INDEX + size];
          assert data == now[PACKET_DATA_INDEX..PACKET_DATA_INDEX + size];
          var computed := Crc16.CalCRC16(ToBits(data));
          if computed as int != crc {
            length := 0;
            status := HAL_ERROR;
          }
        }
      } else {
        length := 0;
      }
    }

    method ReceivePacket() returns (status: int, length: nat)
      requires Valid()
      modifies this`input, packet
      ensures Received(status, length, packet[..], input) == Receive(old(packet[..]), old(input))
    {
      hide ReceiveBody;
      status, length := HAL_ERROR, 0;
      ghost var buf := packet[..];
      var first := DebugRecv(1);
      if Taken(first) {
        var char1 := if first.Failed? then first.junk else first.bytes[0];
        if char1 == SOH {
          packet[0] := char1;
          assert packet[..] == buf[0 := char1];
          status, length := ReceiveRest(PACKET_SIZE);
          return;
        } else if char1 == STX {
          packet[0] := char1;
          assert packet[..] == buf[0 := char1];
          status, length := ReceiveRest(PACKET_1K_SIZE);
          return;
        } else if char1 == EOT {
          status := END_OF_FILE;
        } else if char1 == CA {
          var second := DebugRecv(1);
          if Payload(second) != [] {
            char1 := second.bytes[0];
          }
          if Taken(second) && char1 == CA {
            length := 2;
            status := SENDER_ABORT;
          }
        } else if char1 == ABORT1 || char1 == ABORT2 {
          status := HAL_BUSY;
        }
        packet[0] := char1;
        assert packet[..] == buf[0 := char1];
      }
    }

    /** File name and size extraction; only the size matters here. */
    method ParseHeader(data: seq<byte>, was: int) returns (filesize: int)
      requires |data| >= PACKET_SIZE
      ensures filesize == DeclaredSize(data, was)
    {
      hide NumberIn, DeclaredSize, NameLength, SizeEnd;
      DeclaredIs(data, was);
      var i := 0;
      while i < 63 && data[i] != 0
        invariant 0 <= i <= 63 && NameLength(data, i) == NameLength(data, 0)
      {
        NameTurn(data, i);
        i := i + 1;
      }
      NameTurn(data, i);
      var at := i + 1;
      var k := 0;
      while k < 15 && data[at + k] != 32
        invariant 0 <= k <= 15 && SizeEnd(data, at, k) == SizeEnd(data, at, 0)
      {
        SizeTurn(data, at, k);
        k := k + 1;
      }
      SizeTurn(data, at, k);
      var ok;
      ok, filesize := Str2Int(data[at..at + k], was);
    }

    /**
     * `garbage` is what the uninitialised file size holds. The call runs until it returns or the
     * line has nothing more to deliver.
     */
    method DownloadFile(cfg: Config, garbage: int)
      returns (code: Option<int>, len: int, writes: seq<Write>, replies: seq<byte>)
      requires Valid()
      modifies this, packet
      ensures var s := Download(cfg, Start(garbage), old(packet[..]), old(input));
              code == s.code && len == s.len && writes == s.writes && replies == s.replies && flashdestination == s.flash
    {
      hide Receive, DeclaredSize, Fails, Sound, Wrap32, Download;
      code, len, writes, replies := None, 0, [], [];
      var errors, filesize := 0, garbage;
      var sessionDone, sessionBegin, limited := false, false, false;
      flashdestination := 0;
      ghost var goal := Download(cfg, Start(garbage), packet[..], input);
      ghost var s := Start(garbage);
      while !sessionDone && !limited && input != []
        invariant !sessionDone && !limited ==> code == None
        invariant !sessionDone && !limited && input != [] ==> s == Start(garbage) && flashdestination == 0 && errors == 0
        invariant !sessionDone && !limited && input != [] ==> !sessionBegin && len == 0 && filesize == garbage && writes == [] && replies == []
        invariant Valid() && Download(cfg, s, packet[..], input) == goal
        invariant code == s.code && len == s.len && writes == s.writes && replies == s.replies && flashdestination == s.flash
        invariant sessionDone || limited ==> code == Some(0)
        decreases |input|, !sessionDone && !limited
      {
        ghost var left := |input|;
        var packetsReceived: byte := 0;
        var fileDone := false;
        while !fileDone && !limited && input != []
          invariant Valid() && Download(cfg, s, packet[..], input) == goal
          invariant s == Session(packetsReceived, errors, sessionBegin, flashdestination, len, filesize, writes, replies, code)
          invariant fileDone == sessionDone && (code == if fileDone || limited then Some(0) else None)
          invariant |input| <= left
          decreases |input|
        {
          DownloadTurn(cfg, s, packet[..], input);
          ghost var r := Receive(packet[..], input);
          var status, length := ReceivePacket();
          ghost var before := s;
          s := Step(cfg, s, EventOf(r));
          if status == SENDER_ABORT {
            code := Some(5);
            return;
          } else if status == END_OF_FILE {
            replies := replies + [CA, CA];
            code := Some(0);
            return;
          } else if status == HAL_OK {
            errors := 0;
            var data := packet[PACKET_DATA_INDEX..PACKET_DATA_INDEX + length];
            if packet[PACKET_NUMBER_INDEX] != packetsReceived {
              replies := replies + [NAK];
            } else {
              if packetsReceived == 0 {
                if data[0] != 0 {
                  filesize := ParseHeader(data, filesize);
                  if filesize > cfg.limit {
                    replies := replies + [CA, CA];
                    limited := true;
                    code := Some(0);
                  }
                  replies := replies + [ACK, CRC16];
                } else {
                  replies := replies + [ACK];
                  fileDone, sessionDone := true, true;
                  code := Some(0);
                }
              } else {
                len := Wrap32(len + length);
                if Fails(cfg, |writes|) {
                  replies := replies + [CA, CA];
                  code := Some(1);
                  return;
                } else {
                  writes := writes + [Write(Wrap32(cfg.offset + flashdestination), data)];
                  flashdestination := Wrap32(flashdestination + length);
                  replies := replies + [ACK];
                }
              }
              if !fileDone {
                packetsReceived := (packetsReceived + 1) % 256;
                sessionBegin := true;
              }
            }
          } else if status == HAL_BUSY {
            replies := replies + [CA, CA];
            code := Some(1);
            return;
          } else {
            if sessionBegin {
              errors := errors + 1;
            }
            if errors > MAX_ERRORS {
              replies := replies + [CA, CA];
              code := Some(1);
              return;
            } else {
              replies := replies + [CRC16];
            }
          }
        }
      }
      DownloadOver(cfg, s, packet[..], input);
    }
  }
}
