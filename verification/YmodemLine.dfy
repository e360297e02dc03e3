/** The YMODEM receiver and its serial line: packets that arrive whole, and packets that are cut short. */
module YmodemLine {
  import opened Bytes
  import opened Ymodem
  import opened YmodemSession

  // ----- the line, packet by packet

  function FirstByte(d: Delivery): byte
    requires Taken(d)
  {
    if d.Failed? then d.junk else d.bytes[0]
  }

  /** The next read brings the start byte of a packet, so that its body is read next. */
  predicate StartsPacket(input: seq<Delivery>) {
    input != [] && Taken(input[0]) && (FirstByte(input[0]) == SOH || FirstByte(input[0]) == STX)
  }

  function BodySize(input: seq<Delivery>): nat
    requires StartsPacket(input)
  {
    if FirstByte(input[0]) == SOH then PACKET_SIZE else PACKET_1K_SIZE
  }

  function Body(input: seq<Delivery>): Delivery
    requires StartsPacket(input)
  {
    Limited(Next(input[1..]), BodySize(input) + PACKET_OVERHEAD_SIZE)
  }

  /** The read of the body, if there is one, brings all of it or times out with nothing. */
  predicate WholeBody(input: seq<Delivery>) {
    StartsPacket(input) ==>
      var body := Body(input);
      body.Got? && (body.bytes == [] || |body.bytes| == BodySize(input) + PACKET_OVERHEAD_SIZE)
  }

  /** The line behind what one call of ReceivePacket reads. */
  function After(input: seq<Delivery>): seq<Delivery> {
    if StartsPacket(input) || (input != [] && Taken(input[0]) && FirstByte(input[0]) == CA) then Rest(Rest(input)) else Rest(input)
  }

  /** The size of the body stored last, 0 for none. */
  function LastSize(input: seq<Delivery>, last: nat): nat {
    if StartsPacket(input) && Body(input).Got? && Body(input).bytes != [] then BodySize(input) else last
  }

  /** The read of the body fails, and the body stored last has the same size. */
  predicate FailsAlike(input: seq<Delivery>, last: nat) {
    StartsPacket(input) && Body(input).Failed? && BodySize(input) == last
  }

  /**
   * No body on the line is cut short: each arrives whole or not at all. A read that fails must want
   * the size stored last, which is `last` at the beginning and 0 if nothing is known of the buffer.
   */
  ghost predicate Uncut(input: seq<Delivery>, last: nat)
    decreases |input|
  {
    input == [] || ((WholeBody(input) || FailsAlike(input, last)) && Uncut(After(input), LastSize(input, last)))
  }

  /** The line where the receiver looks for its packet number i. */
  function Turn(input: seq<Delivery>, i: nat): seq<Delivery>
    decreases i
  {
    if i == 0 then input else Turn(After(input), i - 1)
  }

  /** The next packet is delivered as a sender frames number n with data d. */
  predicate Arrives(input: seq<Delivery>, n: byte, d: seq<byte>) {
    StartsPacket(input) && |d| == BodySize(input) && Body(input) == Got(Framed(n, d))
  }

  lemma {:induction false} AfterIs(buf: seq<byte>, input: seq<Delivery>)
    requires |buf| == BUFFER_SIZE
    ensures Receive(buf, input).input == After(input)
  {
    hide Sound, Stored, Take;
  }

  lemma {:induction false} BodyReceived(buf: seq<byte>, input: seq<Delivery>)
    requires |buf| == BUFFER_SIZE
    ensures Receive(buf, input).status == HAL_OK ==> StartsPacket(input)
    ensures StartsPacket(input) ==> Receive(buf, input) == ReceiveBody(buf[0 := FirstByte(input[0])], BodySize(input), input[1..])
  {
    hide Sound, Stored, Take, ReceiveBody;
  }

  lemma {:induction false} BytesOfFrame(body: seq<byte>, size: nat)
    requires |body| == size + PACKET_OVERHEAD_SIZE && body[0] == 255 - body[1]
    requires Crc(body[2..size + 2]) == body[size + 2] as int * 256 + body[size + 3]
    ensures body == Framed(body[0], body[2..size + 2])
  {
    hide Crc;
    var d := body[2..size + 2];
    assert Crc(d) / 256 == body[size + 2] && Crc(d) % 256 == body[size + 3];
    assert body == [body[0], body[1]] + d + [body[size + 2], body[size + 3]];
  }

  /** If bodies arrive whole, a packet is accepted only as it arrived, number and data. */
  lemma {:induction false} AcceptedArrived(buf: seq<byte>, input: seq<Delivery>)
    requires |buf| == BUFFER_SIZE && WholeBody(input) && Receive(buf, input).status == HAL_OK
    ensures var r := Receive(buf, input);
            PACKET_DATA_INDEX + r.length <= BUFFER_SIZE
            && Arrives(input, r.buf[PACKET_NUMBER_INDEX], r.buf[PACKET_DATA_INDEX..PACKET_DATA_INDEX + r.length])
  {
    hide Crc, Framed;
    BodyReceived(buf, input);
    var r := Receive(buf, input);
    var body, size := Body(input).bytes, BodySize(input);
    var was := buf[0 := FirstByte(input[0])];
    assert r.buf == Stored(was, PACKET_NUMBER_INDEX, body);
    assert r.buf[2..6 + size] == body;
    assert forall k :: 0 <= k < |body| ==> r.buf[2 + k] == body[k];
    assert r.buf[4..4 + size] == body[2..size + 2];
    BytesOfFrame(body, size);
  }

  // ----- from the line to the run

  /** A packet accepted after a failed read is the body stored last. */
  lemma {:induction false} AcceptedStands(buf: seq<byte>, input: seq<Delivery>, last: nat)
    requires |buf| == BUFFER_SIZE && FailsAlike(input, last) && Receive(buf, input).status == HAL_OK
    ensures var r := Receive(buf, input);
            && r.length == last && (last == PACKET_SIZE || last == PACKET_1K_SIZE)
            && buf[2..6 + last] == Framed(r.buf[PACKET_NUMBER_INDEX], r.buf[PACKET_DATA_INDEX..PACKET_DATA_INDEX + last])
  {
    hide Crc, Framed;
    BodyReceived(buf, input);
    var r := Receive(buf, input);
    var was := buf[0 := FirstByte(input[0])];
    assert Stored(was, PACKET_NUMBER_INDEX, []) == was;
    assert r.buf == was;
    var body := buf[2..6 + last];
    assert forall k :: 0 <= k < 4 + last ==> was[2 + k] == body[k];
    assert was[4..4 + last] == body[2..last + 2];
    BytesOfFrame(body, last);
  }

  lemma {:induction false} FirstOnly(buf: seq<byte>, input: seq<Delivery>)
    requires |buf| == BUFFER_SIZE && !StartsPacket(input)
    ensures Receive(buf, input).buf[1..] == buf[1..]
  {
    hide Sound, Stored, Take;
  }

  /** What stands in the buffer behind a packet: a whole body as it arrived, or what stood there before. */
  lemma {:induction false} BufferAfter(buf: seq<byte>, input: seq<Delivery>, last: nat)
    requires |buf| == BUFFER_SIZE && last <= PACKET_1K_SIZE && (WholeBody(input) || FailsAlike(input, last))
    ensures var r, next := Receive(buf, input), LastSize(input, last);
            && next <= PACKET_1K_SIZE
            && r.buf[2..6 + next] == if StartsPacket(input) && Body(input).Got? && Body(input).bytes != [] then Body(input).bytes
                                     else buf[2..6 + last]
  {
    hide Sound, Take;
    if StartsPacket(input) {
      BodyReceived(buf, input);
      var was := buf[0 := FirstByte(input[0])];
      var bytes := Payload(Body(input));
      var now := Stored(was, PACKET_NUMBER_INDEX, bytes);
      assert Receive(buf, input).buf == now;
      if bytes == [] {
        assert now == was;
        assert was[2..6 + last] == buf[2..6 + last];
      } else {
        assert now[2..6 + BodySize(input)] == bytes;
      }
    } else {
      FirstOnly(buf, input);
      var r := Receive(buf, input).buf;
      assert r[2..6 + last] == buf[2..6 + last];
    }
  }

  /** Number n with data d arrived for one of the first i + 1 packets. */
  ghost predicate ArrivedBy(input: seq<Delivery>, i: nat, n: byte, d: seq<byte>) {
    exists k: nat :: k <= i && Arrives(Turn(input, k), n, d)
  }

  ghost predicate Stands(buf: seq<byte>, last: nat, n: byte, d: seq<byte>)
    requires |buf| == BUFFER_SIZE
  {
    0 < last <= PACKET_1K_SIZE && |d| == last && buf[2..6 + last] == Framed(n, d)
  }

  lemma {:induction false} StoodOrArrives(buf: seq<byte>, input: seq<Delivery>, last: nat, n: byte, d: seq<byte>)
    requires |buf| == BUFFER_SIZE && last <= PACKET_1K_SIZE && (WholeBody(input) || FailsAlike(input, last))
    requires Stands(Receive(buf, input).buf, LastSize(input, last), n, d)
    ensures Stands(buf, last, n, d) || Arrives(input, n, d)
  {
    hide Receive, WholeBody, FailsAlike, Body, BodySize;
    BufferAfter(buf, input, last);
  }

  lemma {:induction false} FirstAccepted(buf: seq<byte>, input: seq<Delivery>, last: nat)
    requires |buf| == BUFFER_SIZE && (WholeBody(input) || FailsAlike(input, last)) && Receive(buf, input).status == HAL_OK
    ensures var r := Receive(buf, input);
            && (r.length == PACKET_SIZE || r.length == PACKET_1K_SIZE)
            && var n, d := r.buf[PACKET_NUMBER_INDEX], r.buf[PACKET_DATA_INDEX..PACKET_DATA_INDEX + r.length];
            Arrives(input, n, d) || Stands(buf, last, n, d)
  {
    hide Receive, WholeBody, FailsAlike, Arrives;
    OkMeansSound(buf, input);
    if WholeBody(input) {
      AcceptedArrived(buf, input);
    } else {
      AcceptedStands(buf, input, last);
    }
  }

  lemma {:induction false} EventArrived(cfg: Config, s: Session, buf: seq<byte>, input: seq<Delivery>, last: nat, i: nat)
    requires |buf| == BUFFER_SIZE && last <= PACKET_1K_SIZE && Uncut(input, last) && i < |EventsOf(cfg, s, buf, input)|
    ensures var e := EventsOf(cfg, s, buf, input)[i];
            e.Data? ==> ArrivedBy(input, i, e.number, e.data) || Stands(buf, last, e.number, e.data)
    decreases i
  {
    hide Step, Receive, WholeBody, FailsAlike, Arrives, Stands, LastSize;
    var r := Receive(buf, input);
    OkMeansSound(buf, input);
    AfterIs(buf, input);
    var e := EventsOf(cfg, s, buf, input)[i];
    if i == 0 {
      if r.status == HAL_OK {
        FirstAccepted(buf, input, last);
        assert Turn(input, 0) == input;
      }
    } else {
      BufferAfter(buf, input, last);
      var next := LastSize(input, last);
      EventArrived(cfg, Step(cfg, s, EventOf(r)), r.buf, r.input, next, i - 1);
      if e.Data? {
        if ArrivedBy(r.input, i - 1, e.number, e.data) {
          var k: nat :| k <= i - 1 && Arrives(Turn(r.input, k), e.number, e.data);
          assert Turn(input, k + 1) == Turn(r.input, k);
        } else {
          StoodOrArrives(buf, input, last, e.number, e.data);
          assert Turn(input, 0) == input;
        }
      }
    }
  }

  /** A block of the sender's under its number; the 257th and later not before 256 packets were accepted. */
  ghost predicate Own(n: byte, d: seq<byte>, blocks: seq<seq<byte>>, acks: nat) {
    exists j: nat :: Carries(Data(n, d), blocks, j) && (j < 256 || acks >= 256)
  }

  /** Every data packet that is delivered well formed is the sender's own. */
  ghost predicate SendersOwn(cfg: Config, garbage: int, buf: seq<byte>, input: seq<Delivery>, blocks: seq<seq<byte>>)
    requires |buf| == BUFFER_SIZE
  {
    var events := EventsOf(cfg, Start(garbage), buf, input);
    forall i: nat, n: byte, d :: i < |events| && n != 0 && Arrives(Turn(input, i), n, d) ==>
      Own(n, d, blocks, Acks(cfg, Start(garbage), events[..i]))
  }

  /** For a file of at most 256 blocks this is a matter of each packet alone, whatever the order. */
  lemma {:induction false} ShortFile(cfg: Config, garbage: int, buf: seq<byte>, input: seq<Delivery>, blocks: seq<seq<byte>>)
    requires |buf| == BUFFER_SIZE && |blocks| <= 256
    requires forall i: nat, n: byte, d :: n != 0 && Arrives(Turn(input, i), n, d) ==> n <= |blocks| && d == blocks[n - 1]
    ensures SendersOwn(cfg, garbage, buf, input, blocks)
  {
    hide Arrives, Turn, Acks, EventsOf;
    var events := EventsOf(cfg, Start(garbage), buf, input);
    forall i: nat, n: byte, d | i < |events| && n != 0 && Arrives(Turn(input, i), n, d)
      ensures Own(n, d, blocks, Acks(cfg, Start(garbage), events[..i]))
    {
      assert Carries(Data(n, d), blocks, n - 1);
    }
  }

  /** For a longer one it is enough that the sender waits for each packet to be accepted before it goes on. */
  lemma {:induction false} WaitingSender(cfg: Config, garbage: int, buf: seq<byte>, input: seq<Delivery>, blocks: seq<seq<byte>>)
    requires |buf| == BUFFER_SIZE
    requires var events := EventsOf(cfg, Start(garbage), buf, input);
             forall i: nat, n: byte, d :: i < |events| && n != 0 && Arrives(Turn(input, i), n, d) ==>
               exists j: nat :: Carries(Data(n, d), blocks, j) && j < Acks(cfg, Start(garbage), events[..i])
    ensures SendersOwn(cfg, garbage, buf, input, blocks)
  {
    hide Arrives, Turn, Acks, EventsOf, Carries;
    var events := EventsOf(cfg, Start(garbage), buf, input);
    forall i: nat, n: byte, d | i < |events| && n != 0 && Arrives(Turn(input, i), n, d)
      ensures Own(n, d, blocks, Acks(cfg, Start(garbage), events[..i]))
    {
      var j: nat :| Carries(Data(n, d), blocks, j) && j < Acks(cfg, Start(garbage), events[..i]);
    }
  }

  lemma {:induction false} AcksGrow(cfg: Config, s: Session, events: seq<Event>, k: nat)
    requires WfEvents(events) && k <= |events|
    ensures Acks(cfg, s, events[..k]) <= Acks(cfg, s, events)
    decreases |events|
  {
    hide Run;
    if k < |events| {
      AcksGrow(cfg, s, events[..|events| - 1], k);
      assert events[..|events| - 1][..k] == events[..k];
    } else {
      assert events[..k] == events;
    }
  }

  /** So what is accepted is the sender's own. */
  lemma {:induction false} LineIsGenuine(cfg: Config, garbage: int, buf: seq<byte>, input: seq<Delivery>, blocks: seq<seq<byte>>)
    requires |buf| == BUFFER_SIZE && Uncut(input, 0) && SendersOwn(cfg, garbage, buf, input, blocks)
    ensures Genuine(cfg, garbage, EventsOf(cfg, Start(garbage), buf, input), blocks)
  {
    hide Arrives, Turn, Acks, EventsOf, Uncut, Carries;
    var events := EventsOf(cfg, Start(garbage), buf, input);
    forall i: nat | i < |events| && events[i].Data? && events[i].number != 0
      ensures NotEarly(cfg, garbage, events, i, blocks)
    {
      var e := events[i];
      EventArrived(cfg, Start(garbage), buf, input, 0, i);
      var k: nat :| k <= i && Arrives(Turn(input, k), e.number, e.data);
      assert Own(e.number, e.data, blocks, Acks(cfg, Start(garbage), events[..k]));
      AcksGrow(cfg, Start(garbage), events[..i], k);
      assert events[..i][..k] == events[..k];
      var j: nat :| Carries(Data(e.number, e.data), blocks, j) && (j < 256 || Acks(cfg, Start(garbage), events[..k]) >= 256);
      assert Carries(e, blocks, j);
    }
  }

  /**
   * Whatever packets were lost, repeated, damaged or reordered, and whatever reads failed, as long as
   * no packet is cut short: the calls carried the first blocks of the sender, each once and in order,
   * and the file is a prefix of the sender's stream.
   */
  lemma {:induction false} FileIsPrefix(cfg: Config, garbage: int, buf: seq<byte>, input: seq<Delivery>, blocks: seq<seq<byte>>)
    requires |buf| == BUFFER_SIZE && Uncut(input, 0) && SendersOwn(cfg, garbage, buf, input, blocks)
    requires InReach(blocks, Download(cfg, Start(garbage), buf, input).writes)
    ensures var writes := Download(cfg, Start(garbage), buf, input).writes;
            && |writes| <= |blocks| && Blocks(writes) == blocks[..|writes|] && Content(writes) <= Flat(blocks)
  {
    hide Download, Uncut, SendersOwn, Genuine, Blocks, Content, Run;
    DownloadIsRun(cfg, Start(garbage), buf, input);
    LineIsGenuine(cfg, garbage, buf, input, blocks);
    RunIsPrefix(cfg, garbage, EventsOf(cfg, Start(garbage), buf, input), blocks);
  }

  /**
   * The bound is exact: unless one of the blocks 257, 513, ... or the first is also the 256th, what
   * was written is a beginning of the sender's blocks if and only if it is at most 255 packets.
   */
  lemma {:induction false} PrefixExact(cfg: Config, garbage: int, buf: seq<byte>, input: seq<Delivery>, blocks: seq<seq<byte>>)
    requires |buf| == BUFFER_SIZE && Uncut(input, 0) && SendersOwn(cfg, garbage, buf, input, blocks)
    requires |blocks| > 255 ==> forall j :: 0 <= j < |blocks| && j % 256 == 0 ==> blocks[j] != blocks[255]
    ensures var writes := Download(cfg, Start(garbage), buf, input).writes;
            Blocks(writes) <= blocks <==> |writes| <= 255
  {
    hide Download, Uncut, SendersOwn, Genuine, Blocks, Run;
    DownloadIsRun(cfg, Start(garbage), buf, input);
    LineIsGenuine(cfg, garbage, buf, input, blocks);
    RunPrefixExact(cfg, garbage, EventsOf(cfg, Start(garbage), buf, input), blocks);
  }

  /**
   * So a caller that got 0 has the whole file if and only if the length it was handed back is that
   * of the file, as long as the file is below 4 GiB.
   */
  lemma {:induction false} WholeFileMeansLength(cfg: Config, garbage: int, buf: seq<byte>, input: seq<Delivery>, blocks: seq<seq<byte>>)
    requires |buf| == BUFFER_SIZE && Uncut(input, 0) && SendersOwn(cfg, garbage, buf, input, blocks)
    requires InReach(blocks, Download(cfg, Start(garbage), buf, input).writes)
    requires Download(cfg, Start(garbage), buf, input).code == Some(0) && |Flat(blocks)| < 0x1_0000_0000
    ensures var s := Download(cfg, Start(garbage), buf, input);
            Content(s.writes) == Flat(blocks) <==> s.len == |Flat(blocks)|
  {
    hide Download, Uncut, SendersOwn, Genuine, Blocks, Content, Run;
    DownloadIsRun(cfg, Start(garbage), buf, input);
    LineIsGenuine(cfg, garbage, buf, input, blocks);
    LengthTells(cfg, garbage, EventsOf(cfg, Start(garbage), buf, input), blocks);
  }

  // ----- from a run to a line

  ghost predicate Packets(events: seq<Event>) { WfEvents(events) && forall e :: e in events ==> e.Data? }

  /** The line on which these packets arrive as they were framed. */
  ghost function LineOf(events: seq<Event>): seq<Delivery>
    requires Packets(events)
  {
    if events == [] then [] else
      assert events[0] in events;
      [Got([StartOf(events[0].data)]), Got(Framed(events[0].number, events[0].data))] + LineOf(events[1..])
  }

  lemma {:induction false} FramedArrives(e: Event, more: seq<Delivery>)
    requires WfEvent(e) && e.Data?
    ensures var input := [Got([StartOf(e.data)]), Got(Framed(e.number, e.data))] + more;
            && Arrives(input, e.number, e.data) && WholeBody(input) && After(input) == more
            && forall n, d :: Arrives(input, n, d) ==> n == e.number && d == e.data
  {
    hide Crc;
    var input := [Got([StartOf(e.data)]), Got(Framed(e.number, e.data))] + more;
    var f := Framed(e.number, e.data);
    assert input[1..] == [Got(f)] + more && input[1..][1..] == more;
    forall n, d | Arrives(input, n, d)
      ensures n == e.number && d == e.data
    {
      assert f == Framed(n, d);
      assert f[2..2 + |d|] == d && f[2..2 + |d|] == e.data;
    }
  }

  lemma {:induction false} LineUncut(events: seq<Event>, last: nat)
    requires Packets(events)
    ensures Uncut(LineOf(events), last)
    decreases |events|
  {
    hide Framed, WholeBody, After, StartOf, LastSize;
    if events != [] {
      assert events[0] in events;
      FramedArrives(events[0], LineOf(events[1..]));
      LineUncut(events[1..], LastSize(LineOf(events), last));
    }
  }

  lemma {:induction false} RunEnded(cfg: Config, s: Session, events: seq<Event>)
    requires WfEvents(events) && s.code.Some?
    ensures Run(cfg, s, events) == s
    decreases |events|
  {
    if events != [] {
      RunEnded(cfg, s, events[..|events| - 1]);
    }
  }

  /** On that line the receiver runs through these packets. */
  lemma {:induction false} LineRuns(cfg: Config, s: Session, buf: seq<byte>, events: seq<Event>)
    requires |buf| == BUFFER_SIZE && Packets(events)
    ensures Download(cfg, s, buf, LineOf(events)) == Run(cfg, s, events)
    ensures EventsOf(cfg, s, buf, LineOf(events)) <= events
    decreases |events|
  {
    hide Step, Receive, Run, Framed, WholeBody, After, StartOf;
    if events == [] {
      RunNothing(cfg, s);
    } else {
      var e, rest := events[0], events[1..];
      var line := LineOf(events);
      assert e in events && [e] + rest == events;
      var more := LineOf(rest);
      FramedArrives(e, more);
      FramedAccepted(buf, e.number, e.data, more);
      var r := Receive(buf, line);
      assert EventOf(r) == e;
      LineRuns(cfg, Step(cfg, s, e), r.buf, rest);
      RunCons(cfg, s, e, rest);
      if s.code.Some? {
        RunEnded(cfg, s, events);
      } else {
        DownloadTurn(cfg, s, buf, line);
      }
    }
  }

  lemma {:induction false} TurnOf(events: seq<Event>, i: nat)
    requires Packets(events) && i <= |events|
    ensures Turn(LineOf(events), i) == LineOf(events[i..])
    decreases i
  {
    hide After, Framed;
    if i == 0 {
      assert events[0..] == events;
    } else {
      assert events[0] in events;
      FramedArrives(events[0], LineOf(events[1..]));
      TurnOf(events[1..], i - 1);
      assert events[1..][i - 1..] == events[i..];
    }
  }

  /** Only the packet that was put on the line arrives. */
  lemma {:induction false} ArrivesOnLine(events: seq<Event>, i: nat, n: byte, d: seq<byte>)
    requires Packets(events) && i < |events| && Arrives(Turn(LineOf(events), i), n, d)
    ensures events[i] == Data(n, d)
  {
    hide Arrives, Framed, Turn;
    TurnOf(events, i);
    var e := events[i];
    assert e in events && events[i..][0] == e && events[i..][1..] == events[i + 1..];
    FramedArrives(e, LineOf(events[i + 1..]));
  }

  lemma {:induction false} OwnBlock(n: byte, d: seq<byte>, blocks: seq<seq<byte>>, acks: nat)
    requires 0 < n <= |blocks| && d == blocks[n - 1]
    ensures Own(n, d, blocks, acks)
  {
    assert Carries(Data(n, d), blocks, n - 1);
  }

  lemma {:induction false} RepeatedLine(cfg: Config, garbage: int, buf: seq<byte>, header: seq<byte>, blocks: seq<seq<byte>>)
    requires |buf| == BUFFER_SIZE && WfBlock(header) && WfBlocks(blocks) && |blocks| >= 255
    ensures Packets(Repeated(header, blocks[..255]))
    ensures SendersOwn(cfg, garbage, buf, LineOf(Repeated(header, blocks[..255])), blocks)
  {
    hide Arrives, Turn, Acks, EventsOf, LineOf, Run, Download, Repeated, WfBlock, Own;
    var events := Repeated(header, blocks[..255]);
    forall e | e in events
      ensures e.Data?
    {
      var k :| 0 <= k < |events| && events[k] == e;
      RepeatedNumbers(header, blocks[..255], k);
    }
    LineRuns(cfg, Start(garbage), buf, events);
    var met := EventsOf(cfg, Start(garbage), buf, LineOf(events));
    forall i: nat, n: byte, d | i < |met| && n != 0 && Arrives(Turn(LineOf(events), i), n, d)
      ensures Own(n, d, blocks, Acks(cfg, Start(garbage), met[..i]))
    {
      ArrivesOnLine(events, i, n, d);
      RepeatedNumbers(header, blocks[..255], i);
      OwnBlock(n, d, blocks, Acks(cfg, Start(garbage), met[..i]));
    }
  }

  lemma {:induction false} AcceptingBlock(cfg: Config, garbage: int, header: seq<byte>)
    requires Accepting(cfg, garbage, header)
    ensures WfBlock(header)
  {
  }

  /**
   * What a caller can tell beforehand: on every such line the file comes out as a beginning of what
   * was sent if and only if it has fewer than 255 blocks (unless the 256th block is like the first).
   */
  lemma {:induction false} AlwaysPrefixIff(cfg: Config, garbage: int, buf: seq<byte>, header: seq<byte>, blocks: seq<seq<byte>>)
    requires |buf| == BUFFER_SIZE && Accepting(cfg, garbage, header) && WfBlocks(blocks)
    requires |blocks| > 255 ==> blocks[0] != blocks[255]
    ensures (forall input :: Uncut(input, 0) && SendersOwn(cfg, garbage, buf, input, blocks) ==>
               Blocks(Download(cfg, Start(garbage), buf, input).writes) <= blocks) <==> |blocks| < 255
  {
    hide Download, Uncut, SendersOwn, Blocks, Run, LineOf, Accepting, WfBlock, Repeated;
    if |blocks| < 255 {
      forall input | Uncut(input, 0) && SendersOwn(cfg, garbage, buf, input, blocks)
        ensures Blocks(Download(cfg, Start(garbage), buf, input).writes) <= blocks
      {
        FileIsPrefix(cfg, garbage, buf, input, blocks);
      }
    } else {
      AcceptingBlock(cfg, garbage, header);
      var first := blocks[..255];
      RepeatedLine(cfg, garbage, buf, header, blocks);
      var events := Repeated(header, first);
      LineRuns(cfg, Start(garbage), buf, events);
      LineUncut(events, 0);
      RepeatWritten(cfg, garbage, header, first);
      var written := Blocks(Download(cfg, Start(garbage), buf, LineOf(events)).writes);
      assert written[255] == blocks[0];
    }
  }

  // ----- a body cut short

  /** The data in the buffer when a packet with data e, cut after k bytes of its body, follows one with data d. */
  function Mixed(e: seq<byte>, d: seq<byte>, k: nat): (m: seq<byte>)
    requires |e| == |d|
    ensures |m| == |d|
  {
    var j := if k < 2 then 0 else if k - 2 < |d| then k - 2 else |d|;
    e[..j] + d[j..]
  }

  /** The number, complement and CRC checks, as the bytes of the new packet reach. */
  predicate CutPasses(n: byte, e: seq<byte>, m: byte, d: seq<byte>, k: nat)
    requires |e| == |d|
  {
    if k == 1 then n == m
    else if k <= |d| + 2 then Crc(Mixed(e, d, k)) == Crc(d)
    else Crc(e) % 256 == Crc(d) % 256
  }

  lemma {:induction false} CutStored(was: seq<byte>, m: byte, d: seq<byte>, n: byte, e: seq<byte>, k: nat)
    requires |was| == BUFFER_SIZE && WfBlock(d) && |e| == |d| && 1 <= k <= |d| + 3
    requires was[2..6 + |d|] == Framed(m, d)
    ensures var now := Stored(was, PACKET_NUMBER_INDEX, Framed(n, e)[..k]);
            && now[PACKET_NUMBER_INDEX] == n && now[PACKET_CNUMBER_INDEX] == (if k == 1 then 255 - m else 255 - n)
            && now[PACKET_DATA_INDEX..PACKET_DATA_INDEX + |d|] == Mixed(e, d, k)
            && now[4 + |d|] == (if k <= |d| + 2 then Crc(d) / 256 else Crc(e) / 256) && now[5 + |d|] == Crc(d) % 256
  {
    hide Crc;
    var now, f, g := Stored(was, PACKET_NUMBER_INDEX, Framed(n, e)[..k]), Framed(n, e), Framed(m, d);
    assert forall i :: 0 <= i < 4 + |d| ==> was[2 + i] == g[i];
    assert forall i :: 0 <= i < 4 + |d| ==> now[2 + i] == if i < k then f[i] else g[i];
    assert g[2 + |d|] == Crc(d) / 256 && g[3 + |d|] == Crc(d) % 256 && f[2 + |d|] == Crc(e) / 256;
    forall i | 0 <= i < |d|
      ensures now[4 + i] == Mixed(e, d, k)[i]
    {
      assert now[2 + (2 + i)] == if 2 + i < k then f[2 + i] else g[2 + i];
    }
  }

  lemma {:induction false} MixedNothing(e: seq<byte>, d: seq<byte>, k: nat)
    requires |e| == |d|
    ensures k <= 2 ==> Mixed(e, d, k) == d
    ensures k >= |d| + 2 ==> Mixed(e, d, k) == e
  {
  }

  lemma {:induction false} CutChecked(was: seq<byte>, m: byte, d: seq<byte>, n: byte, e: seq<byte>, k: nat, more: seq<Delivery>)
    requires |was| == BUFFER_SIZE && WfBlock(d) && |e| == |d| && 1 <= k <= |d| + 3
    requires was[2..6 + |d|] == Framed(m, d)
    ensures var t := ReceiveBody(was, |d|, [Got(Framed(n, e)[..k])] + more);
            && t.input == more && (t.status == HAL_OK <==> CutPasses(n, e, m, d, k))
            && (t.status == HAL_OK ==> && t.length == |e| && t.buf[PACKET_NUMBER_INDEX] == n
                                       && t.buf[PACKET_DATA_INDEX..PACKET_DATA_INDEX + |e|] == Mixed(e, d, k))
  {
    hide Crc, Mixed, Framed, Stored;
    var cut := Framed(n, e)[..k];
    CutStored(was, m, d, n, e, k);
    MixedNothing(e, d, k);
    var now := Stored(was, PACKET_NUMBER_INDEX, cut);
    assert ([Got(cut)] + more)[1..] == more;
    assert Sound(now, |d|) <==> CutPasses(n, e, m, d, k);
  }

  lemma {:induction false} AcceptedStored(buf: seq<byte>, input: seq<Delivery>)
    requires |buf| == BUFFER_SIZE && WholeBody(input) && Receive(buf, input).status == HAL_OK
    ensures var r := Receive(buf, input);
            && WfBlock(r.buf[PACKET_DATA_INDEX..PACKET_DATA_INDEX + r.length])
            && r.buf[2..6 + r.length] == Framed(r.buf[PACKET_NUMBER_INDEX], r.buf[PACKET_DATA_INDEX..PACKET_DATA_INDEX + r.length])
  {
    hide Crc, Framed;
    AcceptedArrived(buf, input);
    BodyReceived(buf, input);
    var r := Receive(buf, input);
    var body, size := Body(input).bytes, BodySize(input);
    assert r.buf == Stored(buf[0 := FirstByte(input[0])], PACKET_NUMBER_INDEX, body);
    assert r.buf[2..6 + size] == body;
  }

  /**
   * A packet with data e that is cut after k bytes of its body is checked against what the packet
   * before left behind: for any k the exact condition under which it is accepted, under its own
   * number, and the data it is accepted with.
   */
  lemma {:induction false} CutAccepted(buf: seq<byte>, input: seq<Delivery>, n: byte, e: seq<byte>, k: nat, more: seq<Delivery>)
    requires |buf| == BUFFER_SIZE && WholeBody(input) && Receive(buf, input).status == HAL_OK
    requires |e| == Receive(buf, input).length && 1 <= k <= |e| + 3
    ensures var r := Receive(buf, input);
            var m, d := r.buf[PACKET_NUMBER_INDEX], r.buf[PACKET_DATA_INDEX..PACKET_DATA_INDEX + |e|];
            var t := Receive(r.buf, [Got([StartOf(e)]), Got(Framed(n, e)[..k])] + more);
            && t.input == more && (t.status == HAL_OK <==> CutPasses(n, e, m, d, k))
            && (t.status == HAL_OK ==> && t.length == |e| && t.buf[PACKET_NUMBER_INDEX] == n
                                       && t.buf[PACKET_DATA_INDEX..PACKET_DATA_INDEX + |e|] == Mixed(e, d, k))
  {
    hide Crc, Mixed, Framed, Receive, ReceiveBody, CutPasses, Arrives, WholeBody;
    var r := Receive(buf, input);
    OkMeansSound(buf, input);
    AcceptedStored(buf, input);
    var m, d := r.buf[PACKET_NUMBER_INDEX], r.buf[PACKET_DATA_INDEX..PACKET_DATA_INDEX + |e|];
    var cut := Framed(n, e)[..k];
    var next := [Got([StartOf(e)]), Got(cut)] + more;
    assert next[1..] == [Got(cut)] + more;
    BodyReceived(r.buf, next);
    var was := r.buf[0 := StartOf(e)];
    assert was[2..6 + |d|] == r.buf[2..6 + |d|];
    CutChecked(was, m, d, n, e, k, more);
  }

  /** Cut right behind its complement it always passes, as the packet before; one or two bytes later only if those agree. */
  lemma {:induction false} CutEarly(n: byte, e: seq<byte>, m: byte, d: seq<byte>, k: nat)
    requires WfBlock(d) && |e| == |d| && 2 <= k <= 4
    ensures CutPasses(n, e, m, d, k) <==> e[..k - 2] == d[..k - 2]
    ensures e[..k - 2] == d[..k - 2] ==> Mixed(e, d, k) == d
  {
    hide Crc;
    if e[..k - 2] == d[..k - 2] {
      assert d[..k - 2] + d[k - 2..] == d;
    } else {
      var a, b := e[0], if k == 4 then e[1] else d[1];
      assert Mixed(e, d, k) == [] + [a, b] + d[2..] && d == [] + [d[0], d[1]] + d[2..];
      assert a != d[0] || b != d[1];
      CrcDiffers([], a, b, d[0], d[1], d[2..]);
    }
  }

  /** One turn with a packet that arrives as framed. */
  lemma {:induction false} FramedTurn(cfg: Config, s: Session, buf: seq<byte>, e: Event, more: seq<Delivery>) returns (next: seq<byte>)
    requires |buf| == BUFFER_SIZE && WfEvent(e) && e.Data? && s.code == None
    ensures var line := [Got([StartOf(e.data)]), Got(Framed(e.number, e.data))] + more;
            && |next| == BUFFER_SIZE && WholeBody(line) && Receive(buf, line) == Received(HAL_OK, |e.data|, next, more)
            && next[PACKET_NUMBER_INDEX] == e.number && next[PACKET_DATA_INDEX..PACKET_DATA_INDEX + |e.data|] == e.data
            && Download(cfg, s, buf, line) == Download(cfg, Step(cfg, s, e), next, more)
  {
    hide Step, Receive, Framed, WholeBody, StartOf;
    var line := [Got([StartOf(e.data)]), Got(Framed(e.number, e.data))] + more;
    FramedArrives(e, more);
    FramedAccepted(buf, e.number, e.data, more);
    next := Receive(buf, line).buf;
    DownloadTurn(cfg, s, buf, line);
  }

  /** The line: header and first block as framed, then two bytes of the second block's body. */
  function CutLine(header: seq<byte>, a: seq<byte>): seq<Delivery> {
    [Got([StartOf(header)]), Got(Framed(0, header))] + ([Got([StartOf(a)]), Got(Framed(1, a))] + [Got([StartOf(a)]), Got([2, 253])])
  }

  lemma {:induction false} CutNumber(a: seq<byte>)
    ensures |Framed(2, a)| >= 2 && Framed(2, a)[..2] == [2, 253]
  {
  }

  /**
   * So lost bytes, unlike lost packets, can spoil the file: whatever the second block was, the first
   * is written again in its place.
   */
  lemma {:induction false} CutWritten(cfg: Config, garbage: int, buf: seq<byte>, header: seq<byte>, a: seq<byte>)
    requires |buf| == BUFFER_SIZE && Accepting(cfg, garbage, header) && WfBlock(a)
    ensures var s := Download(cfg, Start(garbage), buf, CutLine(header, a));
            s.code == None && Blocks(s.writes) == [a, a]
  {
    hide Receive, Framed, Step, Download, Fails, DeclaredSize, Blocks, Crc, StartOf, CutPasses, Mixed;
    var last := [Got([StartOf(a)]), Got([2, 253])];
    var s0, blocks := Start(garbage), [a, a];
    var s1 := Step(cfg, s0, Data(0, header));
    HeaderTaken(cfg, garbage, header, blocks);
    var rest := [Got([StartOf(a)]), Got(Framed(1, a))] + last;
    var b1 := FramedTurn(cfg, s0, buf, Data(0, header), rest);
    BlockTaken(cfg, s1, blocks, 0);
    var s2 := Step(cfg, s1, Data(1, a));
    var b2 := FramedTurn(cfg, s1, b1, Data(1, a), last);
    CutNumber(a);
    assert last == [Got([StartOf(a)]), Got(Framed(2, a)[..2])] + [];
    CutAccepted(b1, rest, 2, a, 2, []);
    CutEarly(2, a, 1, a, 2);
    var r := Receive(b2, last);
    assert EventOf(r) == Data(2, a);
    DownloadTurn(cfg, s2, b2, last);
    BlockTaken(cfg, s2, blocks, 1);
    DownloadOver(cfg, Step(cfg, s2, Data(2, a)), r.buf, []);
    assert blocks[..2] == blocks;
  }
}
