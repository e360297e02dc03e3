/** What download_file leaves in the file, over every sequence of lost, repeated, damaged and reordered packets. */
module YmodemSession {
  import opened Bytes
  import opened ByteBits
  import Crc16
  import opened Ymodem

  ghost predicate WfEvents(events: seq<Event>) { forall e :: e in events ==> WfEvent(e) }

  /** The session after these events. */
  function Run(cfg: Config, s: Session, events: seq<Event>): Session
    requires WfEvents(events)
    decreases |events|
  {
    if events == [] then s else Step(cfg, Run(cfg, s, events[..|events| - 1]), events[|events| - 1])
  }

  lemma {:induction false} RunCons(cfg: Config, s: Session, e: Event, rest: seq<Event>)
    requires WfEvents([e] + rest) && WfEvents(rest) && WfEvent(e)
    ensures Run(cfg, s, [e] + rest) == Run(cfg, Step(cfg, s, e), rest)
    decreases |rest|
  {
    hide Step;
    var all := [e] + rest;
    if rest == [] {
      assert all[..|all| - 1] == [] && all[|all| - 1] == e;
      assert Run(cfg, s, []) == s;
    } else {
      assert all[..|all| - 1] == [e] + rest[..|rest| - 1];
      RunCons(cfg, s, e, rest[..|rest| - 1]);
    }
  }

  /** The events download_file meets on its line. */
  ghost function EventsOf(cfg: Config, s: Session, buf: seq<byte>, input: seq<Delivery>): (events: seq<Event>)
    requires |buf| == BUFFER_SIZE
    ensures WfEvents(events)
    decreases |input|
  {
    if s.code.Some? || input == [] then
      []
    else
      var r := Receive(buf, input);
      OkMeansSound(buf, input);
      Consumes(buf, input);
      [EventOf(r)] + EventsOf(cfg, Step(cfg, s, EventOf(r)), r.buf, r.input)
  }

  lemma {:induction false} RunNothing(cfg: Config, s: Session)
    ensures Run(cfg, s, []) == s
  {
  }

  /** So whatever holds of every run holds of every call. */
  lemma {:induction false} DownloadIsRun(cfg: Config, s: Session, buf: seq<byte>, input: seq<Delivery>)
    requires |buf| == BUFFER_SIZE
    ensures Download(cfg, s, buf, input) == Run(cfg, s, EventsOf(cfg, s, buf, input))
    decreases |input|
  {
    hide Step, Receive, EventOf, Run;
    if s.code.Some? || input == [] {
      RunNothing(cfg, s);
    } else {
      var r := Receive(buf, input);
      DownloadTurn(cfg, s, buf, input);
      var t := Step(cfg, s, EventOf(r));
      DownloadIsRun(cfg, t, r.buf, r.input);
      RunCons(cfg, s, EventOf(r), EventsOf(cfg, t, r.buf, r.input));
    }
  }

  // ----- the file

  function Blocks(writes: seq<Write>): (b: seq<seq<byte>>)
    ensures |b| == |writes|
  {
    seq(|writes|, i requires 0 <= i < |writes| => writes[i].data)
  }

  /** All bytes written, in the order of the calls. */
  function Content(writes: seq<Write>): seq<byte> { Flat(Blocks(writes)) }

  lemma {:induction false} ContentSnoc(writes: seq<Write>, w: Write)
    ensures Content(writes + [w]) == Content(writes) + w.data
  {
    var all := writes + [w];
    assert Blocks(all)[..|writes|] == Blocks(writes);
  }

  /** Each call starts where the calls before it ended. */
  ghost predicate Tiled(offset: int, writes: seq<Write>) {
    forall k :: 0 <= k < |writes| ==> writes[k].offset == Wrap32(offset + |Content(writes[..k])|)
  }

  lemma {:induction false} TiledSnoc(offset: int, writes: seq<Write>, w: Write)
    requires Tiled(offset, writes) && w.offset == Wrap32(offset + |Content(writes)|)
    ensures Tiled(offset, writes + [w])
  {
    hide Content, Wrap32;
    var all := writes + [w];
    forall k | 0 <= k < |all|
      ensures all[k].offset == Wrap32(offset + |Content(all[..k])|)
    {
      if k < |writes| {
        assert all[..k] == writes[..k];
      } else {
        assert all[..k] == writes;
      }
    }
  }

  lemma {:induction false} WrapSame(a: int, q: int)
    ensures Wrap32(a + 0x1_0000_0000 * q) == Wrap32(a)
  {
  }

  lemma {:induction false} WrapTwice(a: int, b: int)
    ensures Wrap32(a + Wrap32(b)) == Wrap32(a + b)
    ensures Wrap32(Wrap32(b) + a) == Wrap32(a + b)
  {
    var q := b / 0x1_0000_0000;
    assert a + b == a + b % 0x1_0000_0000 + 0x1_0000_0000 * q;
    WrapSame(a + b % 0x1_0000_0000, q);
  }

  ghost predicate Placed(cfg: Config, s: Session) {
    && Tiled(cfg.offset, s.writes)
    && s.flash == Wrap32(|Content(s.writes)|)
    && (s.code != Some(1) ==> s.len == Wrap32(|Content(s.writes)|))
  }

  lemma {:induction false} StepPlaced(cfg: Config, s: Session, e: Event)
    requires WfEvent(e) && Placed(cfg, s)
    ensures Placed(cfg, Step(cfg, s, e))
  {
    hide Content, Tiled, Wrap32, DeclaredSize, Fails;
    if e.Data? {
      var w := Write(Wrap32(cfg.offset + s.flash), e.data);
      WrapTwice(cfg.offset, |Content(s.writes)|);
      WrapTwice(|e.data|, |Content(s.writes)|);
      TiledSnoc(cfg.offset, s.writes, w);
      ContentSnoc(s.writes, w);
    }
  }

  lemma {:induction false} NothingWritten()
    ensures Content([]) == [] && forall offset :: Tiled(offset, [])
  {
  }

  /**
   * In every run the write calls tile the file from `offset`: no gap, no overlap, modulo the
   * 32-bit address; the position kept and the length reported are what was written.
   */
  lemma {:induction false} WritesTile(cfg: Config, garbage: int, events: seq<Event>)
    requires WfEvents(events)
    ensures var s := Run(cfg, Start(garbage), events);
            && Tiled(cfg.offset, s.writes) && s.flash == Wrap32(|Content(s.writes)|)
            && (s.code != Some(1) ==> s.len == Wrap32(|Content(s.writes)|))
    decreases |events|
  {
    hide Step, Tiled, Content;
    if events == [] {
      NothingWritten();
    } else {
      WritesTile(cfg, garbage, events[..|events| - 1]);
      StepPlaced(cfg, Run(cfg, Start(garbage), events[..|events| - 1]), events[|events| - 1]);
    }
  }

  // ----- the file and the sender's blocks

  /** How many packets have been accepted, headers and all: those that moved the expected number on. */
  ghost function Acks(cfg: Config, s: Session, events: seq<Event>): nat
    requires WfEvents(events)
    decreases |events|
  {
    if events == [] then
      0
    else
      var before := events[..|events| - 1];
      Acks(cfg, s, before) + (if Run(cfg, s, events).number != Run(cfg, s, before).number then 1 else 0)
  }

  /** Of every 256 packets accepted 255 are written: those numbered 0 are taken for headers. */
  predicate Counted(s: Session, acks: nat) {
    && s.number as int == acks % 256 && (s.begun <==> acks > 0)
    && |s.writes| == acks - (acks + 255) / 256
  }

  /** A packet is accepted, and then the data of all but the number 0 written, or nothing of this changes. */
  lemma {:induction false} AcceptedOrNot(cfg: Config, s: Session, e: Event)
    requires WfEvent(e)
    ensures var t := Step(cfg, s, e);
            if t.number == s.number then
              t.begun == s.begun && t.writes == s.writes
            else
              && e.Data? && e.number == s.number && t.number as int == (s.number + 1) % 256 && t.begun
              && t.writes == s.writes + (if s.number == 0 then [] else [Write(Wrap32(cfg.offset + s.flash), e.data)])
  {
    hide Wrap32, DeclaredSize, Fails;
  }

  lemma {:induction false} NextCounted(s: Session, t: Session, acks: nat)
    requires Counted(s, acks) && t.number as int == (s.number + 1) % 256 && t.begun
    requires |t.writes| == |s.writes| + (if s.number == 0 then 0 else 1)
    ensures Counted(t, acks + 1)
  {
  }

  lemma {:induction false} StepCounted(cfg: Config, s: Session, e: Event, acks: nat)
    requires WfEvent(e) && Counted(s, acks)
    ensures var t := Step(cfg, s, e); Counted(t, if t.number != s.number then acks + 1 else acks)
  {
    hide Step;
    AcceptedOrNot(cfg, s, e);
    var t := Step(cfg, s, e);
    if t.number != s.number {
      NextCounted(s, t, acks);
    }
  }

  lemma {:induction false} NothingCounted(garbage: int)
    ensures Counted(Start(garbage), 0)
  {
  }

  lemma {:induction false} RunCounted(cfg: Config, garbage: int, events: seq<Event>)
    requires WfEvents(events)
    ensures Counted(Run(cfg, Start(garbage), events), Acks(cfg, Start(garbage), events))
    decreases |events|
  {
    hide Step, Counted;
    if events == [] {
      NothingCounted(garbage);
    } else {
      var before := events[..|events| - 1];
      RunCounted(cfg, garbage, before);
      StepCounted(cfg, Run(cfg, Start(garbage), before), events[|events| - 1], Acks(cfg, Start(garbage), before));
    }
  }

  /** Write k was made for the packet events[at], which carried number k % 255 + 1. */
  ghost predicate MadeFor(cfg: Config, garbage: int, events: seq<Event>, k: nat, w: Write, at: nat)
    requires WfEvents(events)
  {
    at < |events| && events[at] == Data(k % 255 + 1, w.data) && Acks(cfg, Start(garbage), events[..at]) == k + k / 255 + 1
  }

  lemma {:induction false} DivBy255(k: nat, q: nat, r: nat)
    requires k == 255 * q + r && r < 255
    ensures k / 255 == q && k % 255 == r
  {
  }

  lemma {:induction false} NumberOfWrite(s: Session, acks: nat)
    requires Counted(s, acks) && s.number != 0
    ensures var k := |s.writes|; s.number as int == k % 255 + 1 && acks == k + k / 255 + 1
  {
    var q, r := acks / 256, acks % 256;
    assert acks == 256 * q + r;
    assert (acks + 255) / 256 == q + 1;
    DivBy255(|s.writes|, q, r - 1);
  }

  /**
   * In every run the write calls carry, in the order of their arrival, the data of packets numbered
   * 1, 2, ..., 255, 1, 2, ...: each was the next number when it came.
   */
  lemma {:induction false} NumberedWrites(cfg: Config, garbage: int, events: seq<Event>) returns (at: seq<nat>)
    requires WfEvents(events)
    ensures var writes := Run(cfg, Start(garbage), events).writes;
            && |at| == |writes|
            && (forall k | 0 <= k < |at| :: MadeFor(cfg, garbage, events, k, writes[k], at[k]))
            && (forall j, k | 0 <= j < k < |at| :: at[j] < at[k])
    decreases |events|
  {
    hide Step, Acks, Counted;
    if events == [] {
      at := [];
    } else {
      var before, e := events[..|events| - 1], events[|events| - 1];
      var s, acks := Run(cfg, Start(garbage), before), Acks(cfg, Start(garbage), before);
      at := NumberedWrites(cfg, garbage, before);
      forall k | 0 <= k < |at|
        ensures MadeFor(cfg, garbage, events, k, s.writes[k], at[k])
      {
        assert MadeFor(cfg, garbage, before, k, s.writes[k], at[k]);
        assert before[..at[k]] == events[..at[k]];
      }
      RunCounted(cfg, garbage, before);
      AcceptedOrNot(cfg, s, e);
      if Step(cfg, s, e).writes != s.writes {
        NumberOfWrite(s, acks);
        at := at + [|before|];
      }
    }
  }

  /** The packet carries one of the blocks, under the number of that block. */
  ghost predicate Carries(e: Event, blocks: seq<seq<byte>>, j: nat) {
    e.Data? && j < |blocks| && e.number as int == (j + 1) % 256 && e.data == blocks[j]
  }

  ghost predicate NotEarly(cfg: Config, garbage: int, events: seq<Event>, i: nat, blocks: seq<seq<byte>>)
    requires WfEvents(events) && i < |events|
  {
    exists j: nat :: Carries(events[i], blocks, j) && (j < 256 || Acks(cfg, Start(garbage), events[..i]) >= 256)
  }

  /**
   * Every packet that was accepted is the sender's own, and none of the 257th block or a later one
   * before 256 packets were accepted. Packets numbered 0 (the header, the 256th block)
   * may hold anything.
   */
  ghost predicate Genuine(cfg: Config, garbage: int, events: seq<Event>, blocks: seq<seq<byte>>)
    requires WfEvents(events)
  {
    forall i :: 0 <= i < |events| && events[i].Data? && events[i].number != 0 ==> NotEarly(cfg, garbage, events, i, blocks)
  }

  /** With at most 256 blocks that is a matter of each packet alone: any order, any loss, any repetition. */
  lemma {:induction false} ShortGenuine(cfg: Config, garbage: int, events: seq<Event>, blocks: seq<seq<byte>>)
    requires WfEvents(events) && |blocks| <= 256
    requires forall e :: e in events && e.Data? && e.number != 0 ==> e.number <= |blocks| && e.data == blocks[e.number - 1]
    ensures Genuine(cfg, garbage, events, blocks)
  {
    hide Acks;
    forall i | 0 <= i < |events| && events[i].Data? && events[i].number != 0
      ensures NotEarly(cfg, garbage, events, i, blocks)
    {
      var e := events[i];
      assert e in events;
      assert Carries(e, blocks, e.number - 1);
    }
  }

  lemma {:induction false} SmallNumbers(j: nat, k: nat)
    requires k < 255 && (j + 1) % 256 == k % 255 + 1 && (j < 256 || k + k / 255 + 1 >= 256)
    ensures j == k
  {
  }

  lemma {:induction false} BlockOfWrite(cfg: Config, garbage: int, events: seq<Event>, blocks: seq<seq<byte>>,
                                        k: nat, w: Write, at: nat)
    requires WfEvents(events) && Genuine(cfg, garbage, events, blocks) && MadeFor(cfg, garbage, events, k, w, at)
    ensures k < 255 ==> k < |blocks| && w.data == blocks[k]
    ensures exists j: nat :: j < |blocks| && (j + 1) % 256 == k % 255 + 1 && w.data == blocks[j]
  {
    hide Acks, Run;
    assert NotEarly(cfg, garbage, events, at, blocks);
    var j: nat :| Carries(events[at], blocks, j) && (j < 256 || Acks(cfg, Start(garbage), events[..at]) >= 256);
    if k < 255 {
      SmallNumbers(j, k);
    }
  }

  lemma {:induction false} FlatSplit(blocks: seq<seq<byte>>, k: nat)
    requires k <= |blocks|
    ensures Flat(blocks) == Flat(blocks[..k]) + Flat(blocks[k..])
    decreases |blocks|
  {
    var n := |blocks|;
    if k == n {
      assert blocks[..n] == blocks && blocks[n..] == [];
    } else {
      FlatSplit(blocks[..n - 1], k);
      assert blocks[..n - 1][..k] == blocks[..k];
      assert blocks[k..][..n - k - 1] == blocks[..n - 1][k..];
    }
  }

  /** For as long as the file is shorter than 255 blocks or at most 255 packets were written. */
  predicate InReach(blocks: seq<seq<byte>>, writes: seq<Write>) { |blocks| < 255 || |writes| <= 255 }

  /**
   * The calls carried the first blocks of the sender, each once and in order, and the file is a
   * prefix of the sender's stream.
   */
  lemma {:induction false} RunIsPrefix(cfg: Config, garbage: int, events: seq<Event>, blocks: seq<seq<byte>>)
    requires WfEvents(events) && Genuine(cfg, garbage, events, blocks)
    requires InReach(blocks, Run(cfg, Start(garbage), events).writes)
    ensures var writes := Run(cfg, Start(garbage), events).writes;
            && |writes| <= |blocks| && Blocks(writes) == blocks[..|writes|] && Content(writes) <= Flat(blocks)
  {
    hide Run, Flat, MadeFor, Genuine;
    var writes := Run(cfg, Start(garbage), events).writes;
    var at := NumberedWrites(cfg, garbage, events);
    forall k | 0 <= k < |writes| && k < 255
      ensures k < |blocks| && writes[k].data == blocks[k]
    {
      BlockOfWrite(cfg, garbage, events, blocks, k, writes[k], at[k]);
    }
    if |writes| >= 255 {
      assert writes[254].data == blocks[254];
    }
    assert |writes| <= 255;
    if writes != [] {
      assert writes[|writes| - 1].data == blocks[|writes| - 1];
    }
    assert Blocks(writes) == blocks[..|writes|];
    FlatSplit(blocks, |writes|);
  }

  lemma {:induction false} BlockAt(writes: seq<Write>, k: nat)
    requires k < |writes|
    ensures Blocks(writes)[k] == writes[k].data
  {
  }

  /**
   * The bound is exact, unless one of the blocks 257, 513, ... or the first is also the 256th.
   */
  lemma {:induction false} RunPrefixExact(cfg: Config, garbage: int, events: seq<Event>, blocks: seq<seq<byte>>)
    requires WfEvents(events) && Genuine(cfg, garbage, events, blocks)
    requires |blocks| > 255 ==> forall j :: 0 <= j < |blocks| && j % 256 == 0 ==> blocks[j] != blocks[255]
    ensures var writes := Run(cfg, Start(garbage), events).writes;
            Blocks(writes) <= blocks <==> |writes| <= 255
  {
    hide Run, MadeFor, Genuine, Blocks, Flat;
    var writes := Run(cfg, Start(garbage), events).writes;
    if |writes| <= 255 {
      RunIsPrefix(cfg, garbage, events, blocks);
    } else {
      var at := NumberedWrites(cfg, garbage, events);
      BlockOfWrite(cfg, garbage, events, blocks, 255, writes[255], at[255]);
      BlockAt(writes, 255);
      var j: nat :| j < |blocks| && (j + 1) % 256 == 1 && writes[255].data == blocks[j];
      assert j % 256 == 0;
    }
  }

  // ----- what a return value of 0 means

  /** The three ways to return 0: an end of transmission, an empty header, a header over the limit. */
  predicate ReturnsZero(cfg: Config, s: Session, e: Event)
    requires WfEvent(e)
  {
    s.code == None && (e.EndOfFile? || (e.Data? && e.number == 0 && s.number == 0 &&
                                        (e.data[0] == 0 || DeclaredSize(e.data, s.filesize) > cfg.limit)))
  }

  lemma {:induction false} StepToZero(cfg: Config, s: Session, e: Event)
    requires WfEvent(e)
    ensures Step(cfg, s, e).code == Some(0) <==> s.code == Some(0) || ReturnsZero(cfg, s, e)
  {
    hide Wrap32, DeclaredSize, Fails;
  }

  ghost predicate ZeroAt(cfg: Config, garbage: int, events: seq<Event>, i: nat)
    requires WfEvents(events)
  {
    i < |events| && ReturnsZero(cfg, Run(cfg, Start(garbage), events[..i]), events[i])
  }

  lemma {:induction false} NoZero(cfg: Config, garbage: int)
    ensures Run(cfg, Start(garbage), []).code == None && forall i: nat :: !ZeroAt(cfg, garbage, [], i)
  {
  }

  lemma {:induction false} ZeroBefore(cfg: Config, garbage: int, events: seq<Event>, i: nat)
    requires WfEvents(events) && events != []
    ensures var n := |events| - 1;
            && (ZeroAt(cfg, garbage, events, i) <==>
                if i == n then ReturnsZero(cfg, Run(cfg, Start(garbage), events[..n]), events[n])
                else ZeroAt(cfg, garbage, events[..n], i))
            && !ZeroAt(cfg, garbage, events[..n], n)
  {
    hide ReturnsZero, Run;
    if i < |events| - 1 {
      assert events[..|events| - 1][..i] == events[..i];
    }
  }

  lemma {:induction false} RunSnoc(cfg: Config, s: Session, events: seq<Event>, e: Event)
    requires WfEvents(events) && WfEvents(events + [e]) && WfEvent(e)
    ensures Run(cfg, s, events + [e]) == Step(cfg, Run(cfg, s, events), e)
  {
    hide Step;
    assert (events + [e])[..|events|] == events;
  }

  /** A call returns 0 if and only if one of these happened: none needs the file to be whole. */
  lemma {:induction false} ZeroReturned(cfg: Config, garbage: int, events: seq<Event>)
    requires WfEvents(events)
    ensures Run(cfg, Start(garbage), events).code == Some(0) <==>
            exists i: nat :: ZeroAt(cfg, garbage, events, i)
    decreases |events|
  {
    hide Step, ReturnsZero, ZeroAt, Run;
    if events == [] {
      NoZero(cfg, garbage);
    } else {
      var n := |events| - 1;
      var before := events[..n];
      ZeroReturned(cfg, garbage, before);
      assert before + [events[n]] == events;
      RunSnoc(cfg, Start(garbage), before, events[n]);
      StepToZero(cfg, Run(cfg, Start(garbage), before), events[n]);
      ZeroBefore(cfg, garbage, events, n);
      forall i: nat | i != n
        ensures ZeroAt(cfg, garbage, events, i) <==> ZeroAt(cfg, garbage, before, i)
      {
        ZeroBefore(cfg, garbage, events, i);
      }
    }
  }

  lemma {:induction false} RunOne(cfg: Config, s: Session, e: Event)
    requires WfEvent(e) && WfEvents([e])
    ensures Run(cfg, s, [e]) == Step(cfg, s, e)
  {
    hide Step;
    assert [e][..0] == [];
    assert Run(cfg, s, []) == s;
  }

  /** A file over the limit is refused with the value of success. */
  lemma {:induction false} LimitReturnsZero(cfg: Config, garbage: int, header: seq<byte>)
    requires WfEvents([Data(0, header)]) && |header| >= PACKET_SIZE
    requires header[0] != 0 && DeclaredSize(header, garbage) > cfg.limit
    ensures var s := Run(cfg, Start(garbage), [Data(0, header)]);
            s.code == Some(0) && s.writes == [] && s.len == 0 && s.replies == [CA, CA, ACK, CRC16]
  {
    hide Wrap32, DeclaredSize, Fails;
    RunOne(cfg, Start(garbage), Data(0, header));
  }

  /** An end of transmission as the very first byte is a success with nothing written. */
  lemma {:induction false} EarlyEndReturnsZero(cfg: Config, garbage: int)
    ensures var s := Run(cfg, Start(garbage), [EndOfFile]);
            s.code == Some(0) && s.writes == [] && s.len == 0
  {
    RunOne(cfg, Start(garbage), EndOfFile);
  }

  /**
   * With the value 0 the file is whole if and only if the length handed back is that of the file.
   */
  lemma {:induction false} LengthTells(cfg: Config, garbage: int, events: seq<Event>, blocks: seq<seq<byte>>)
    requires WfEvents(events) && Genuine(cfg, garbage, events, blocks)
    requires InReach(blocks, Run(cfg, Start(garbage), events).writes)
    requires Run(cfg, Start(garbage), events).code == Some(0) && |Flat(blocks)| < 0x1_0000_0000
    ensures var s := Run(cfg, Start(garbage), events);
            Content(s.writes) == Flat(blocks) <==> s.len == |Flat(blocks)|
  {
    hide Run, Content, Flat, Genuine, Blocks;
    var s := Run(cfg, Start(garbage), events);
    RunIsPrefix(cfg, garbage, events, blocks);
    WritesTile(cfg, garbage, events);
    assert Content(s.writes) == Flat(blocks)[..|Content(s.writes)|];
  }

  // ----- bad packets in a row

  lemma {:induction false} BadTurn(cfg: Config, s: Session)
    requires s.code == None
    ensures var t := Step(cfg, s, Bad);
            && t.errors == (if s.begun then s.errors + 1 else s.errors) && t.begun == s.begun
            && t.writes == s.writes && t.number == s.number
            && t.code == (if t.errors > MAX_ERRORS then Some(1) else None)
  {
  }

  function Bads(j: nat): (events: seq<Event>)
    ensures |events| == j && WfEvents(events)
  {
    seq(j, _ => Bad)
  }

  lemma {:induction false} Ended(cfg: Config, s: Session)
    requires s.code.Some?
    ensures Step(cfg, s, Bad) == s
  {
  }

  /**
   * Once a session has begun, the sixth bad packet or timeout in a row ends the call with 1, and
   * fewer lose nothing; before it has begun the receiver asks for ever.
   */
  lemma {:induction false} BadPackets(cfg: Config, s: Session, j: nat)
    requires s.code == None && s.errors == 0
    ensures var t := Run(cfg, s, Bads(j));
            && t.code == (if s.begun && j > 5 then Some(1) else None)
            && t.writes == s.writes && t.number == s.number
            && (t.code == None ==> t.errors == (if s.begun then j else 0) && t.begun == s.begun)
    decreases j
  {
    hide Step;
    if j > 0 {
      var t := Run(cfg, s, Bads(j - 1));
      BadPackets(cfg, s, j - 1);
      assert Bads(j)[..j - 1] == Bads(j - 1) && Bads(j)[j - 1] == Bad;
      if t.code == None {
        BadTurn(cfg, t);
      } else {
        Ended(cfg, t);
      }
    }
  }

  // ----- 255 blocks and more

  predicate WfBlock(b: seq<byte>) { |b| == PACKET_SIZE || |b| == PACKET_1K_SIZE }

  ghost predicate WfBlocks(blocks: seq<seq<byte>>) { forall k :: 0 <= k < |blocks| ==> WfBlock(blocks[k]) }

  /** The packets of a sender that nothing disturbs, numbered modulo 256. */
  ghost function InOrder(header: seq<byte>, blocks: seq<seq<byte>>): (events: seq<Event>)
    requires WfBlock(header) && WfBlocks(blocks)
    ensures |events| == |blocks| + 1 && WfEvents(events)
  {
    seq(|blocks| + 1, k requires 0 <= k <= |blocks| => Data(k % 256, if k == 0 then header else blocks[k - 1]))
  }

  /** A header with a name and a size within the limit, and a file system that accepts every write. */
  ghost predicate Accepting(cfg: Config, garbage: int, header: seq<byte>) {
    && WfBlock(header) && header[0] != 0 && DeclaredSize(header, garbage) <= cfg.limit
    && forall k: nat :: !Fails(cfg, k)
  }

  lemma {:induction false} InOrderSnoc(header: seq<byte>, blocks: seq<seq<byte>>, k: nat)
    requires WfBlock(header) && WfBlocks(blocks) && k < |blocks|
    ensures InOrder(header, blocks)[..k + 2] == InOrder(header, blocks)[..k + 1] + [Data((k + 1) % 256, blocks[k])]
  {
  }

  ghost predicate Written(s: Session, blocks: seq<seq<byte>>, k: nat) {
    && k <= |blocks| && s.code == None && s.begun && s.number as int == (k + 1) % 256
    && Blocks(s.writes) == blocks[..k]
  }

  lemma {:induction false} HeaderTaken(cfg: Config, garbage: int, header: seq<byte>, blocks: seq<seq<byte>>)
    requires Accepting(cfg, garbage, header)
    ensures Written(Step(cfg, Start(garbage), Data(0, header)), blocks, 0)
  {
    hide Wrap32, DeclaredSize, Fails;
  }

  lemma {:induction false} BlocksSnoc(writes: seq<Write>, w: Write, blocks: seq<seq<byte>>)
    requires |writes| < |blocks| && Blocks(writes) == blocks[..|writes|] && w.data == blocks[|writes|]
    ensures Blocks(writes + [w]) == blocks[..|writes| + 1]
  {
    var all := writes + [w];
    assert Blocks(all)[..|writes|] == Blocks(writes);
    assert Blocks(all) == Blocks(all)[..|writes|] + [w.data];
  }

  lemma {:induction false} BlockTaken(cfg: Config, s: Session, blocks: seq<seq<byte>>, k: nat)
    requires Written(s, blocks, k) && k < |blocks| && k < 255 && !Fails(cfg, |s.writes|)
    requires WfEvent(Data((k + 1) % 256, blocks[k]))
    ensures Written(Step(cfg, s, Data((k + 1) % 256, blocks[k])), blocks, k + 1)
  {
    hide Wrap32, DeclaredSize, Fails, Blocks;
    BlocksSnoc(s.writes, Write(Wrap32(cfg.offset + s.flash), blocks[k]), blocks);
  }

  lemma {:induction false} FirstBlocks(cfg: Config, garbage: int, header: seq<byte>, blocks: seq<seq<byte>>, k: nat)
    requires Accepting(cfg, garbage, header) && WfBlocks(blocks) && k <= |blocks| && k <= 255
    ensures Written(Run(cfg, Start(garbage), InOrder(header, blocks)[..k + 1]), blocks, k)
    decreases k
  {
    hide Step, Run, Written, Fails, DeclaredSize;
    var all := InOrder(header, blocks);
    if k == 0 {
      assert all[..1] == [] + [Data(0, header)];
      RunNothing(cfg, Start(garbage));
      RunSnoc(cfg, Start(garbage), [], Data(0, header));
      HeaderTaken(cfg, garbage, header, blocks);
    } else {
      FirstBlocks(cfg, garbage, header, blocks, k - 1);
      var s := Run(cfg, Start(garbage), all[..k]);
      InOrderSnoc(header, blocks, k - 1);
      RunSnoc(cfg, Start(garbage), all[..k], Data(k % 256, blocks[k - 1]));
      BlockTaken(cfg, s, blocks, k - 1);
    }
  }

  /** How many bytes of data the events carry. */
  function Volume(events: seq<Event>): nat {
    if events == [] then 0
    else Volume(events[..|events| - 1]) + (if events[|events| - 1].Data? then |events[|events| - 1].data| else 0)
  }

  lemma {:induction false} StepGrows(cfg: Config, s: Session, e: Event)
    requires WfEvent(e)
    ensures |Content(Step(cfg, s, e).writes)| <= |Content(s.writes)| + (if e.Data? then |e.data| else 0)
  {
    hide Content, Wrap32, DeclaredSize, Fails;
    if e.Data? {
      ContentSnoc(s.writes, Write(Wrap32(cfg.offset + s.flash), e.data));
    }
  }

  lemma {:induction false} RunGrows(cfg: Config, s: Session, events: seq<Event>, k: nat)
    requires WfEvents(events) && k <= |events|
    ensures |Content(Run(cfg, s, events).writes)| + Volume(events[..k]) <= |Content(Run(cfg, s, events[..k]).writes)| + Volume(events)
    decreases |events|
  {
    hide Step, Content;
    var n := |events|;
    if k == n {
      assert events[..k] == events;
    } else {
      RunGrows(cfg, s, events[..n - 1], k);
      assert events[..n - 1][..k] == events[..k];
      StepGrows(cfg, Run(cfg, s, events[..n - 1]), events[n - 1]);
    }
  }

  lemma {:induction false} VolumeInOrder(header: seq<byte>, blocks: seq<seq<byte>>, k: nat)
    requires WfBlock(header) && WfBlocks(blocks) && k <= |blocks|
    ensures Volume(InOrder(header, blocks)[..k + 1]) == |header| + |Flat(blocks[..k])|
    decreases k
  {
    var all := InOrder(header, blocks);
    if k == 0 {
      assert all[..1] == [Data(0, header)];
      assert Volume([]) == 0 && [Data(0, header)][..0] == [];
      assert blocks[..0] == [];
    } else {
      VolumeInOrder(header, blocks, k - 1);
      InOrderSnoc(header, blocks, k - 1);
      assert all[..k + 1][..k] == all[..k];
      assert blocks[..k][..k - 1] == blocks[..k - 1];
    }
  }

  lemma {:induction false} HeaderWritesNothing(cfg: Config, s: Session, data: seq<byte>)
    requires WfEvent(Data(0, data)) && s.number == 0
    ensures Step(cfg, s, Data(0, data)).writes == s.writes
  {
    hide Wrap32, DeclaredSize, Fails;
  }

  lemma {:induction false} FlatStep(blocks: seq<seq<byte>>, k: nat)
    requires k < |blocks|
    ensures Flat(blocks[..k + 1]) == Flat(blocks[..k]) + blocks[k]
  {
    assert blocks[..k + 1][..k] == blocks[..k];
  }

  /** The 256th block goes missing: its number is 0 again, and the receiver takes it for a header. */
  lemma {:induction false} BlockMissing(cfg: Config, garbage: int, header: seq<byte>, blocks: seq<seq<byte>>)
    requires Accepting(cfg, garbage, header) && WfBlocks(blocks) && |blocks| > 255
    ensures |Content(Run(cfg, Start(garbage), InOrder(header, blocks)).writes)| < |Flat(blocks)|
  {
    hide Step, Run, Flat, Volume, Fails, DeclaredSize, Blocks;
    var all := InOrder(header, blocks);
    var s := Start(garbage);
    FirstBlocks(cfg, garbage, header, blocks, 255);
    InOrderSnoc(header, blocks, 255);
    RunSnoc(cfg, s, all[..256], Data(0, blocks[255]));
    HeaderWritesNothing(cfg, Run(cfg, s, all[..256]), blocks[255]);
    RunGrows(cfg, s, all, 257);
    VolumeInOrder(header, blocks, 256);
    VolumeInOrder(header, blocks, |blocks|);
    assert all[..|blocks| + 1] == all && blocks[..|blocks|] == blocks;
    FlatStep(blocks, 255);
  }

  /** An undisturbed transfer delivers the whole file if and only if it has at most 255 blocks. */
  lemma {:induction false} WholeFileIff(cfg: Config, garbage: int, header: seq<byte>, blocks: seq<seq<byte>>)
    requires Accepting(cfg, garbage, header) && WfBlocks(blocks)
    ensures Content(Run(cfg, Start(garbage), InOrder(header, blocks)).writes) == Flat(blocks) <==> |blocks| <= 255
  {
    hide Step, Run, Flat, Volume, Fails, DeclaredSize, Blocks;
    var all := InOrder(header, blocks);
    if |blocks| <= 255 {
      FirstBlocks(cfg, garbage, header, blocks, |blocks|);
      assert all[..|blocks| + 1] == all && blocks[..|blocks|] == blocks;
    } else {
      BlockMissing(cfg, garbage, header, blocks);
    }
  }

  /** The same with the header and the first block once more at the end. */
  ghost function Repeated(header: seq<byte>, blocks: seq<seq<byte>>): (events: seq<Event>)
    requires WfBlock(header) && WfBlocks(blocks) && blocks != []
    ensures WfEvents(events)
  {
    InOrder(header, blocks) + [Data(0, header)] + [Data(1, blocks[0])]
  }

  lemma {:induction false} RepeatedNumbers(header: seq<byte>, blocks: seq<seq<byte>>, i: nat)
    requires WfBlock(header) && WfBlocks(blocks) && |blocks| == 255 && i < |Repeated(header, blocks)|
    ensures var e := Repeated(header, blocks)[i]; e.Data? && (e.number != 0 ==> e.data == blocks[e.number - 1])
  {
  }

  lemma {:induction false} RepeatGenuine(cfg: Config, garbage: int, header: seq<byte>, blocks: seq<seq<byte>>)
    requires WfBlock(header) && WfBlocks(blocks) && |blocks| == 255
    ensures Genuine(cfg, garbage, Repeated(header, blocks), blocks)
  {
    hide Genuine, Run, Repeated;
    var events := Repeated(header, blocks);
    forall e | e in events && e.Data? && e.number != 0
      ensures e.number <= |blocks| && e.data == blocks[e.number - 1]
    {
      var k :| 0 <= k < |events| && events[k] == e;
      RepeatedNumbers(header, blocks, k);
    }
    ShortGenuine(cfg, garbage, Repeated(header, blocks), blocks);
  }

  lemma {:induction false} ContentIs(writes: seq<Write>)
    ensures Content(writes) == Flat(Blocks(writes))
  {
  }

  lemma {:induction false} BlocksAppend(writes: seq<Write>, w: Write)
    ensures Blocks(writes + [w]) == Blocks(writes) + [w.data]
  {
  }

  lemma {:induction false} AgainTaken(cfg: Config, s: Session, header: seq<byte>, blocks: seq<seq<byte>>)
    requires WfEvent(Data(0, header)) && |blocks| == 255 && WfEvent(Data(1, blocks[0]))
    requires s.code == None && s.number == 0 && (forall k: nat :: !Fails(cfg, k)) && header[0] != 0
    requires DeclaredSize(header, s.filesize) <= cfg.limit && Blocks(s.writes) == blocks
    ensures var writes := Step(cfg, Step(cfg, s, Data(0, header)), Data(1, blocks[0])).writes;
            Blocks(writes) == blocks + [blocks[0]] && Content(writes) == Flat(blocks) + blocks[0]
  {
    hide Wrap32, DeclaredSize, Fails, Content, Blocks;
    var t := Step(cfg, s, Data(0, header));
    var w := Write(Wrap32(cfg.offset + t.flash), blocks[0]);
    ContentSnoc(t.writes, w);
    assert Content(s.writes) == Flat(blocks) by { ContentIs(s.writes); }
    BlocksAppend(s.writes, w);
  }

  /** What a header declares does not depend on what was declared before, unless it declares nothing. */
  lemma {:induction false} DeclaredAgain(data: seq<byte>, was: int)
    requires |data| >= PACKET_SIZE
    ensures DeclaredSize(data, DeclaredSize(data, was)) == DeclaredSize(data, was)
  {
    hide NumberIn;
  }

  lemma {:induction false} HeaderHeld(cfg: Config, garbage: int, header: seq<byte>)
    requires Accepting(cfg, garbage, header)
    ensures Step(cfg, Start(garbage), Data(0, header)).filesize == DeclaredSize(header, garbage)
  {
    hide Wrap32, DeclaredSize, Fails;
  }

  lemma {:induction false} DataHolds(cfg: Config, s: Session, n: byte, data: seq<byte>)
    requires WfEvent(Data(n, data)) && n != 0
    ensures Step(cfg, s, Data(n, data)).filesize == s.filesize
  {
    hide Wrap32, DeclaredSize, Fails;
  }

  /** The size of the header is what the session holds for the whole of the run. */
  lemma {:induction false} SizeHeld(cfg: Config, garbage: int, header: seq<byte>, blocks: seq<seq<byte>>, k: nat)
    requires Accepting(cfg, garbage, header) && WfBlocks(blocks) && k <= |blocks| && k <= 255
    ensures Run(cfg, Start(garbage), InOrder(header, blocks)[..k + 1]).filesize == DeclaredSize(header, garbage)
    decreases k
  {
    hide Step, Run, Fails, DeclaredSize;
    var all := InOrder(header, blocks);
    if k == 0 {
      assert all[..1] == [] + [Data(0, header)];
      RunNothing(cfg, Start(garbage));
      RunSnoc(cfg, Start(garbage), [], Data(0, header));
      HeaderHeld(cfg, garbage, header);
    } else {
      SizeHeld(cfg, garbage, header, blocks, k - 1);
      InOrderSnoc(header, blocks, k - 1);
      RunSnoc(cfg, Start(garbage), all[..k], Data(k % 256, blocks[k - 1]));
      DataHolds(cfg, Run(cfg, Start(garbage), all[..k]), k % 256, blocks[k - 1]);
    }
  }

  /**
   * With exactly 255 blocks a late repetition of the header and the first block is written again:
   * the file is longer than what was sent.
   */
  lemma {:induction false} RepeatWritten(cfg: Config, garbage: int, header: seq<byte>, blocks: seq<seq<byte>>)
    requires Accepting(cfg, garbage, header) && WfBlocks(blocks) && |blocks| == 255
    ensures Genuine(cfg, garbage, Repeated(header, blocks), blocks)
    ensures var writes := Run(cfg, Start(garbage), Repeated(header, blocks)).writes;
            Blocks(writes) == blocks + [blocks[0]] && Content(writes) == Flat(blocks) + blocks[0]
  {
    hide Step, Run, Flat, Fails, DeclaredSize, Blocks, Genuine;
    var all := InOrder(header, blocks);
    var s0 := Start(garbage);
    FirstBlocks(cfg, garbage, header, blocks, 255);
    assert all[..256] == all && blocks[..255] == blocks;
    RepeatGenuine(cfg, garbage, header, blocks);
    RunSnoc(cfg, s0, all, Data(0, header));
    RunSnoc(cfg, s0, all + [Data(0, header)], Data(1, blocks[0]));
    SizeHeld(cfg, garbage, header, blocks, 255);
    DeclaredAgain(header, garbage);
    AgainTaken(cfg, Run(cfg, s0, all), header, blocks);
  }

  /** A packet met twice in a row, as a failed read makes it appear, is refused the second time. */
  lemma {:induction false} RepeatRefused(cfg: Config, s: Session, e: Event)
    requires WfEvent(e) && e.Data?
    ensures var t := Step(cfg, s, e);
            Step(cfg, t, e) == if t.code.Some? then t else t.(errors := 0, replies := t.replies + [NAK])
  {
    hide Wrap32, DeclaredSize, Fails;
  }

  // ----- damaged packets

  lemma {:induction false} SameWord(v: bv16, w: bv16)
    requires v as nat == w as nat
    ensures v == w
  {
    assert (v as nat) as bv16 == v && (w as nat) as bv16 == w;
  }

  lemma {:induction false} CrcDiffers(p: seq<byte>, a: byte, b: byte, c: byte, d: byte, q: seq<byte>)
    requires a != c || b != d
    ensures Crc(p + [a, b] + q) != Crc(p + [c, d] + q)
  {
    hide BitsOf, ToBits, Crc16.Augmented, Crc16.StepAll;
    BitsJoin(p, a, b, q);
    BitsJoin(p, c, d, q);
    var x, y := ToBits(p + [a, b] + q), ToBits(p + [c, d] + q);
    Crc16.SerialIsTable(x);
    Crc16.SerialIsTable(y);
    if BitsOf(a) == BitsOf(c) && BitsOf(b) == BitsOf(d) {
      BitsInjective(a, c);
      BitsInjective(b, d);
    } else {
      Crc16.TwoBytesDetected(0, ToBits(p), BitsOf(a), BitsOf(b), BitsOf(c), BitsOf(d), ToBits(q));
      if Crc(p + [a, b] + q) == Crc(p + [c, d] + q) {
        SameWord(Crc16.Augmented(x), Crc16.Augmented(y));
      }
    }
  }

  /** The packet as it arrives with other data under the sender's CRC. */
  function Damaged(number: byte, data: seq<byte>, crc: nat): seq<byte>
    requires crc < 0x1_0000
  {
    [number, 255 - number] + data + [crc / 256, crc % 256]
  }

  lemma {:induction false} DamagedStored(buf: seq<byte>, number: byte, data: seq<byte>, crc: nat)
    requires |buf| == BUFFER_SIZE && (|data| == PACKET_SIZE || |data| == PACKET_1K_SIZE) && crc < 0x1_0000
    ensures var now := Stored(buf, PACKET_NUMBER_INDEX, Damaged(number, data, crc));
            && now[PACKET_DATA_INDEX..PACKET_DATA_INDEX + |data|] == data
            && now[PACKET_DATA_INDEX + |data|] as int * 256 + now[PACKET_DATA_INDEX + |data| + 1] == crc
  {
    hide Crc;
    var s := Damaged(number, data, crc);
    var now := Stored(buf, PACKET_NUMBER_INDEX, s);
    assert forall k :: 0 <= k < |s| ==> now[2 + k] == s[k];
    assert s[|data| + 2] == crc / 256 && s[|data| + 3] == crc % 256;
  }

  /** Damage confined to two adjacent data bytes never gets past the receiver. */
  lemma {:induction false} DamageRefused(buf: seq<byte>, number: byte, p: seq<byte>, a: byte, b: byte, c: byte, d: byte,
                                         q: seq<byte>, more: seq<Delivery>)
    requires |buf| == BUFFER_SIZE && (|p| + 2 + |q| == PACKET_SIZE || |p| + 2 + |q| == PACKET_1K_SIZE)
    requires a != c || b != d
    ensures var sent, got := p + [a, b] + q, p + [c, d] + q;
            Receive(buf, [Got([StartOf(got)]), Got(Damaged(number, got, Crc(sent)))] + more).status == HAL_ERROR
  {
    hide Crc;
    CrcDiffers(p, a, b, c, d, q);
    var got := p + [c, d] + q;
    var crc := Crc(p + [a, b] + q);
    var s := Damaged(number, got, crc);
    var input := [Got([StartOf(got)]), Got(s)] + more;
    assert input[1..] == [Got(s)] + more;
    DamagedStored(buf[0 := StartOf(got)], number, got, crc);
  }
}
