/** The receive loop of websocket_handle_connection. */
module WebSocketStream {
  import opened Bytes
  import opened WebSocketCommands
  import opened WebSocketFrame

  // Frames are reassembled from whatever pieces the socket delivers, and an upload is collected from the binary
  // frames among them.

  // ----- the loop as a function of what it has and what it receives

  const FRAME_LIMIT := 65536

  /** `got` is what the upload buffer holds so far. */
  datatype Upload = Idle | Active(name: seq<byte>, total: nat, got: seq<byte>)

  datatype State = State(pending: seq<byte>, upload: Upload)

  datatype Item = Item(raw: seq<byte>, opcode: byte, payload: seq<byte>)

  /** What one pass of the loop did; a saved file comes with its name. */
  datatype Event = Waiting | Dropped | Closed | Handled(item: Item, saved: Option<(seq<byte>, seq<byte>)>)

  function AfterText(u: Upload, text: seq<byte>): Upload {
    match CommandOf(text)
    case UploadStart(name, size) => if 0 < size <= FILE_LIMIT then Active(Take(name, 63), size, []) else Idle
    case UploadComplete => Idle
    case _ => u
  }

  function AfterFrame(u: Upload, opcode: byte, payload: seq<byte>): Upload {
    if opcode == TEXT then
      AfterText(u, payload)
    else if opcode == BINARY && u.Active? && |u.got| <= u.total then
      u.(got := u.got + Take(payload, u.total - |u.got|))
    else
      u
  }

  function SavedBy(u: Upload, opcode: byte, payload: seq<byte>): Option<(seq<byte>, seq<byte>)> {
    if opcode == TEXT && CommandOf(payload) == UploadComplete && u.Active? then Some((u.name, u.got)) else None
  }

  /** The bytes sent back for a frame that was handled. */
  function Reply(u: Upload, item: Item, file: File): seq<byte> {
    Sending(Answer(u.Active?, item.opcode, item.payload, file))
  }

  function ItemOf(b: seq<byte>): Item
    requires Complete(b)
  {
    Item(b[..FrameLength(b)], b[0] % 16, Payload(b))
  }

  function Step(s: State, chunk: seq<byte>): (State, Event) {
    var b := s.pending + chunk;
    if !Complete(b) then
      if |b| < FRAME_LIMIT then (s.(pending := b), Waiting) else (s.(pending := []), Dropped)
    else
      var item := ItemOf(b);
      if item.opcode == CLOSE then
        (s.(pending := []), Closed)
      else
        (State(b[FrameLength(b)..], AfterFrame(s.upload, item.opcode, item.payload)),
         Handled(item, SavedBy(s.upload, item.opcode, item.payload)))
  }

  // ----- the connection

  lemma {:induction false} UnmaskedParts(b: seq<byte>)
    requires Complete(b)
    ensures FrameLength(b) <= |b| && HeaderLength(b[1]) <= FrameLength(b)
    ensures Unmasked(b)[HeaderLength(b[1])..FrameLength(b)] == Payload(b)
    ensures Unmasked(b)[FrameLength(b)..] == b[FrameLength(b)..]
  {
    hide Masked, Big, ExtLength, KeyLength;
  }

  class Connection {
    var frameBuffer: array?<byte>
    var totalReceived: nat
    var filename: seq<byte>
    var uploadBuffer: array?<byte>
    var totalSize: int
    var receivedSize: nat
    var isReceiving: bool

    ghost predicate Valid()
      reads this, frameBuffer, uploadBuffer
    {
      && (frameBuffer == null ==> totalReceived == 0)
      && (frameBuffer != null ==> totalReceived == frameBuffer.Length)
      && (isReceiving ==> uploadBuffer != null && uploadBuffer.Length == totalSize && receivedSize <= totalSize)
      && (frameBuffer != null && uploadBuffer != null ==> frameBuffer != uploadBuffer)
    }

    ghost function Pending(): seq<byte>
      reads this, frameBuffer
    {
      if frameBuffer == null then [] else frameBuffer[..]
    }

    ghost function UploadState(): Upload
      reads this, uploadBuffer
      requires isReceiving ==> uploadBuffer != null && uploadBuffer.Length == totalSize && receivedSize <= totalSize
    {
      if isReceiving then Active(filename, totalSize, uploadBuffer[..receivedSize]) else Idle
    }

    ghost function Abstract(): State
      reads this, frameBuffer, uploadBuffer
      requires Valid()
    {
      State(Pending(), UploadState())
    }

    constructor ()
      ensures Valid() && Abstract() == State([], Idle)
    {
      frameBuffer, totalReceived := null, 0;
      filename, uploadBuffer, totalSize, receivedSize, isReceiving := [], null, 0, 0, false;
    }

    /** The received bytes go behind those that wait. */
    method Append(chunk: seq<byte>)
      requires Valid() && |chunk| > 0
      modifies this`frameBuffer, this`totalReceived
      ensures Valid() && frameBuffer != null && fresh(frameBuffer)
      ensures Pending() == old(Pending()) + chunk && UploadState() == old(UploadState())
    {
      if frameBuffer == null {
        frameBuffer := new byte[|chunk|](i requires 0 <= i < |chunk| => chunk[i]);
        totalReceived := |chunk|;
        assert frameBuffer[..] == chunk == [] + chunk;
      } else {
        var bytes := frameBuffer[..] + chunk;
        var newSize := totalReceived + |chunk|;
        frameBuffer := new byte[newSize](i requires 0 <= i < |bytes| => bytes[i]);
        totalReceived := newSize;
        assert frameBuffer[..] == bytes;
      }
    }

    /** The handled frame leaves the buffer. */
    method Consume(size: nat)
      requires Valid() && frameBuffer != null && size <= totalReceived
      modifies this`frameBuffer, this`totalReceived
      ensures Valid() && Pending() == old(Pending())[size..] && UploadState() == old(UploadState())
    {
      if size < totalReceived {
        var remaining := totalReceived - size;
        var bytes := frameBuffer[size..];
        frameBuffer := new byte[remaining](i requires 0 <= i < |bytes| => bytes[i]);
        totalReceived := remaining;
        assert frameBuffer[..] == bytes;
      } else {
        frameBuffer := null;
        totalReceived := 0;
      }
    }

    method HandleText(text: seq<byte>, file: File, results: seq<int>)
      returns (saved: Option<(seq<byte>, seq<byte>)>, reply: seq<byte>)
      requires Valid()
      modifies this`filename, this`uploadBuffer, this`totalSize, this`receivedSize, this`isReceiving
      ensures Valid() && UploadState() == AfterText(old(UploadState()), text)
      ensures saved == SavedBy(old(UploadState()), TEXT, text)
      ensures reply <= Sending(Answer(old(isReceiving), TEXT, text, file))
      ensures Progressing(results) ==> reply == Sending(Answer(old(isReceiving), TEXT, text, file))
    {
      hide CommandOf, Wire;
      saved, reply := None, [];
      match CommandOf(text) {
        case Download(_) =>
          reply := SendDownload(file, results);
        case UploadStart(name, size) =>
          reply := SendTextFrame(ReadyText(name, size));
          filename := Take(name, 63);
          uploadBuffer := null;
          totalSize := size;
          receivedSize := 0;
          isReceiving := false;
          if 0 < size <= FILE_LIMIT {
            uploadBuffer := new byte[size];
            isReceiving := true;
          }
        case UploadComplete =>
          if isReceiving {
            reply := SendTextFrame(Ascii("upload_success"));
            saved := Some((filename, uploadBuffer[..receivedSize]));
            uploadBuffer := null;
            isReceiving := false;
          }
        case Other =>
      }
    }

    method HandleBinary(payload: seq<byte>)
      requires Valid()
      modifies this`receivedSize, uploadBuffer
      ensures Valid() && UploadState() == AfterFrame(old(UploadState()), BINARY, payload)
      ensures Pending() == old(Pending())
    {
      if isReceiving && uploadBuffer != null {
        var copySize := |payload|;
        if receivedSize + copySize > totalSize {
          copySize := totalSize - receivedSize;
        }
        ghost var before := uploadBuffer[..receivedSize];
        if copySize > 0 {
          forall i | 0 <= i < copySize {
            uploadBuffer[receivedSize + i] := payload[i];
          }
          receivedSize := receivedSize + copySize;
        }
        assert uploadBuffer[..receivedSize] == before + payload[..copySize];
      }
    }

    /** `reply` is what is sent back; `file` is what a download finds and `results` what its sends return. */
    method HandleFrame(opcode: byte, payload: seq<byte>, file: File, results: seq<int>)
      returns (saved: Option<(seq<byte>, seq<byte>)>, reply: seq<byte>)
      requires Valid() && frameBuffer != null
      modifies this, uploadBuffer
      ensures Valid() && frameBuffer == old(frameBuffer) && totalReceived == old(totalReceived)
      ensures Pending() == old(Pending())
      ensures UploadState() == AfterFrame(old(UploadState()), opcode, payload)
      ensures saved == SavedBy(old(UploadState()), opcode, payload)
      ensures reply <= Sending(Answer(old(isReceiving), opcode, payload, file))
      ensures Progressing(results) ==> reply == Sending(Answer(old(isReceiving), opcode, payload, file))
    {
      hide AfterText, CommandOf, Wire;
      saved, reply := None, [];
      if opcode == TEXT {
        saved, reply := HandleText(payload, file, results);
      } else if opcode == BINARY {
        HandleBinary(payload);
      } else if opcode == PING {
        PongBytes();
        reply := [0x8A, 0x00];
      }
    }

    /** One pass of the loop on the bytes that recv returned. */
    method Receive(chunk: seq<byte>, file: File, results: seq<int>)
      returns (saved: Option<(seq<byte>, seq<byte>)>, reply: seq<byte>, ghost event: Event)
      requires Valid() && 0 < |chunk| <= 1024 && SumFits(Pending() + chunk)
      modifies this, frameBuffer, uploadBuffer
      ensures event == Step(old(Abstract()), chunk).1
      ensures event.Handled? ==> saved == event.saved
      ensures reply <= if event.Handled? then Reply(old(UploadState()), event.item, file) else []
      ensures Progressing(results) ==> reply == if event.Handled? then Reply(old(UploadState()), event.item, file) else []
      ensures event != Closed ==> Valid() && Abstract() == Step(old(Abstract()), chunk).0
    {
      hide Complete, FrameLength, Payload, CommandOf, Masked, AfterText, SumFits, Sending;
      saved, reply := None, [];
      Append(chunk);
      ghost var b := Pending();
      assert frameBuffer[..totalReceived] == b;
      var size, frame := ParseFrame(frameBuffer, totalReceived);
      if size == -1 {
        if totalReceived < FRAME_LIMIT {
          return None, [], Waiting;
        } else {
          frameBuffer := null;
          totalReceived := 0;
          return None, [], Dropped;
        }
      }
      UnmaskedParts(b);
      Slices(frameBuffer, totalReceived, frame.headerLen, size);
      Slices(frameBuffer, totalReceived, size, totalReceived);
      var payload := frameBuffer[frame.headerLen..size];
      ghost var item := ItemOf(b);
      if frame.opcode == CLOSE {
        return None, [], Closed;
      }
      saved, reply := HandleFrame(frame.opcode, payload, file, results);
      Consume(size);
      event := Handled(item, saved);
    }
  }

  // ----- whole runs

  datatype Trace = Trace(state: State, items: seq<Item>, dropped: bool, closed: bool)

  function Extend(t: Trace, chunk: seq<byte>): Trace {
    if t.closed then
      t
    else
      var (s, event) := Step(t.state, chunk);
      match event
      case Waiting => t.(state := s)
      case Dropped => t.(state := s, dropped := true)
      case Closed => t.(state := s, closed := true)
      case Handled(item, _) => t.(state := s, items := t.items + [item])
  }

  /** The loop over everything recv returned, in order. */
  function Run(chunks: seq<seq<byte>>): Trace {
    if chunks == [] then
      Trace(State([], Idle), [], false, false)
    else
      Extend(Run(chunks[..|chunks| - 1]), chunks[|chunks| - 1])
  }

  function RawOf(items: seq<Item>): seq<byte> {
    if items == [] then [] else RawOf(items[..|items| - 1]) + items[|items| - 1].raw
  }

  // ----- reference: the frames of a stream, and the upload they make up

  function Frames(stream: seq<byte>): seq<Item>
    decreases |stream|
  {
    if Complete(stream) then [ItemOf(stream)] + Frames(stream[FrameLength(stream)..]) else []
  }

  datatype Tracking = NoUpload | Uploading(name: seq<byte>, total: nat, data: seq<byte>)

  /** The latest upload begun and not completed, with all binary payloads since its start. */
  function Track(items: seq<Item>): Tracking {
    if items == [] then
      NoUpload
    else
      var t, last := Track(items[..|items| - 1]), items[|items| - 1];
      if last.opcode == BINARY && t.Uploading? then
        t.(data := t.data + last.payload)
      else if last.opcode == TEXT then
        match CommandOf(last.payload)
        case UploadStart(name, size) => if 0 < size <= FILE_LIMIT then Uploading(Take(name, 63), size, []) else NoUpload
        case UploadComplete => NoUpload
        case _ => t
      else
        t
  }

  /** What the connection keeps of it: the first `total` bytes. */
  function Shown(t: Tracking): Upload {
    match t
    case NoUpload => Idle
    case Uploading(name, total, data) => Active(name, total, Take(data, total))
  }

  // ----- main results

  /** More bytes behind a complete frame change nothing about it. */
  lemma {:induction false} FrameStable(b: seq<byte>, more: seq<byte>)
    requires Complete(b)
    ensures Complete(b + more) && FrameLength(b + more) == FrameLength(b) && ItemOf(b + more) == ItemOf(b)
    ensures (b + more)[FrameLength(b)..] == b[FrameLength(b)..] + more
  {
    hide Big, Masked;
    var c := b + more;
    var e, h := ExtLength(b[1]), HeaderLength(b[1]);
    assert c[2..2 + e] == b[2..2 + e] && c[2 + e..h] == b[2 + e..h];
    var n := FrameLength(b);
    assert c[..n] == b[..n] && c[h..n] == b[h..n];
  }

  lemma {:induction false} FramesStep(b: seq<byte>)
    requires Complete(b)
    ensures FrameLength(b) <= |b| && Frames(b) == [ItemOf(b)] + Frames(b[FrameLength(b)..])
  {
    hide ItemOf;
  }

  /** The frames of a stream that begins with whole frames. */
  lemma {:induction false} FramesFrom(b: seq<byte>, more: seq<byte>)
    requires Complete(b)
    ensures Frames(b + more) == [ItemOf(b)] + Frames(b[FrameLength(b)..] + more)
  {
    hide ItemOf, FrameLength, Complete;
    FrameStable(b, more);
    FramesStep(b + more);
  }

  lemma {:induction false} TakeTwice(d: seq<byte>, p: seq<byte>, n: nat)
    ensures Take(d + p, n) == Take(d, n) + Take(p, n - |Take(d, n)|)
  {
  }

  lemma {:induction false} NothingTaken()
    ensures forall n: nat :: Take([], n) == []
  {
  }

  /** Truncating as the payloads come in is truncating their concatenation. */
  lemma {:induction false} TrackStep(items: seq<Item>, item: Item)
    ensures Shown(Track(items + [item])) == AfterFrame(Shown(Track(items)), item.opcode, item.payload)
  {
    hide CommandOf, Take;
    var t := Track(items);
    assert (items + [item])[..|items|] == items;
    if item.opcode == BINARY && t.Uploading? {
      TakeTwice(t.data, item.payload, t.total);
    }
    NothingTaken();
  }

  /** The bytes handled and the bytes waiting are the stream; so are their frames, whatever follows. */
  ghost predicate Reassembles(t: Trace, stream: seq<byte>) {
    && RawOf(t.items) + t.state.pending == stream
    && (forall more: seq<byte> :: Frames(stream + more) == t.items + Frames(t.state.pending + more))
    && t.state.upload == Shown(Track(t.items))
  }

  lemma {:induction false} RawMoved(raw: seq<byte>, pending: seq<byte>, chunk: seq<byte>, n: nat)
    requires n <= |pending + chunk|
    ensures var b := pending + chunk; raw + b[..n] + b[n..] == raw + pending + chunk
  {
    var b := pending + chunk;
    assert b[..n] + b[n..] == b;
    assert raw + b[..n] + b[n..] == raw + b;
  }

  lemma {:induction false} Regrouped(stream: seq<byte>, pending: seq<byte>, chunk: seq<byte>, more: seq<byte>)
    ensures stream + chunk + more == stream + (chunk + more) && pending + (chunk + more) == pending + chunk + more
  {
  }

  lemma {:induction false} HandledStep(t: Trace, stream: seq<byte>, chunk: seq<byte>)
    requires Reassembles(t, stream) && !t.closed && Complete(t.state.pending + chunk) && !Extend(t, chunk).closed
    ensures Reassembles(Extend(t, chunk), stream + chunk)
  {
    hide HasHeader, FrameLength, Payload, AfterFrame, Track, Shown, SavedBy, Frames;
    var b := t.state.pending + chunk;
    var item := ItemOf(b);
    var items := t.items + [item];
    FramesStep(b);
    assert items[..|t.items|] == t.items;
    RawMoved(RawOf(t.items), t.state.pending, chunk, FrameLength(b));
    forall more: seq<byte>
      ensures Frames(stream + chunk + more) == items + Frames(b[FrameLength(b)..] + more)
    {
      Regrouped(stream, t.state.pending, chunk, more);
      FramesFrom(b, more);
      assert t.items + ([item] + Frames(b[FrameLength(b)..] + more)) == items + Frames(b[FrameLength(b)..] + more);
    }
    TrackStep(t.items, item);
  }

  lemma {:induction false} WaitingStep(t: Trace, stream: seq<byte>, chunk: seq<byte>)
    requires Reassembles(t, stream) && !t.closed && !Complete(t.state.pending + chunk) && !Extend(t, chunk).dropped
    ensures Reassembles(Extend(t, chunk), stream + chunk)
  {
    hide Complete, Track, Shown, Frames;
    var b := t.state.pending + chunk;
    assert RawOf(t.items) + b == RawOf(t.items) + t.state.pending + chunk;
    forall more: seq<byte>
      ensures Frames(stream + chunk + more) == t.items + Frames(b + more)
    {
      assert stream + chunk + more == stream + (chunk + more);
      assert t.state.pending + (chunk + more) == b + more;
    }
  }

  lemma {:induction false} NothingYet()
    ensures Reassembles(Trace(State([], Idle), [], false, false), [])
  {
    hide Frames;
    forall more: seq<byte>
      ensures Frames([] + more) == [] + Frames([] + more)
    {
    }
  }

  lemma {:induction false} RunReassembles(chunks: seq<seq<byte>>)
    requires !Run(chunks).dropped && !Run(chunks).closed
    ensures Reassembles(Run(chunks), Flat(chunks))
    decreases |chunks|
  {
    hide Reassembles, Step;
    if chunks == [] {
      NothingYet();
    } else {
      var t := Run(chunks[..|chunks| - 1]);
      var chunk := chunks[|chunks| - 1];
      RunReassembles(chunks[..|chunks| - 1]);
      if Complete(t.state.pending + chunk) {
        HandledStep(t, Flat(chunks[..|chunks| - 1]), chunk);
      } else {
        WaitingStep(t, Flat(chunks[..|chunks| - 1]), chunk);
      }
    }
  }

  /**
   * However the stream was cut into pieces: what was received is the raw bytes of the frames
   * handled, in order, followed by the bytes still in the buffer; the frames handled are the first
   * of the stream's; and the upload holds the first `total` bytes of the binary payloads since it
   * was started.
   */
  lemma {:induction false} Reassembled(chunks: seq<seq<byte>>)
    requires !Run(chunks).dropped && !Run(chunks).closed
    ensures var t := Run(chunks);
            && Flat(chunks) == RawOf(t.items) + t.state.pending
            && Frames(Flat(chunks)) == t.items + Frames(t.state.pending)
            && t.state.upload == Shown(Track(t.items))
  {
    hide Run, Flat, RawOf, Frames, Track, Shown;
    RunReassembles(chunks);
    var t, stream := Run(chunks), Flat(chunks);
    assert stream + [] == stream && t.state.pending + [] == t.state.pending;
    assert Frames(stream + []) == t.items + Frames(t.state.pending + []);
  }

  lemma {:induction false} NoFrames(b: seq<byte>)
    requires !Complete(b)
    ensures Frames(b) == []
  {
  }

  lemma {:induction false} LastPass(chunks: seq<seq<byte>>)
    requires !Run(chunks).dropped && !Run(chunks).closed && chunks != []
    ensures var before, all := |Run(chunks[..|chunks| - 1]).items|, |Frames(Flat(chunks))|;
            |Run(chunks).items| == if before + 1 <= all then before + 1 else all
  {
    hide Frames, Complete, ItemOf, AfterFrame, SavedBy, FrameLength;
    var n := |chunks| - 1;
    var t, chunk := Run(chunks[..n]), chunks[n];
    RunReassembles(chunks[..n]);
    var b := t.state.pending + chunk;
    assert Frames(Flat(chunks[..n]) + chunk) == t.items + Frames(b);
    if Complete(b) {
      FramesStep(b);
    } else {
      NoFrames(b);
    }
  }

  /**
   * Each pass handles one frame at most, and one whenever a whole frame is waiting: after every recv
   * the number handled is one more than before or that of all whole frames so far, if this is less.
   * So all that arrived has been handled exactly when no whole frame is waiting.
   */
  lemma {:induction false} OnePerPass(chunks: seq<seq<byte>>)
    requires !Run(chunks).dropped && !Run(chunks).closed && chunks != []
    ensures var before, all := |Run(chunks[..|chunks| - 1]).items|, |Frames(Flat(chunks))|;
            |Run(chunks).items| == if before + 1 <= all then before + 1 else all
    ensures Run(chunks).items == Frames(Flat(chunks)) <==> !Complete(Run(chunks).state.pending)
  {
    hide Step, Complete, Flat;
    Reassembled(chunks);
    LastPass(chunks);
    var rest := Run(chunks).state.pending;
    assert Complete(rest) ==> |Frames(rest)| > 0;
    if !Complete(rest) {
      assert Run(chunks).items + [] == Run(chunks).items;
    }
  }

  // ----- with a peer that sends frames

  function Expected(fs: seq<Frame>): seq<Item>
    requires forall f :: f in fs ==> WfFrame(f)
  {
    if fs == [] then [] else [Item(Wire(fs[0]), fs[0].opcode, fs[0].payload)] + Expected(fs[1..])
  }

  lemma {:induction false} EmptyIncomplete()
    ensures !Complete([])
  {
  }

  /** The frames found in a stream of frames are those frames, with their payloads unmasked. */
  lemma {:induction false} FramesOfSending(fs: seq<Frame>)
    requires forall f :: f in fs ==> WfFrame(f)
    ensures Frames(Sending(fs)) == Expected(fs)
    decreases |fs|
  {
    hide Wire, Complete, FrameLength, Payload, WfFrame;
    if fs == [] {
      EmptyIncomplete();
    } else {
      var rest := Sending(fs[1..]);
      FramesOfSending(fs[1..]);
      WireParsed(fs[0], rest);
      FramesStep(Wire(fs[0]) + rest);
      assert (Wire(fs[0]) + rest)[..|Wire(fs[0])|] == Wire(fs[0]);
      assert (Wire(fs[0]) + rest)[|Wire(fs[0])|..] == rest;
    }
  }

  /** So the frames handled are an initial part of the frames the peer sent, in their order. */
  lemma {:induction false} HandledInOrder(chunks: seq<seq<byte>>, fs: seq<Frame>)
    requires !Run(chunks).dropped && !Run(chunks).closed
    requires (forall f :: f in fs ==> WfFrame(f)) && Flat(chunks) == Sending(fs)
    ensures Run(chunks).items <= Expected(fs)
  {
    hide Run, Flat, Sending, Expected, Frames, WfFrame;
    Reassembled(chunks);
    FramesOfSending(fs);
  }

  /**
   * A file is saved exactly when an upload_complete arrives while an upload is under way, and then
   * it is the declared number of bytes of all that was sent since its start.
   */
  lemma {:induction false} SavedWhole(chunks: seq<seq<byte>>, opcode: byte, payload: seq<byte>)
    requires !Run(chunks).dropped && !Run(chunks).closed
    ensures var t, saved := Track(Run(chunks).items), SavedBy(Run(chunks).state.upload, opcode, payload);
            && (saved.Some? <==> opcode == TEXT && CommandOf(payload) == UploadComplete && t.Uploading?)
            && (saved.Some? ==> saved.value == (t.name, if |t.data| <= t.total then t.data else t.data[..t.total]))
  {
    hide Run, Track, CommandOf;
    Reassembled(chunks);
  }

  // ----- a peer that keeps to the limits

  /** The stream so far is the beginning of frames that each fit the buffer limit, and none of them closes. */
  ghost predicate PeerSends(chunks: seq<seq<byte>>, fs: seq<Frame>) {
    && (forall f :: f in fs ==> WfFrame(f) && |Wire(f)| <= 65536 && f.opcode != 8)
    && Flat(chunks) <= Sending(fs)
  }

  lemma {:induction false} SendingAppend(fs: seq<Frame>, gs: seq<Frame>)
    requires forall f :: f in fs || f in gs ==> WfFrame(f)
    ensures (forall f :: f in fs + gs ==> WfFrame(f)) && Sending(fs + gs) == Sending(fs) + Sending(gs)
    decreases |fs|
  {
    hide Wire, WfFrame;
    if fs == [] {
      assert fs + gs == gs;
    } else {
      SendingAppend(fs[1..], gs);
      assert (fs + gs)[1..] == fs[1..] + gs;
    }
  }

  lemma {:induction false} SendingSplit(fs: seq<Frame>, m: nat)
    requires (forall f :: f in fs ==> WfFrame(f)) && m <= |fs|
    ensures Sending(fs) == Sending(fs[..m]) + Sending(fs[m..])
  {
    hide Sending, WfFrame;
    assert fs == fs[..m] + fs[m..];
    SendingAppend(fs[..m], fs[m..]);
  }

  lemma {:induction false} ExpectedSnoc(fs: seq<Frame>, m: nat)
    requires (forall f :: f in fs ==> WfFrame(f)) && m < |fs|
    ensures Expected(fs[..m + 1]) == Expected(fs[..m]) + [Item(Wire(fs[m]), fs[m].opcode, fs[m].payload)]
    decreases |fs|
  {
    hide Wire, WfFrame;
    if m > 0 {
      ExpectedSnoc(fs[1..], m - 1);
      assert fs[..m + 1][1..] == fs[1..][..m] && fs[..m][1..] == fs[1..][..m - 1];
    } else {
      assert fs[..1][1..] == [] && fs[..0] == [];
    }
  }

  lemma {:induction false} RawOfExpected(fs: seq<Frame>, m: nat)
    requires (forall f :: f in fs ==> WfFrame(f)) && m <= |fs|
    ensures RawOf(Expected(fs[..m])) == Sending(fs[..m])
    decreases m
  {
    hide Wire, WfFrame;
    if m > 0 {
      RawOfExpected(fs, m - 1);
      ExpectedSnoc(fs, m - 1);
      var items := Expected(fs[..m]);
      assert items[..|items| - 1] == Expected(fs[..m - 1]);
      assert fs[..m] == fs[..m - 1] + [fs[m - 1]];
      SendingAppend(fs[..m - 1], [fs[m - 1]]);
      assert [fs[m - 1]][1..] == [];
      assert Sending([fs[m - 1]]) == Wire(fs[m - 1]) + Sending([]);
    }
  }

  lemma {:induction false} PartFits(b: seq<byte>, f: Frame)
    requires WfFrame(f) && |Wire(f)| <= FRAME_LIMIT && b <= Wire(f)
    ensures SumFits(b)
  {
    hide WireHeader, FrameLength, HasHeader, Masked, WfFrame;
    if |b| < |WireHeader(f)| {
      assert b <= WireHeader(f);
      HeaderShort(b, f);
    } else {
      assert WireHeader(f) <= b;
      HeaderRead(f, b);
    }
  }

  /** A buffer that begins with part of a frame and one that begins with all of it. */
  lemma {:induction false} PartOfFrame(b: seq<byte>, f: Frame, rest: seq<byte>)
    requires WfFrame(f) && |Wire(f)| <= FRAME_LIMIT && b <= Wire(f) + rest
    ensures Complete(b) <==> |Wire(f)| <= |b|
    ensures Complete(b) ==> FrameLength(b) == |Wire(f)| && ItemOf(b) == Item(Wire(f), f.opcode, f.payload)
                            && b[|Wire(f)|..] <= rest
    ensures SumFits(b)
  {
    hide Wire, WireHeader, FrameLength, HasHeader, Payload, WfFrame;
    if |Wire(f)| <= |b| {
      var more := b[|Wire(f)|..];
      assert b == Wire(f) + more;
      WireParsed(f, more);
      assert more == rest[..|more|];
    } else {
      assert b == Wire(f)[..|b|];
      PrefixRefused(f, |b|);
      PartFits(b, f);
    }
  }

  lemma {:induction false} NothingLeft(b: seq<byte>)
    requires b <= Sending([])
    ensures b == [] && !Complete(b) && SumFits(b)
  {
  }

  /** What one pass does to the beginning of the peer's frames. */
  lemma {:induction false} PeerPass(t: Trace, chunk: seq<byte>, fs: seq<Frame>, m: nat) returns (k: nat)
    requires (forall f :: f in fs ==> WfFrame(f) && |Wire(f)| <= FRAME_LIMIT && f.opcode != CLOSE) && m <= |fs|
    requires !t.closed && !t.dropped && t.items == Expected(fs[..m]) && t.state.pending + chunk <= Sending(fs[m..])
    ensures SumFits(t.state.pending + chunk)
    ensures var u := Extend(t, chunk);
            m <= k <= |fs| && !u.closed && !u.dropped && u.items == Expected(fs[..k]) && u.state.pending <= Sending(fs[k..])
  {
    hide Wire, WfFrame, Complete, FrameLength, AfterFrame, SavedBy, Expected, SumFits;
    var b := t.state.pending + chunk;
    if m == |fs| {
      assert fs[m..] == [];
      NothingLeft(b);
      k := m;
    } else {
      var f, rest := fs[m], Sending(fs[m + 1..]);
      assert fs[m..][0] == f && fs[m..][1..] == fs[m + 1..];
      assert f in fs;
      PartOfFrame(b, f, rest);
      ExpectedSnoc(fs, m);
      k := if Complete(b) then m + 1 else m;
    }
  }

  lemma {:induction false} PrefixBehind(a: seq<byte>, b: seq<byte>, c: seq<byte>)
    requires a + b <= a + c
    ensures b <= c
  {
    assert (a + b)[|a|..] == b && (a + c)[|a|..] == c;
    assert forall i :: 0 <= i < |b| ==> (a + b)[|a| + i] == b[i] && (a + c)[|a| + i] == c[i];
  }

  lemma {:induction false} NoneExpected(fs: seq<Frame>)
    requires forall f :: f in fs ==> WfFrame(f)
    ensures Expected(fs[..0]) == [] && [] <= Sending(fs[0..])
  {
  }

  /**
   * With such a peer nothing is ever dropped or closed, no length wraps, and the frames handled are
   * the first ones sent: what the results above ask of a run holds of every run.
   */
  lemma {:induction false} PeerHeard(chunks: seq<seq<byte>>, fs: seq<Frame>) returns (m: nat)
    requires PeerSends(chunks, fs)
    ensures var t := Run(chunks);
            && !t.dropped && !t.closed && m <= |fs| && t.items == Expected(fs[..m]) && t.state.pending <= Sending(fs[m..])
    ensures chunks != [] ==> SumFits(Run(chunks[..|chunks| - 1]).state.pending + chunks[|chunks| - 1])
    decreases |chunks|
  {
    hide Wire, WfFrame, Sending, Expected, Extend, RawOf, SumFits, Frames, Track, Shown;
    if chunks == [] {
      m := 0;
      NoneExpected(fs);
    } else {
      var before, chunk := chunks[..|chunks| - 1], chunks[|chunks| - 1];
      assert Flat(chunks) == Flat(before) + chunk;
      var k := PeerHeard(before, fs);
      Reassembled(before);
      RawOfExpected(fs, k);
      SendingSplit(fs, k);
      var b := Run(before).state.pending + chunk;
      assert Flat(chunks) == Sending(fs[..k]) + b;
      PrefixBehind(Sending(fs[..k]), b, Sending(fs[k..]));
      m := PeerPass(Run(before), chunk, fs, k);
    }
  }

  // ----- what the peer gets

  /** The frames sent in answer to these items; a file is what a download finds at that item. */
  function Answers(items: seq<Item>, files: seq<File>): (fs: seq<Frame>)
    requires |files| == |items|
    ensures forall f :: f in fs ==> WfFrame(f)
  {
    if items == [] then
      []
    else
      var n := |items| - 1;
      var t, last := Track(items[..n]), items[n];
      Answers(items[..n], files[..n]) + Answer(t.Uploading?, last.opcode, last.payload, files[n])
  }

  /** The bytes that the passes of the loop send for these items. */
  function Replies(items: seq<Item>, files: seq<File>): seq<byte>
    requires |files| == |items|
  {
    if items == [] then
      []
    else
      var n := |items| - 1;
      Replies(items[..n], files[..n]) + Reply(Shown(Track(items[..n])), items[n], files[n])
  }

  lemma {:induction false} NothingSent()
    ensures Sending([]) == []
  {
  }

  lemma {:induction false} RepliesAreAnswers(items: seq<Item>, files: seq<File>)
    requires |files| == |items|
    ensures Replies(items, files) == Sending(Answers(items, files))
    decreases |items|
  {
    hide Sending, Track, Answer, WfFrame;
    if items == [] {
      NothingSent();
    } else {
      var n := |items| - 1;
      RepliesAreAnswers(items[..n], files[..n]);
      SendingAppend(Answers(items[..n], files[..n]),
                    Answer(Track(items[..n]).Uploading?, items[n].opcode, items[n].payload, files[n]));
    }
  }

  /** A peer that reads what it is sent finds exactly the answers to the frames handled, in their order. */
  lemma {:induction false} AnswersRead(chunks: seq<seq<byte>>, files: seq<File>)
    requires !Run(chunks).dropped && !Run(chunks).closed && |files| == |Run(chunks).items|
    ensures Frames(Replies(Run(chunks).items, files)) == Expected(Answers(Run(chunks).items, files))
  {
    hide Run, Answers, Replies, Sending, Expected, Frames, WfFrame;
    RepliesAreAnswers(Run(chunks).items, files);
    FramesOfSending(Answers(Run(chunks).items, files));
  }

  // ----- an upload and the two ways a connection loses what it has, in the bytes of the peer

  function Payloads(items: seq<Item>): seq<byte> {
    if items == [] then [] else Payloads(items[..|items| - 1]) + items[|items| - 1].payload
  }

  lemma {:induction false} BinaryTracked(items: seq<Item>, item: Item)
    requires item.opcode == 2
    ensures Track(items + [item]) == match Track(items)
                                     case NoUpload => NoUpload
                                     case Uploading(name, total, data) => Uploading(name, total, data + item.payload)
  {
    hide CommandOf;
    assert (items + [item])[..|items|] == items;
  }

  lemma {:induction false} PayloadsLast(data: seq<Item>)
    ensures if data == [] then Payloads(data) == []
            else Payloads(data) == Payloads(data[..|data| - 1]) + data[|data| - 1].payload
  {
  }

  lemma {:induction false} BinariesTracked(first: seq<Item>, data: seq<Item>)
    requires forall k :: 0 <= k < |data| ==> data[k].opcode == 2
    ensures Track(first + data) == match Track(first)
                                   case NoUpload => NoUpload
                                   case Uploading(name, total, got) => Uploading(name, total, got + Payloads(data))
    decreases |data|
  {
    hide Track, Payloads;
    PayloadsLast(data);
    if data == [] {
      assert first + data == first;
    } else {
      var n := |data| - 1;
      BinariesTracked(first, data[..n]);
      BinaryTracked(first + data[..n], data[n]);
      assert first + data[..n] + [data[n]] == first + data;
    }
  }

  lemma {:induction false} StartTracked(before: seq<Item>, raw: seq<byte>, name: seq<byte>, size: nat)
    requires Plain(name)
    ensures var text := [0x75, 0x70, 0x6C, 0x6F, 0x61, 0x64, 0x5F, 0x73, 0x74, 0x61, 0x72, 0x74, 0x3A] + name + [58] + DecimalDigits(size);
            Track(before + [Item(raw, 1, text)]) ==
            if 0 < size <= 10_485_760 then Uploading(if |name| <= 63 then name else name[..63], size, []) else NoUpload
  {
    hide CommandOf, Ascii, DecimalDigits;
    CommandBytes();
    StartUnderstood(name, size);
    var item := Item(raw, 1, [0x75, 0x70, 0x6C, 0x6F, 0x61, 0x64, 0x5F, 0x73, 0x74, 0x61, 0x72, 0x74, 0x3A] + name + [58] + DecimalDigits(size));
    assert (before + [item])[..|before|] == before;
  }

  /**
   * The peer writes upload_start with a plain name and a size, binary frames, and upload_complete:
   * what is saved is the first `size` of their bytes under the first 63 of the name, or nothing when the
   * size is 0 or above ten mebibytes.
   */
  lemma {:induction false} UploadSaved(before: seq<Item>, raw: seq<byte>, name: seq<byte>, size: nat, data: seq<Item>)
    requires Plain(name) && forall k :: 0 <= k < |data| ==> data[k].opcode == 2
    ensures var start := Item(raw, 1, [0x75, 0x70, 0x6C, 0x6F, 0x61, 0x64, 0x5F, 0x73, 0x74, 0x61, 0x72, 0x74, 0x3A] + name + [58] + DecimalDigits(size));
            var complete: seq<byte> := [0x75, 0x70, 0x6C, 0x6F, 0x61, 0x64, 0x5F, 0x63, 0x6F, 0x6D, 0x70, 0x6C, 0x65, 0x74, 0x65];
            SavedBy(Shown(Track(before + [start] + data)), 1, complete) ==
            if 0 < size <= 10_485_760 then
              Some((if |name| <= 63 then name else name[..63],
                    if |Payloads(data)| <= size then Payloads(data) else Payloads(data)[..size]))
            else None
  {
    hide CommandOf, DecimalDigits, Track;
    var start := Item(raw, 1, [0x75, 0x70, 0x6C, 0x6F, 0x61, 0x64, 0x5F, 0x73, 0x74, 0x61, 0x72, 0x74, 0x3A] + name + [58] + DecimalDigits(size));
    CompleteUnderstood([0x75, 0x70, 0x6C, 0x6F, 0x61, 0x64, 0x5F, 0x63, 0x6F, 0x6D, 0x70, 0x6C, 0x65, 0x74, 0x65]);
    StartTracked(before, raw, name, size);
    BinariesTracked(before + [start], data);
    assert [] + Payloads(data) == Payloads(data);
  }

  lemma {:induction false} RunSnoc(chunks: seq<seq<byte>>, chunk: seq<byte>)
    ensures Run(chunks + [chunk]) == Extend(Run(chunks), chunk)
  {
    assert (chunks + [chunk])[..|chunks|] == chunks;
  }

  /** The part of a frame that has arrived is dropped when it is not the whole frame and has 65536 bytes or more, and only then. */
  lemma {:induction false} LongDropped(chunks: seq<seq<byte>>, chunk: seq<byte>, f: Frame)
    requires !Run(chunks).dropped && !Run(chunks).closed && WfFrame(f)
    requires var b := Run(chunks).state.pending + chunk; b <= Wire(f) && |b| < |Wire(f)|
    ensures var b, t := Run(chunks).state.pending + chunk, Run(chunks + [chunk]);
            && (t.dropped <==> |b| >= 65536) && t.state.pending == (if |b| >= 65536 then [] else b)
            && t.items == Run(chunks).items && t.state.upload == Run(chunks).state.upload
  {
    hide Run, Wire, WfFrame, Complete;
    var b := Run(chunks).state.pending + chunk;
    PrefixRefused(f, |b|);
    assert b == Wire(f)[..|b|];
    RunSnoc(chunks, chunk);
  }

  /** A whole frame with opcode 8 ends the connection, and no other whole frame does. */
  lemma {:induction false} CloseEnds(chunks: seq<seq<byte>>, chunk: seq<byte>, f: Frame, rest: seq<byte>)
    requires !Run(chunks).dropped && !Run(chunks).closed && WfFrame(f)
    requires Run(chunks).state.pending + chunk == Wire(f) + rest
    ensures var t := Run(chunks + [chunk]);
            && (t.closed <==> f.opcode == 8) && !t.dropped
            && t.items == Run(chunks).items + (if f.opcode == 8 then [] else [Item(Wire(f), f.opcode, f.payload)])
  {
    hide Run, Wire, WfFrame, Complete, FrameLength, Payload, AfterFrame, SavedBy;
    WireParsed(f, rest);
    assert (Wire(f) + rest)[..|Wire(f)|] == Wire(f);
    RunSnoc(chunks, chunk);
  }
}
