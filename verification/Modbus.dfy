/** The read path of the Modbus RTU master in Middlewares/modbus/modbus_master.c. */
module Modbus {
  import opened Bytes
  import opened ByteBits
  import ReflectedCrc

  type word = x: int | 0 <= x < 0x1_0000

  const TIMEOUT := -1
  const NOT_SUPPORTED := -99
  const SIZE_OVER := -3
  const DATA_LEN := -4
  const CRC_ERROR := -5

  // ----- frames

  lemma {:induction false} SwappedFits(c: bv32)
    ensures ReflectedCrc.Swapped(c) <= 0xFFFF
  {
  }

  function Narrow(c: bv32): bv16
    requires c <= 0xFFFF
  {
    c as bv16
  }

  function Number(v: bv16): word { v as int }

  lemma {:induction false} CrcFits(data: seq<bv8>)
    ensures ReflectedCrc.ModbusCRC(data) <= 0xFFFF
  {
    hide ReflectedCrc.StepAll, ReflectedCrc.Swapped;
    SwappedFits(ReflectedCrc.StepAll(0xFFFF, data, ReflectedCrc.MODBUS_POLY));
  }

  /** What calcCRC returns, as the uint16_t it is. */
  function Crc(data: seq<byte>): (c: word)
  {
    CrcFits(ToBits(data));
    Number(Narrow(ReflectedCrc.ModbusCRC(ToBits(data))))
  }

  /** The frame ends with the CRC of what precedes it, high byte first. */
  predicate CrcMatches(frame: seq<byte>)
    requires |frame| >= 2
  {
    Crc(frame[..|frame| - 2]) == frame[|frame| - 2] as int * 256 + frame[|frame| - 1]
  }

  /** A slave's frame: its bytes with their CRC in transmission order. */
  function Sealed(body: seq<byte>): seq<byte> { body + [Crc(body) / 256, Crc(body) % 256] }

  /** The answer to function codes 1 to 4. */
  function Response(address: byte, code: byte, data: seq<byte>): seq<byte>
    requires |data| < 256
  {
    Sealed([address, code, |data|] + data)
  }

  lemma {:induction false} SealedMatches(body: seq<byte>)
    ensures CrcMatches(Sealed(body))
  {
    hide Crc;
    assert Sealed(body)[..|body|] == body;
  }

  // ----- modbus_receive_packet

  /** How many data bytes a frame with this beginning announces. */
  function DataLength(head: seq<byte>): Option<byte>
    requires |head| == 3
  {
    var code := head[1];
    if code == 0x01 || code == 0x02 || code == 0x03 || code == 0x04 || code == 0x2B then Some(head[2])
    else if code == 0x05 || code == 0x06 || code == 0x0F || code == 0x10 then Some(6)
    else if code == 0x08 then Some(4)
    else if code >= 0x80 then Some(1)
    else None
  }

  /** The value returned for what arrives on the two reads. */
  function ReceiveResult(bufSize: nat, first: seq<byte>, second: seq<byte>): int {
    var head := Take(first, 3);
    if |head| != 3 then TIMEOUT
    else match DataLength(head)
      case None => NOT_SUPPORTED
      case Some(n) =>
        var rest := Take(second, n as int + 2);
        if 3 + n as int + 2 > bufSize then SIZE_OVER
        else if |rest| != n as int + 2 then DATA_LEN
        else if !CrcMatches(head + rest) then CRC_ERROR
        else 3 + n as int + 2
  }

  method Store(buf: array<byte>, at: nat, bytes: seq<byte>)
    requires at + |bytes| <= buf.Length
    modifies buf
    ensures buf[..at] == old(buf[..at]) && buf[at..at + |bytes|] == bytes
    ensures buf[at + |bytes|..] == old(buf[at + |bytes|..])
  {
    forall i | 0 <= i < |bytes| {
      buf[at + i] := bytes[i];
    }
  }

  method CalcCRC(data: seq<byte>) returns (c: word)
    ensures c == Crc(data)
  {
    hide ReflectedCrc.ModbusCRC, Narrow, Number;
    var r := ReflectedCrc.CalcCRC(ToBits(data));
    CrcFits(ToBits(data));
    c := Number(Narrow(r));
  }

  /** `first` and `second` are what the driver delivers for the two reads. */
  method ReceivePacket(rxBuf: array<byte>, bufSize: nat, first: seq<byte>, second: seq<byte>) returns (r: int)
    requires 3 <= rxBuf.Length && bufSize <= rxBuf.Length && bufSize < 0x1_0000
    modifies rxBuf
    ensures r == ReceiveResult(bufSize, first, second)
    ensures r > 0 ==> r <= bufSize && rxBuf[..r] == Take(first, 3) + Take(second, r - 3)
  {
    hide Crc, ReflectedCrc.ModbusCRC;
    var head := Take(first, 3);
    Store(rxBuf, 0, head);
    if |head| != 3 {
      return TIMEOUT;
    }
    assert rxBuf[0..3] == head && rxBuf[1] == head[1] && rxBuf[2] == head[2];
    var code := rxBuf[1];
    var dataLen: byte;
    if code == 0x01 || code == 0x02 || code == 0x03 || code == 0x04 || code == 0x2B {
      dataLen := rxBuf[2];
    } else if code == 0x05 || code == 0x06 || code == 0x0F || code == 0x10 {
      dataLen := 6;
    } else if code == 0x08 {
      dataLen := 4;
    } else if code >= 0x80 {
      dataLen := 1;
    } else {
      return NOT_SUPPORTED;
    }
    var totalLen := 3 + dataLen as int + 2;
    if totalLen > bufSize {
      return SIZE_OVER;
    }
    var rest := Take(second, dataLen as int + 2);
    ghost var before := rxBuf[..3];
    Store(rxBuf, 3, rest);
    if |rest| != dataLen as int + 2 {
      return DATA_LEN;
    }
    assert rxBuf[..totalLen] == head + rest by {
      assert rxBuf[..totalLen] == rxBuf[..3] + rxBuf[3..totalLen];
    }
    ghost var frame := rxBuf[..totalLen];
    assert frame[..totalLen - 2] == rxBuf[..totalLen - 2];
    var crcCalc := CalcCRC(rxBuf[..totalLen - 2]);
    var crcRecv := rxBuf[totalLen - 2] as int * 256 + rxBuf[totalLen - 1];
    assert rxBuf[totalLen - 2] == frame[totalLen - 2] && rxBuf[totalLen - 1] == frame[totalLen - 1];
    if crcCalc != crcRecv {
      return CRC_ERROR;
    }
    return totalLen;
  }

  /** A frame is accepted only when it arrived whole and its CRC matches. */
  lemma {:induction false} AcceptedIsSound(bufSize: nat, first: seq<byte>, second: seq<byte>)
    ensures var r := ReceiveResult(bufSize, first, second);
            r > 0 ==> 5 <= r <= bufSize && |first| >= 3 && |second| >= r - 3 && CrcMatches(first[..3] + second[..r - 3])
  {
    hide CrcMatches;
    var r := ReceiveResult(bufSize, first, second);
    if r > 0 {
      assert Take(first, 3) == first[..3] && Take(second, r - 3) == second[..r - 3];
    }
  }

  /** Every response that fits the buffer is accepted with its exact length. */
  lemma {:induction false} ResponseAccepted(address: byte, code: byte, data: seq<byte>, bufSize: nat, more: seq<byte>)
    requires 1 <= code <= 4 && |data| < 256 && |data| + 5 <= bufSize
    ensures var frame := Response(address, code, data);
            ReceiveResult(bufSize, frame[..3] + more, frame[3..] + more) == |frame| == |data| + 5
  {
    hide Crc;
    var body := [address, code, |data|] + data;
    var frame := Response(address, code, data);
    SealedMatches(body);
    var head := Take(frame[..3] + more, 3);
    assert head == [address, code, |data|];
    assert Take(frame[3..] + more, |data| + 2) == frame[3..];
    assert head + frame[3..] == frame;
  }

  // ----- parse_recv

  function CoilBit(frame: seq<byte>, k: nat): word
    requires 3 + k / 8 < |frame|
  {
    if BitOf(frame[3 + k / 8], k % 8) then 1 else 0
  }

  /** The registers after get_FC1: one coil each, as far as both reach. */
  function AfterCoils(frame: seq<byte>, regs: seq<word>): (r: seq<word>)
    requires |frame| >= 3 && |frame| >= 3 + frame[2] as int
    ensures |r| == |regs|
  {
    if frame[2] > |regs| * 2 then
      regs
    else
      seq(|regs|, k requires 0 <= k < |regs| => if k < frame[2] as int * 8 then CoilBit(frame, k) else regs[k])
  }

  function RegisterAt(frame: seq<byte>, k: nat): word
    requires 3 + 2 * k + 1 < |frame|
  {
    frame[3 + 2 * k] as int * 256 + frame[3 + 2 * k + 1]
  }

  /** The registers after get_FC3. */
  function AfterRegisters(frame: seq<byte>, regs: seq<word>): (r: seq<word>)
    requires |frame| >= 3 && |frame| >= 3 + frame[2] as int
    ensures |r| == |regs|
  {
    if frame[2] / 2 > |regs| then
      regs
    else
      seq(|regs|, k requires 0 <= k < |regs| => if k < frame[2] / 2 then RegisterAt(frame, k) else regs[k])
  }

  /** A read response whose data lies within the buffer, or any other frame. */
  predicate DataWithin(frame: seq<byte>) { |frame| >= 3 && (1 <= frame[1] <= 4 ==> |frame| >= 3 + frame[2] as int) }

  function AfterParse(frame: seq<byte>, regs: seq<word>): (r: seq<word>)
    requires DataWithin(frame)
    ensures |r| == |regs|
  {
    if frame[1] == 1 || frame[1] == 2 then AfterCoils(frame, regs)
    else if frame[1] == 3 || frame[1] == 4 then AfterRegisters(frame, regs)
    else regs
  }

  method GetFC1(inData: array<byte>, regs: array<word>)
    requires inData.Length >= 3 && inData.Length >= 3 + inData[2] as int
    modifies regs
    ensures regs[..] == AfterCoils(inData[..], old(regs[..]))
  {
    hide BitOf;
    ghost var was, frame := regs[..], inData[..];
    var byteCount := inData[2];
    if byteCount as int > regs.Length * 2 {
      return;
    }
    var i := 0;
    while i < byteCount as int
      invariant 0 <= i <= byteCount as int
      invariant forall k :: 0 <= k < regs.Length ==> regs[k] == if k < i * 8 then CoilBit(frame, k) else was[k]
    {
      var coilByte := inData[3 + i];
      var bit := 0;
      while bit < 8
        invariant 0 <= bit <= 8
        invariant forall k :: 0 <= k < regs.Length ==> regs[k] == if k < i * 8 + bit then CoilBit(frame, k) else was[k]
      {
        var coilIndex := i * 8 + bit;
        if coilIndex < regs.Length {
          regs[coilIndex] := if BitOf(coilByte, bit) then 1 else 0;
          assert coilIndex / 8 == i && coilIndex % 8 == bit;
        }
        bit := bit + 1;
      }
      i := i + 1;
    }
  }

  /** The byte index is a uint8_t: it wraps only after its last use. */
  method GetFC3(inData: array<byte>, regs: array<word>)
    requires inData.Length >= 3 && inData.Length >= 3 + inData[2] as int
    modifies regs
    ensures regs[..] == AfterRegisters(inData[..], old(regs[..]))
  {
    ghost var was, frame := regs[..], inData[..];
    if inData[2] as int / 2 > regs.Length {
      return;
    }
    var u8byte: byte := 3;
    var i := 0;
    while i < inData[2] as int / 2
      invariant 0 <= i <= inData[2] as int / 2
      invariant u8byte as int == (3 + 2 * i) % 256
      invariant forall k :: 0 <= k < regs.Length ==> regs[k] == if k < i then RegisterAt(frame, k) else was[k]
    {
      regs[i] := inData[u8byte] as int * 256 + inData[u8byte as int + 1];
      u8byte := (u8byte as int + 2) % 256;
      i := i + 1;
    }
  }

  method ParseRecv(inData: array<byte>, dataLen: nat, regs: array?<word>) returns (err: int)
    requires dataLen <= inData.Length && DataWithin(inData[..])
    modifies regs
    ensures err == if dataLen >= 2 && CrcMatches(inData[..dataLen]) then 0 else 1
    ensures regs != null ==> regs[..] == if err == 0 then AfterParse(inData[..], old(regs[..])) else old(regs[..])
  {
    hide Crc, AfterCoils, AfterRegisters;
    if dataLen < 2 {
      return 1;
    }
    ghost var frame := inData[..dataLen];
    assert frame[..dataLen - 2] == inData[..dataLen - 2];
    var crc := CalcCRC(inData[..dataLen - 2]);
    var crcReceived := inData[dataLen - 2] as int * 256 + inData[dataLen - 1];
    assert inData[dataLen - 2] == frame[dataLen - 2] && inData[dataLen - 1] == frame[dataLen - 1];
    if crc != crcReceived {
      return 1;
    }
    if regs != null {
      var code := inData[1];
      if code == 1 || code == 2 {
        GetFC1(inData, regs);
      } else if code == 3 || code == 4 {
        GetFC3(inData, regs);
      }
    }
    return 0;
  }

  /** What stands in the buffer behind a frame makes no difference. */
  lemma {:induction false} ParseTail(frame: seq<byte>, tail: seq<byte>, regs: seq<word>)
    requires DataWithin(frame)
    ensures DataWithin(frame + tail) && AfterParse(frame + tail, regs) == AfterParse(frame, regs)
  {
    hide BitOf;
    var r, r' := AfterParse(frame + tail, regs), AfterParse(frame, regs);
    assert forall i :: 0 <= i < |frame| ==> (frame + tail)[i] == frame[i];
    assert forall k :: 0 <= k < |regs| ==> r[k] == r'[k];
  }

  // ----- modbus_master_req

  const REQUEST_BUFFER := 120

  datatype Outcome = Okay | Fail | ParseFail | TimedOut | SizeOver | WrongLength | WrongCrc | Unsupported

  function OutcomeOf(r: int): Outcome {
    if r > 0 then Okay
    else if r == TIMEOUT then TimedOut
    else if r == SIZE_OVER then SizeOver
    else if r == DATA_LEN then WrongLength
    else if r == CRC_ERROR then WrongCrc
    else if r == NOT_SUPPORTED then Unsupported
    else Fail
  }

  /** The frame that was accepted with the result r. */
  function FrameOf(first: seq<byte>, second: seq<byte>, r: nat): seq<byte>
    requires r >= 3
  {
    Take(first, 3) + Take(second, r - 3)
  }

  lemma {:induction false} AcceptedWithin(bufSize: nat, first: seq<byte>, second: seq<byte>)
    ensures var r := ReceiveResult(bufSize, first, second);
            r > 0 ==> && 5 <= r <= bufSize && |FrameOf(first, second, r)| == r
                      && DataWithin(FrameOf(first, second, r)) && CrcMatches(FrameOf(first, second, r))
  {
    hide CrcMatches;
  }

  /** The registers after a request that was answered like this. */
  function Registers(first: seq<byte>, second: seq<byte>, regs: seq<word>): seq<word> {
    var r := ReceiveResult(REQUEST_BUFFER, first, second);
    if r > 0 then
      AcceptedWithin(REQUEST_BUFFER, first, second);
      AfterParse(FrameOf(first, second, r), regs)
    else
      regs
  }

  /** A request with the answer that the two reads deliver; a frame that was accepted never fails to parse. */
  method MasterReq(first: seq<byte>, second: seq<byte>, regs: array?<word>) returns (result: Outcome)
    modifies regs
    ensures result == OutcomeOf(ReceiveResult(REQUEST_BUFFER, first, second)) && result != ParseFail && result != Fail
    ensures regs != null ==> regs[..] == Registers(first, second, old(regs[..]))
  {
    hide CrcMatches, AfterParse, DataWithin, Take;
    var buff := new byte[REQUEST_BUFFER](_ => 0);
    result := Fail;
    var len := ReceivePacket(buff, buff.Length, first, second);
    AcceptedWithin(REQUEST_BUFFER, first, second);
    if len > 0 {
      ghost var frame, tail := buff[..len], buff[len..];
      assert buff[..] == frame + tail;
      ghost var was := if regs == null then [] else regs[..];
      ParseTail(frame, tail, was);
      var err := ParseRecv(buff, len, regs);
      if err == 0 {
        result := Okay;
      } else {
        result := ParseFail;
      }
    } else if len == TIMEOUT {
      result := TimedOut;
    } else if len == SIZE_OVER {
      result := SizeOver;
    } else if len == DATA_LEN {
      result := WrongLength;
    } else if len == CRC_ERROR {
      result := WrongCrc;
    } else if len == NOT_SUPPORTED {
      result := Unsupported;
    }
  }

  // ----- round trips

  /** Register values as a slave sends them, high byte first. */
  function Words(vals: seq<word>): (b: seq<byte>)
    ensures |b| == 2 * |vals|
  {
    if vals == [] then [] else [vals[0] / 256, vals[0] % 256] + Words(vals[1..])
  }

  lemma {:induction false} WordsAt(vals: seq<word>, k: nat)
    requires k < |vals|
    ensures Words(vals)[2 * k] as int * 256 + Words(vals)[2 * k + 1] == vals[k]
    decreases k
  {
    if k > 0 {
      WordsAt(vals[1..], k - 1);
    }
  }

  /** Up to eight coils in a byte, the first in its lowest bit. */
  function PackByte(bits: seq<bool>): nat {
    if bits == [] then 0 else (if bits[0] then 1 else 0) + 2 * PackByte(bits[1..])
  }

  function PowerOfTwo(k: nat): nat { if k == 0 then 1 else 2 * PowerOfTwo(k - 1) }

  lemma {:induction false} PackByteBound(bits: seq<bool>)
    ensures PackByte(bits) < PowerOfTwo(|bits|)
    decreases |bits|
  {
    if bits != [] {
      PackByteBound(bits[1..]);
    }
  }

  lemma {:induction false} PowersGrow(i: nat, j: nat)
    requires i <= j
    ensures PowerOfTwo(i) <= PowerOfTwo(j)
    decreases j
  {
    if i < j {
      PowersGrow(i, j - 1);
    }
  }

  lemma {:induction false} PackByteFits(bits: seq<bool>)
    requires |bits| <= 8
    ensures PackByte(bits) < 256
  {
    hide PackByte;
    PackByteBound(bits);
    assert PowerOfTwo(2) == 4;
    assert PowerOfTwo(4) == 2 * PowerOfTwo(3) && PowerOfTwo(3) == 2 * PowerOfTwo(2);
    assert PowerOfTwo(6) == 2 * PowerOfTwo(5) && PowerOfTwo(5) == 2 * PowerOfTwo(4);
    assert PowerOfTwo(8) == 2 * PowerOfTwo(7) && PowerOfTwo(7) == 2 * PowerOfTwo(6);
    PowersGrow(|bits|, 8);
  }

  lemma {:induction false} HalfZero(k: nat)
    ensures Half(0, k) == 0
    decreases k
  {
    if k > 0 {
      HalfZero(k - 1);
    }
  }

  lemma {:induction false} PackByteHalf(bits: seq<bool>, k: nat)
    ensures Half(PackByte(bits), k) % 2 == (if k < |bits| && bits[k] then 1 else 0)
    decreases k
  {
    if bits == [] {
      HalfZero(k);
    } else if k > 0 {
      PackByteHalf(bits[1..], k - 1);
    }
  }

  function Pack(bits: seq<bool>): (b: seq<byte>)
    ensures |b| == (|bits| + 7) / 8
    decreases |bits|
  {
    if |bits| <= 8 then
      if bits == [] then []
      else
        PackByteFits(bits);
        [PackByte(bits)]
    else
      PackByteFits(bits[..8]);
      [PackByte(bits[..8])] + Pack(bits[8..])
  }

  lemma {:induction false} PackAt(bits: seq<bool>, k: nat)
    requires k / 8 < |Pack(bits)|
    ensures BitOf(Pack(bits)[k / 8], k % 8) == (k < |bits| && bits[k])
    decreases |bits|
  {
    hide PackByte, Half;
    if |bits| <= 8 {
      PackByteFits(bits);
      PackByteHalf(bits, k % 8);
    } else if k < 8 {
      PackByteFits(bits[..8]);
      PackByteHalf(bits[..8], k);
    } else {
      PackAt(bits[8..], k - 8);
    }
  }

  /** Reading registers: exactly the slave's values arrive, and nothing else changes. */
  lemma {:induction false} RegistersRoundTrip(address: byte, code: byte, vals: seq<word>, regs: seq<word>, tail: seq<byte>)
    requires (code == 3 || code == 4) && |vals| < 128 && |vals| <= |regs|
    ensures var frame := Response(address, code, Words(vals));
            DataWithin(frame + tail) && AfterParse(frame + tail, regs) == vals + regs[|vals|..]
  {
    hide Crc;
    var frame := Response(address, code, Words(vals));
    assert frame[1] == code && frame[2] == 2 * |vals|;
    var r := AfterParse(frame, regs);
    ParseTail(frame, tail, regs);
    forall k | 0 <= k < |regs|
      ensures r[k] == (vals + regs[|vals|..])[k]
    {
      if k < |vals| {
        WordsAt(vals, k);
        assert frame[3 + 2 * k] == Words(vals)[2 * k] && frame[3 + 2 * k + 1] == Words(vals)[2 * k + 1];
      }
    }
  }

  /** Register k when these coils were sent. */
  function CoilSent(bits: seq<bool>, regs: seq<word>, k: nat): word
    requires k < |regs|
  {
    if k < |bits| then (if bits[k] then 1 else 0) else if k < |Pack(bits)| * 8 then 0 else regs[k]
  }

  /** Reading coils: one register for each, zeros for the padding of the last byte. */
  lemma {:induction false} CoilsRoundTrip(address: byte, code: byte, bits: seq<bool>, regs: seq<word>, tail: seq<byte>, k: nat)
    requires (code == 1 || code == 2) && |bits| <= 2040 && |Pack(bits)| <= |regs| * 2 && k < |regs|
    ensures var frame := Response(address, code, Pack(bits));
            DataWithin(frame + tail) && AfterParse(frame + tail, regs)[k] == CoilSent(bits, regs, k)
  {
    hide Crc, BitOf, Pack;
    var frame := Response(address, code, Pack(bits));
    assert frame[1] == code && frame[2] == |Pack(bits)|;
    ParseTail(frame, tail, regs);
    if k < |Pack(bits)| * 8 {
      PackAt(bits, k);
      assert frame[3 + k / 8] == Pack(bits)[k / 8];
    }
  }

  /** A response too large for the registers, or damaged, leaves them as they were. */
  lemma {:induction false} TooLargeIgnored(address: byte, code: byte, data: seq<byte>, regs: seq<word>, tail: seq<byte>)
    requires |data| < 256
    requires code == 1 || code == 2 ==> |data| > |regs| * 2
    requires code == 3 || code == 4 ==> |data| / 2 > |regs|
    ensures var frame := Response(address, code, data);
            DataWithin(frame + tail) && AfterParse(frame + tail, regs) == regs
  {
    hide Crc;
    var frame := Response(address, code, data);
    assert frame[1] == code && frame[2] == |data|;
    ParseTail(frame, tail, regs);
  }

  /** A response on the line and what the master makes of it, whatever else is on the line behind each read. */
  lemma {:induction false} ResponseParsed(address: byte, code: byte, data: seq<byte>, more: seq<byte>, regs: seq<word>)
    requires 1 <= code <= 4 && |data| < 256
    ensures var frame := Response(address, code, data);
            var r := ReceiveResult(REQUEST_BUFFER, frame[..3] + more, frame[3..] + more);
            && DataWithin(frame)
            && OutcomeOf(r) == (if |data| + 5 <= REQUEST_BUFFER then Okay else SizeOver)
            && Registers(frame[..3] + more, frame[3..] + more, regs) ==
               if |data| + 5 <= REQUEST_BUFFER then AfterParse(frame, regs) else regs
  {
    hide Crc, AfterParse, CrcMatches;
    var frame := Response(address, code, data);
    assert frame[1] == code && frame[2] == |data|;
    assert Take(frame[..3] + more, 3) == frame[..3];
    assert Take(frame[3..] + more, |data| + 2) == frame[3..];
    assert frame[..3] + frame[3..] == frame;
    if |data| + 5 <= REQUEST_BUFFER {
      ResponseAccepted(address, code, data, REQUEST_BUFFER, more);
    }
  }

  /**
   * Reading registers over the line: the slave's values arrive if and only if the frame fits the
   * buffer and the values fit the registers; in the second case the request still reports success.
   */
  lemma {:induction false} RegistersRead(address: byte, code: byte, vals: seq<word>, more: seq<byte>, regs: seq<word>)
    requires (code == 3 || code == 4) && |vals| < 128
    ensures var frame := Response(address, code, Words(vals));
            var r := ReceiveResult(REQUEST_BUFFER, frame[..3] + more, frame[3..] + more);
            && OutcomeOf(r) == (if |vals| <= 57 then Okay else SizeOver)
            && Registers(frame[..3] + more, frame[3..] + more, regs) ==
               if |vals| <= 57 && |vals| <= |regs| then vals + regs[|vals|..] else regs
  {
    hide Crc, AfterParse, ReceiveResult, Registers;
    var frame := Response(address, code, Words(vals));
    ResponseParsed(address, code, Words(vals), more, regs);
    assert frame + [] == frame;
    if |vals| <= |regs| {
      RegistersRoundTrip(address, code, vals, regs, []);
    } else {
      TooLargeIgnored(address, code, Words(vals), regs, []);
    }
  }

  /** The same for coils, which take a register each but are checked against two to a byte. */
  lemma {:induction false} CoilsRead(address: byte, code: byte, bits: seq<bool>, more: seq<byte>, regs: seq<word>, k: nat)
    requires (code == 1 || code == 2) && |bits| <= 2040 && k < |regs|
    ensures var frame := Response(address, code, Pack(bits));
            var r := ReceiveResult(REQUEST_BUFFER, frame[..3] + more, frame[3..] + more);
            var after := Registers(frame[..3] + more, frame[3..] + more, regs);
            && OutcomeOf(r) == (if |bits| <= 920 then Okay else SizeOver) && |after| == |regs|
            && after[k] == if |bits| <= 920 && |Pack(bits)| <= |regs| * 2 then CoilSent(bits, regs, k) else regs[k]
  {
    hide Crc, AfterParse, ReceiveResult, Registers, Pack, CoilSent;
    var frame := Response(address, code, Pack(bits));
    ResponseParsed(address, code, Pack(bits), more, regs);
    assert frame + [] == frame;
    if |Pack(bits)| <= |regs| * 2 {
      CoilsRoundTrip(address, code, bits, regs, [], k);
    } else {
      TooLargeIgnored(address, code, Pack(bits), regs, []);
    }
  }

  /**
   * The answers to a write (8 bytes) and an exception (5 bytes), as the Modbus protocol has them, are
   * both shorter than the master waits for: with nothing behind them they are refused.
   */
  lemma {:induction false} ShortAnswersRefused(body: seq<byte>, bufSize: nat)
    requires if |body| == 6 then body[1] == 5 || body[1] == 6 || body[1] == 15 || body[1] == 16
             else |body| == 3 && body[1] >= 0x80
    ensures var frame := Sealed(body);
            ReceiveResult(bufSize, frame[..3], frame[3..]) ==
            if bufSize < (if body[1] >= 0x80 then 6 else 11) then SIZE_OVER else DATA_LEN
  {
    hide Crc;
    var frame := Sealed(body);
    assert Take(frame[..3], 3) == frame[..3];
    assert Take(frame[3..], 8) == frame[3..];
  }

  lemma {:induction false} SameNumber(v: bv16, w: bv16)
    requires Number(v) == Number(w)
    ensures v == w
  {
    assert (v as int) as bv16 == v && (w as int) as bv16 == w;
  }

  lemma {:induction false} SameNarrow(v: bv32, w: bv32)
    requires v <= 0xFFFF && w <= 0xFFFF && Narrow(v) == Narrow(w)
    ensures v == w
  {
  }

  lemma {:induction false} CrcCollides(p: seq<byte>, a: byte, b: byte, c: byte, d: byte, q: seq<byte>)
    requires Crc(p + [a, b] + q) == Crc(p + [c, d] + q)
    ensures a == c && b == d
  {
    hide ToBits, BitsOf, ReflectedCrc.ModbusCRC, Narrow, Number;
    BitsJoin(p, a, b, q);
    BitsJoin(p, c, d, q);
    var x, y := ToBits(p + [a, b] + q), ToBits(p + [c, d] + q);
    CrcFits(x);
    CrcFits(y);
    SameNumber(Narrow(ReflectedCrc.ModbusCRC(x)), Narrow(ReflectedCrc.ModbusCRC(y)));
    SameNarrow(ReflectedCrc.ModbusCRC(x), ReflectedCrc.ModbusCRC(y));
    if BitsOf(a) != BitsOf(c) || BitsOf(b) != BitsOf(d) {
      ReflectedCrc.ModbusTwoBytesDetected(ToBits(p), BitsOf(a), BitsOf(b), BitsOf(c), BitsOf(d), ToBits(q));
    }
    BitsInjective(a, c);
    BitsInjective(b, d);
  }

  /** Damage confined to two adjacent bytes before the CRC is always noticed. */
  lemma {:induction false} DamageNoticed(p: seq<byte>, a: byte, b: byte, c: byte, d: byte, q: seq<byte>)
    requires a != c || b != d
    ensures var crc := Crc(p + [a, b] + q);
            !CrcMatches(p + [c, d] + q + [crc / 256, crc % 256])
  {
    hide ToBits, BitsOf, ReflectedCrc.ModbusCRC;
    var crc := Crc(p + [a, b] + q);
    var frame := p + [c, d] + q + [crc / 256, crc % 256];
    assert frame[..|frame| - 2] == p + [c, d] + q;
    if CrcMatches(frame) {
      CrcCollides(p, a, b, c, d, q);
    }
  }

  // ----- what the outcomes mean

  lemma {:induction false} Announced(head: seq<byte>)
    requires |head| == 3
    ensures DataLength(head).None? <==> head[1] < 128 && head[1] !in {1, 2, 3, 4, 5, 6, 8, 15, 16, 43}
    ensures DataLength(head).Some? ==>
            DataLength(head).value == if head[1] in {1, 2, 3, 4, 43} then head[2] else if head[1] >= 128 then 1
                                      else if head[1] == 8 then 4 else 6
  {
  }

  /** The values modbus_receive_packet returns, told apart by what arrived. */
  lemma {:induction false} ResultsExact(bufSize: nat, first: seq<byte>, second: seq<byte>)
    ensures var r := ReceiveResult(bufSize, first, second);
            && (r == -1 <==> |first| < 3)
            && (|first| >= 3 ==>
                  && (r == -99 <==> first[1] < 128 && first[1] !in {1, 2, 3, 4, 5, 6, 8, 15, 16, 43})
                  && (r != -99 ==>
                        var n := if first[1] in {1, 2, 3, 4, 43} then first[2] else if first[1] >= 128 then 1
                                 else if first[1] == 8 then 4 else 6;
                        && (r == -3 <==> n as int + 5 > bufSize)
                        && (r == -4 <==> n as int + 5 <= bufSize && |second| < n as int + 2)
                        && (r == -5 <==> n as int + 5 <= bufSize && |second| >= n as int + 2
                                         && !CrcMatches(first[..3] + second[..n as int + 2]))
                        && (r > 0 <==> n as int + 5 <= bufSize && |second| >= n as int + 2
                                       && CrcMatches(first[..3] + second[..n as int + 2]))))
  {
    hide CrcMatches, DataLength;
    if |first| >= 3 {
      var head := first[..3];
      assert Take(first, 3) == head && head[1] == first[1] && head[2] == first[2];
      Announced(head);
      if DataLength(head).Some? && |second| >= DataLength(head).value as int + 2 {
        assert Take(second, DataLength(head).value as int + 2) == second[..DataLength(head).value as int + 2];
      }
    }
  }

  /** A request succeeds, or says why it does not and leaves the registers alone. */
  lemma {:induction false} OutcomesExact(first: seq<byte>, second: seq<byte>, regs: seq<word>)
    ensures var r := ReceiveResult(120, first, second);
            && (OutcomeOf(r) == TimedOut <==> r == -1) && (OutcomeOf(r) == Unsupported <==> r == -99)
            && (OutcomeOf(r) == SizeOver <==> r == -3) && (OutcomeOf(r) == WrongLength <==> r == -4)
            && (OutcomeOf(r) == WrongCrc <==> r == -5) && (OutcomeOf(r) == Okay <==> r > 0)
            && (OutcomeOf(r) != Okay ==> Registers(first, second, regs) == regs)
  {
    hide ReceiveResult;
  }

  /**
   * A frame that was damaged within two adjacent bytes, its function code and length intact, gives a
   * CRC error and changes no register.
   */
  lemma {:induction false} DamagedRefused(p: seq<byte>, a: byte, b: byte, c: byte, d: byte, q: seq<byte>, regs: seq<word>)
    requires var body, bad := p + [a, b] + q, p + [c, d] + q;
             |body| >= 3 && bad[1..3] == body[1..3] && 1 <= body[1] <= 4 && |body| == 3 + body[2] as int <= 118
    requires a != c || b != d
    ensures var frame := p + [c, d] + q + Sealed(p + [a, b] + q)[|p + [a, b] + q|..];
            && OutcomeOf(ReceiveResult(120, frame[..3], frame[3..])) == WrongCrc
            && Registers(frame[..3], frame[3..], regs) == regs
  {
    hide Crc, CrcMatches;
    var body, bad := p + [a, b] + q, p + [c, d] + q;
    var frame := bad + Sealed(body)[|body|..];
    DamageNoticed(p, a, b, c, d, q);
    assert Sealed(body)[|body|..] == [Crc(body) / 256, Crc(body) % 256];
    assert frame[1] == bad[1] == bad[1..3][0] == body[1] && frame[2] == bad[2] == bad[1..3][1] == body[2];
    assert frame[..3] + frame[3..][..|body| - 1] == frame;
    ResultsExact(120, frame[..3], frame[3..]);
    OutcomesExact(frame[..3], frame[3..], regs);
  }
}
