/**
 * The pending slot and the subscriber table of Middlewares/cellular/dispatcher.c.
 *
 * The functions say who takes a frame and what a caller's buffer holds afterwards; the class
 * does it in place, with the lock held; DispatcherProtocol uses the same functions for the steps
 * of its threads.
 */
module Dispatcher {
  import opened Bytes

  const MAX_SUBS := 8
  const PREFIX_SIZE := 32

  /** A subscriber slot; `cb` is a callback with its context, `None` the null pointer. */
  datatype Sub = Sub(active: bool, prefix: seq<byte>, cb: Option<nat>)

  const NO_SUB := Sub(false, [], None)

  /** Who gets a frame. */
  datatype Route = ToSender(index: nat) | ToSub(k: nat) | Dropped

  predicate Matches(prefix: seq<byte>, frame: seq<byte>) { prefix <= frame }

  ghost predicate NulFree(s: seq<byte>) { forall k :: 0 <= k < |s| ==> s[k] != 0 }

  /** strncmp(data, prefix, strlen(prefix)) == 0, byte by byte, ending early at a NUL. */
  predicate StrnEqual(data: seq<byte>, prefix: seq<byte>, i: nat)
    requires i <= |prefix|
    decreases |prefix| - i
  {
    i == |prefix| || (i < |data| && data[i] == prefix[i] && (data[i] == 0 || StrnEqual(data, prefix, i + 1)))
  }

  /** On a frame that the driver has ended with a NUL it says whether the frame begins with the prefix. */
  lemma {:induction false} StrnEqualIs(data: seq<byte>, len: nat, prefix: seq<byte>, i: nat)
    requires len < |data| && data[len] == 0 && NulFree(prefix) && i <= |prefix| && i <= len && prefix[..i] == data[..i]
    ensures StrnEqual(data, prefix, i) <==> Matches(prefix, data[..len])
    decreases |prefix| - i
  {
    if i < |prefix| {
      if data[i] == prefix[i] {
        assert i < len;
        assert prefix[..i + 1] == prefix[..i] + [prefix[i]] && data[..i + 1] == data[..i] + [data[i]];
        StrnEqualIs(data, len, prefix, i + 1);
      }
    } else {
      assert prefix[..i] == prefix && data[..len][..i] == data[..i];
    }
  }

  predicate Begins(data: seq<byte>, len: nat, prefix: seq<byte>): (b: bool)
    requires len < |data| && data[len] == 0 && NulFree(prefix)
    ensures b == Matches(prefix, data[..len])
  {
    StrnEqualIs(data, len, prefix, 0);
    StrnEqual(data, prefix, 0)
  }

  /** The least index of an ACK prefix that matches. */
  function LeastAck(acks: seq<seq<byte>>, frame: seq<byte>, from: nat): (j: Option<nat>)
    requires from <= |acks|
    ensures j.Some? ==> from <= j.value < |acks| && Matches(acks[j.value], frame)
    ensures forall k | from <= k < |acks| && (j.Some? ==> k < j.value) :: !Matches(acks[k], frame)
    decreases |acks| - from
  {
    if from == |acks| then None
    else if Matches(acks[from], frame) then Some(from)
    else LeastAck(acks, frame, from + 1)
  }

  /** An empty list of ACK prefixes accepts any frame, as index 0. */
  function SyncMatch(acks: seq<seq<byte>>, frame: seq<byte>): (j: Option<nat>)
    ensures j.Some? && acks != [] ==> j.value < |acks| && Matches(acks[j.value], frame)
    ensures j.Some? ==> forall k | 0 <= k < j.value :: k < |acks| && !Matches(acks[k], frame)
    ensures j.None? ==> acks != [] && forall k | 0 <= k < |acks| :: !Matches(acks[k], frame)
  {
    if acks == [] then Some(0) else LeastAck(acks, frame, 0)
  }

  predicate Wants(s: Sub, frame: seq<byte>) { s.active && Matches(s.prefix, frame) }

  function FirstSub(subs: seq<Sub>, frame: seq<byte>, from: nat): (k: Option<nat>)
    requires from <= |subs|
    ensures k.Some? ==> from <= k.value < |subs| && Wants(subs[k.value], frame)
    ensures forall i | from <= i < |subs| && (k.Some? ==> i < k.value) :: !Wants(subs[i], frame)
    decreases |subs| - from
  {
    if from == |subs| then None
    else if Wants(subs[from], frame) then Some(from)
    else FirstSub(subs, frame, from + 1)
  }

  function RouteOf(active: bool, acks: seq<seq<byte>>, subs: seq<Sub>, frame: seq<byte>): Route {
    if active && SyncMatch(acks, frame).Some? then ToSender(SyncMatch(acks, frame).value)
    else if FirstSub(subs, frame, 0).Some? then ToSub(FirstSub(subs, frame, 0).value)
    else Dropped
  }

  /** The smaller of the two lengths. */
  function CopyLength(frame: seq<byte>, size: nat): (n: nat)
    ensures n <= |frame| && n <= size && (n == |frame| || n == size)
  {
    if |frame| < size then |frame| else size
  }

  /** The response buffer after a frame has been copied into its front. */
  function Filled(frame: seq<byte>, size: nat, buf: seq<byte>): (r: seq<byte>)
    requires size <= |buf|
    ensures |r| == |buf|
    ensures forall k :: 0 <= k < |buf| ==> r[k] == if k < |frame| && k < size then frame[k] else buf[k]
  {
    frame[..CopyLength(frame, size)] + buf[CopyLength(frame, size)..]
  }

  /** The first subscriber slot not in use. */
  function FreeSub(subs: seq<Sub>, from: nat): (k: Option<nat>)
    requires from <= |subs|
    ensures k.Some? ==> from <= k.value < |subs| && !subs[k.value].active
    ensures forall i | from <= i < |subs| && (k.Some? ==> i < k.value) :: subs[i].active
    decreases |subs| - from
  {
    if from == |subs| then None else if !subs[from].active then Some(from) else FreeSub(subs, from + 1)
  }

  /** What fits a slot of 32 bytes with its NUL. */
  function Truncated(prefix: seq<byte>): (r: seq<byte>)
    ensures r <= prefix && |r| == if |prefix| < 31 then |prefix| else 31
  {
    if |prefix| < PREFIX_SIZE then prefix else prefix[..PREFIX_SIZE - 1]
  }

  /** A subscription takes the frames that agree with the first 31 bytes of its prefix, and no others. */
  lemma {:induction false} Truncates(prefix: seq<byte>, cb: Option<nat>, frame: seq<byte>)
    ensures Wants(Sub(true, Truncated(prefix), cb), frame) <==>
            forall k | 0 <= k < 31 && k < |prefix| :: k < |frame| && frame[k] == prefix[k]
  {
    var kept := Truncated(prefix);
    if forall k | 0 <= k < 31 && k < |prefix| :: k < |frame| && frame[k] == prefix[k] {
      if kept != [] {
        assert prefix[|kept| - 1] == kept[|kept| - 1];
      }
      assert kept == frame[..|kept|];
    }
  }

  /** The pending slot and the subscribers; the methods below run with the lock held. */
  class Table {
    var active: bool
    var ackList: seq<seq<byte>>
    var respBuf: array?<byte>
    var respBufSize: nat
    var respLen: nat
    var matchedIndex: array?<nat>
    var token: nat
    const subs: array<Sub>

    ghost predicate Valid()
      reads this, respBuf, matchedIndex, subs
    {
      && subs.Length == MAX_SUBS && (forall k :: 0 <= k < MAX_SUBS ==> NulFree(subs[k].prefix))
      && (forall k :: 0 <= k < |ackList| ==> NulFree(ackList[k]))
      && (respBuf != null ==> respBufSize <= respBuf.Length)
      && (matchedIndex != null ==> matchedIndex.Length == 1)
    }

    ghost function Buffer(): seq<byte>
      reads this, respBuf
    {
      if respBuf == null then [] else respBuf[..]
    }

    ghost function Index(): seq<nat>
      reads this, matchedIndex
    {
      if matchedIndex == null then [] else matchedIndex[..]
    }

    constructor ()
      ensures Valid() && !active && fresh(subs) && subs.Length == 8
      ensures forall k | 0 <= k < subs.Length :: !subs[k].active
    {
      active, ackList, respBuf, respBufSize, respLen, matchedIndex, token := false, [], null, 0, 0, null, 0;
      subs := new Sub[MAX_SUBS](_ => NO_SUB);
    }

    /** Fill in the slot for a synchronous request. */
    method Arm(acks: seq<seq<byte>>, buf: array?<byte>, size: nat, index: array?<nat>)
      requires Valid() && !active && (buf != null ==> size <= buf.Length) && (index != null ==> index.Length == 1)
      requires forall k :: 0 <= k < |acks| ==> NulFree(acks[k])
      modifies this
      ensures Valid() && active && ackList == acks && respBuf == buf && respBufSize == size
      ensures matchedIndex == index && respLen == 0 && token == 0
    {
      active, ackList, respBuf, respBufSize, respLen, matchedIndex, token := true, acks, buf, size, 0, index, 0;
    }

    /**
     * Take a frame of `len` bytes, which the driver has ended with a NUL: answer the pending request,
     * or name the subscriber to call.
     */
    method HandleFrame(data: seq<byte>, len: nat) returns (route: Route)
      requires Valid() && len < |data| && data[len] == 0
      modifies this, respBuf, matchedIndex
      ensures Valid() && respBuf == old(respBuf) && matchedIndex == old(matchedIndex) && ackList == old(ackList)
      ensures respBufSize == old(respBufSize)
      ensures route == RouteOf(old(active), old(ackList), old(subs[..]), data[..len]) && subs[..] == old(subs[..])
      ensures !route.ToSender? ==>
                && active == old(active) && token == old(token) && respLen == old(respLen)
                && Buffer() == old(Buffer()) && Index() == old(Index())
      ensures route.ToSender? ==> !active && token == 1 && respLen == if len < respBufSize then len else respBufSize
      ensures route.ToSender? && respBuf != null ==> Buffer() == Filled(data[..len], respBufSize, old(Buffer()))
      ensures route.ToSender? && matchedIndex != null ==> Index() == [route.index]
    {
      var frame := data[..len];
      if active {
        var j := 0;
        while j < |ackList|
          invariant j <= |ackList| && LeastAck(ackList, frame, j) == LeastAck(ackList, frame, 0)
        {
          if Begins(data, len, ackList[j]) {
            Respond(frame, j);
            return ToSender(j);
          }
          j := j + 1;
        }
        if |ackList| == 0 || (|ackList| == 1 && ackList[0] == []) {
          Respond(frame, 0);
          return ToSender(0);
        }
      }
      var i := 0;
      while i < MAX_SUBS
        invariant i <= MAX_SUBS && FirstSub(subs[..], frame, i) == FirstSub(subs[..], frame, 0)
      {
        if subs[i].active {
          if subs[i].prefix == [] || Begins(data, len, subs[i].prefix) {
            return ToSub(i);
          }
        }
        i := i + 1;
      }
      return Dropped;
    }

    /** Copy the frame, note the index, close the slot and release the semaphore. */
    method Respond(frame: seq<byte>, j: nat)
      requires Valid()
      modifies this`respLen, this`active, this`token, respBuf, matchedIndex
      ensures Valid() && !active && token == 1
      ensures respLen == if |frame| < respBufSize then |frame| else respBufSize
      ensures respBuf != null ==> Buffer() == Filled(frame, respBufSize, old(Buffer()))
      ensures matchedIndex != null ==> Index() == [j]
    {
      var copyLen := CopyLength(frame, respBufSize);
      if respBuf != null {
        forall k | 0 <= k < copyLen {
          respBuf[k] := frame[k];
        }
        assert respBuf[..] == Filled(frame, respBufSize, old(Buffer()));
      }
      respLen := copyLen;
      if matchedIndex != null {
        matchedIndex[0] := j;
      }
      active := false;
      token := 1;
    }

    method Subscribe(prefix: Option<seq<byte>>, cb: Option<nat>) returns (id: int)
      requires Valid() && (prefix.Some? ==> NulFree(prefix.value))
      modifies subs
      ensures Valid()
      ensures id == -1 ==> subs[..] == old(subs[..]) && (prefix.None? || FreeSub(subs[..], 0).None?)
      ensures id != -1 ==> prefix.Some? && FreeSub(old(subs[..]), 0) == Some(id)
                           && subs[..] == old(subs[..])[id := Sub(true, Truncated(prefix.value), cb)]
    {
      if prefix.None? {
        return -1;
      }
      var i := 0;
      while i < MAX_SUBS
        invariant i <= MAX_SUBS && subs[..] == old(subs[..]) && FreeSub(subs[..], i) == FreeSub(subs[..], 0)
      {
        if !subs[i].active {
          subs[i] := Sub(true, Truncated(prefix.value), cb);
          return i;
        }
        i := i + 1;
      }
      return -1;
    }

    method Unsubscribe(id: int)
      requires Valid()
      modifies subs
      ensures Valid()
      ensures subs[..] == if 0 <= id < MAX_SUBS then old(subs[..])[id := NO_SUB] else old(subs[..])
    {
      if id < 0 || id >= MAX_SUBS {
        return;
      }
      subs[id] := NO_SUB;
    }
  }
}
