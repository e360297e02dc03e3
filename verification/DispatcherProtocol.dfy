/** The AT dispatcher as a transition system, over every interleaving of its threads. */
module DispatcherProtocol {
  import opened Bytes
  import opened Dispatcher

  // Any number of dispatcher_send_sync calls, one receiver, subscribers coming and going, two mutexes,
  // and a semaphore for each call. A step ends at each lock or semaphore operation, so every interleaving
  // of the threads is a run.

  type CallId = nat
  type SemId = nat

  /** What a caller passes in; the buffer contents and index are those at the time of the call. */
  datatype Args = Args(acks: seq<seq<byte>>, hasBuf: bool, size: nat, buf: seq<byte>, hasIndex: bool, index: nat)

  predicate WfArgs(a: Args) { a.hasBuf ==> a.size <= |a.buf| }

  /** Where a call of dispatcher_send_sync is. */
  datatype Pc =
    | Begin                 // before the modem lock
    | WantLock              // modem lock held, waiting for the internal lock
    | InLock                // both held
    | Waiting               // armed and sent, waiting for the semaphore
    | GotToken              // semaphore acquired, response length not read yet
    | TimedOut              // waiting for the internal lock after a timeout
    | TimedOutLocked        // both held after a timeout
    | Cleanup(code: int)    // about to delete the semaphore
    | Leaving(code: int)    // about to release the modem lock
    | Returned(code: int)

  /** A call with the caller's buffer and index; `armedAt` and `answer` count handled frames. */
  datatype Call = Call(args: Args, pc: Pc, buf: seq<byte>, index: nat, armedAt: nat, answer: Option<nat>)

  datatype Holder = Free | Caller(c: CallId) | Receiver

  /** The receiving task inside dispatcher_handle_frame. */
  datatype RecvPc = Listening | WantsLock(frame: seq<byte>) | Handling(frame: seq<byte>) | Signalling | Unlocking

  /** The pending slot; the pointers into the caller's storage are the caller's identity. */
  datatype Slot = Slot(active: bool, owner: CallId, acks: seq<seq<byte>>, hasBuf: bool, size: nat, hasIndex: bool,
                       respLen: nat, sem: Option<SemId>)

  datatype Callback = Callback(frameNo: nat, k: nat)
  datatype Response = Response(frameNo: nat, c: CallId)

  datatype State = State(calls: map<CallId, Call>, modem: Option<CallId>, lock: Holder, slot: Slot,
                         sems: map<SemId, nat>, subs: seq<Sub>, recv: RecvPc,
                         history: seq<seq<byte>>, responses: seq<Response>, callbacks: seq<Callback>)

  // ----- steps

  function SetPc(s: State, c: CallId, pc: Pc): State
    requires c in s.calls
  {
    s.(calls := s.calls[c := s.calls[c].(pc := pc)])
  }

  predicate AtPc(s: State, c: CallId, pc: Pc) { c in s.calls && s.calls[c].pc == pc }

  /** Right after dispatcher_init: `init` is the semaphore it creates and puts in the slot. */
  predicate Init(s: State, init: SemId) {
    && s.calls == map[] && s.modem == None && s.lock == Free && s.recv == Listening
    && !s.slot.active && s.slot.sem == Some(init) && s.sems == map[init := 0]
    && s.subs == seq(MAX_SUBS, _ => NO_SUB) && s.history == [] && s.responses == [] && s.callbacks == []
  }

  predicate NewCall(s: State, t: State, c: CallId, a: Args) {
    c !in s.calls && WfArgs(a) && t == s.(calls := s.calls[c := Call(a, Begin, a.buf, a.index, 0, None)])
  }

  predicate ModemFails(s: State, t: State, c: CallId) {
    AtPc(s, c, Begin) && t == SetPc(s, c, Returned(-1))
  }

  predicate AcquireModem(s: State, t: State, c: CallId) {
    AtPc(s, c, Begin) && s.modem == None && t == SetPc(s, c, WantLock).(modem := Some(c))
  }

  predicate AcquireLock(s: State, t: State, c: CallId) {
    s.lock == Free &&
    ((AtPc(s, c, WantLock) && t == SetPc(s, c, InLock).(lock := Caller(c))) ||
     (AtPc(s, c, TimedOut) && t == SetPc(s, c, TimedOutLocked).(lock := Caller(c))))
  }

  /** The branch the modem lock is meant to rule out: another request is already pending. */
  predicate AlreadyActive(s: State, t: State, c: CallId) {
    AtPc(s, c, InLock) && s.slot.active && t == SetPc(s, c, Leaving(-1)).(lock := Free)
  }

  function SlotFor(c: CallId, a: Args, active: bool, sem: Option<SemId>): Slot {
    Slot(active, c, a.acks, a.hasBuf, a.size, a.hasIndex, 0, sem)
  }

  /** No semaphore could be created, or there is no interface to send through. */
  predicate ArmFails(s: State, t: State, c: CallId) {
    AtPc(s, c, InLock) && !s.slot.active &&
    t == SetPc(s, c, Leaving(-1)).(lock := Free, slot := SlotFor(c, s.calls[c].args, false, None))
  }

  /** The slot is filled in with a new semaphore and the command sent. */
  predicate Arm(s: State, t: State, c: CallId, q: SemId) {
    AtPc(s, c, InLock) && !s.slot.active && q !in s.sems &&
    t == s.(calls := s.calls[c := s.calls[c].(pc := Waiting, armedAt := |s.history|)], lock := Free,
            slot := SlotFor(c, s.calls[c].args, true, Some(q)), sems := s.sems[q := 0])
  }

  predicate TakeToken(s: State, t: State, c: CallId) {
    AtPc(s, c, Waiting) && s.slot.sem.Some? && s.slot.sem.value in s.sems && s.sems[s.slot.sem.value] > 0 &&
    t == SetPc(s, c, GotToken).(sems := s.sems[s.slot.sem.value := s.sems[s.slot.sem.value] - 1])
  }

  predicate ReadLength(s: State, t: State, c: CallId) {
    AtPc(s, c, GotToken) && t == SetPc(s, c, Cleanup(s.slot.respLen))
  }

  predicate Timeout(s: State, t: State, c: CallId) {
    AtPc(s, c, Waiting) && t == SetPc(s, c, TimedOut)
  }

  predicate Deactivate(s: State, t: State, c: CallId) {
    AtPc(s, c, TimedOutLocked) && t == SetPc(s, c, Cleanup(-1)).(lock := Free, slot := s.slot.(active := false))
  }

  predicate DeleteSem(s: State, t: State, c: CallId) {
    c in s.calls && s.calls[c].pc.Cleanup? &&
    t == SetPc(s, c, Leaving(s.calls[c].pc.code)).(
           sems := if s.slot.sem.Some? then s.sems - {s.slot.sem.value} else s.sems, slot := s.slot.(sem := None))
  }

  predicate ReleaseModem(s: State, t: State, c: CallId) {
    c in s.calls && s.calls[c].pc.Leaving? && t == SetPc(s, c, Returned(s.calls[c].pc.code)).(modem := None)
  }

  predicate FrameArrives(s: State, t: State, f: seq<byte>) {
    s.recv == Listening && t == s.(recv := WantsLock(f))
  }

  predicate RecvLock(s: State, t: State) {
    s.recv.WantsLock? && s.lock == Free && t == s.(recv := Handling(s.recv.frame), lock := Receiver)
  }

  /** The pending request takes the frame: copied through the slot's pointers, index noted, slot closed. */
  predicate Answer(s: State, t: State) {
    s.recv.Handling? &&
    var f := s.recv.frame;
    var r := RouteOf(s.slot.active, s.slot.acks, s.subs, f);
    r.ToSender? && s.slot.owner in s.calls &&
    var o := s.calls[s.slot.owner];
    (s.slot.hasBuf ==> s.slot.size <= |o.buf|) &&
    t == s.(calls := s.calls[s.slot.owner := o.(
                       buf := if s.slot.hasBuf then Filled(f, s.slot.size, o.buf) else o.buf,
                       index := if s.slot.hasIndex then r.index else o.index,
                       answer := Some(|s.history|))],
            slot := s.slot.(active := false, respLen := CopyLength(f, s.slot.size)),
            history := s.history + [f], responses := s.responses + [Response(|s.history|, s.slot.owner)],
            recv := Signalling)
  }

  /** The slot's semaphore is released, to at most one token. */
  predicate Signal(s: State, t: State) {
    s.recv.Signalling? &&
    t == s.(recv := Unlocking,
            sems := if s.slot.sem.Some? && s.slot.sem.value in s.sems then s.sems[s.slot.sem.value := 1] else s.sems)
  }

  predicate RecvUnlock(s: State, t: State) {
    s.recv.Unlocking? && t == s.(recv := Listening, lock := Free)
  }

  /** Nobody is waiting for the frame: the lock is released and the subscriber's callback called. */
  predicate Publish(s: State, t: State) {
    s.recv.Handling? &&
    var f := s.recv.frame;
    var r := RouteOf(s.slot.active, s.slot.acks, s.subs, f);
    !r.ToSender? &&
    t == s.(recv := Listening, lock := Free, history := s.history + [f],
            callbacks := if r.ToSub? && r.k < |s.subs| && s.subs[r.k].cb.Some?
                         then s.callbacks + [Callback(|s.history|, r.k)] else s.callbacks)
  }

  /** dispatcher_subscribe, from lock to unlock. */
  predicate SubscribeStep(s: State, t: State, prefix: seq<byte>, cb: Option<nat>) {
    s.lock == Free && FreeSub(s.subs, 0).Some? &&
    t == s.(subs := s.subs[FreeSub(s.subs, 0).value := Sub(true, Truncated(prefix), cb)])
  }

  predicate UnsubscribeStep(s: State, t: State, id: nat) {
    s.lock == Free && id < |s.subs| && t == s.(subs := s.subs[id := NO_SUB])
  }

  predicate CallStep(s: State, t: State, c: CallId) {
    || ModemFails(s, t, c) || AcquireModem(s, t, c) || AcquireLock(s, t, c)
    || AlreadyActive(s, t, c) || ArmFails(s, t, c) || TakeToken(s, t, c) || ReadLength(s, t, c)
    || Timeout(s, t, c) || Deactivate(s, t, c) || DeleteSem(s, t, c) || ReleaseModem(s, t, c)
  }

  predicate RecvStep(s: State, t: State) {
    RecvLock(s, t) || Answer(s, t) || Signal(s, t) || RecvUnlock(s, t) || Publish(s, t)
  }

  ghost predicate Next(s: State, t: State) {
    || (exists c, a :: NewCall(s, t, c, a))
    || (exists c :: CallStep(s, t, c))
    || (exists c, q :: Arm(s, t, c, q))
    || (exists f :: FrameArrives(s, t, f))
    || RecvStep(s, t)
    || (exists prefix, cb :: SubscribeStep(s, t, prefix, cb))
    || (exists id :: UnsubscribeStep(s, t, id))
  }

  /** A run: any finite sequence of steps from the initial state. */
  ghost predicate Run(states: seq<State>, init: SemId) {
    && states != [] && Init(states[0], init)
    && forall i | 0 <= i < |states| - 1 :: Next(states[i], states[i + 1])
  }

  // ----- the invariant

  predicate HoldsModem(pc: Pc) { !pc.Begin? && !pc.Returned? }

  /** The slot carries the arguments of call c and a semaphore created for it. */
  predicate SlotMine(s: State, c: CallId, init: SemId)
    requires c in s.calls
  {
    var a := s.calls[c].args;
    && s.slot.owner == c && s.slot.acks == a.acks && s.slot.hasBuf == a.hasBuf && s.slot.size == a.size
    && s.slot.hasIndex == a.hasIndex
    && s.slot.sem.Some? && s.slot.sem.value != init && s.slot.sem.value in s.sems
  }

  /** The call holds the answer that frame number `answer` gives it, of length `code`. */
  predicate Answered(o: Call, history: seq<seq<byte>>, code: int) {
    o.answer.Some? && o.armedAt <= o.answer.value < |history| &&
    var f := history[o.answer.value];
    && code == CopyLength(f, o.args.size)
    && SyncMatch(o.args.acks, f).Some?
    && (o.args.hasIndex ==> o.index == SyncMatch(o.args.acks, f).value)
    && WfArgs(o.args)
    && (o.args.hasBuf ==> o.buf == Filled(f, o.args.size, o.args.buf))
  }

  /** Nothing has been delivered to call c. */
  predicate Untouched(o: Call) { o.answer == None && o.buf == o.args.buf && o.index == o.args.index }

  /** While c waits: either its slot is open and no token exists, or it has been answered. */
  predicate Pending(s: State, c: CallId, init: SemId)
    requires c in s.calls
  {
    && SlotMine(s, c, init)
    && (if s.slot.active then Untouched(s.calls[c]) && s.sems[s.slot.sem.value] == 0 && s.calls[c].armedAt <= |s.history|
        else Answered(s.calls[c], s.history, s.slot.respLen))
  }

  predicate CallOk(s: State, c: CallId, init: SemId)
    requires c in s.calls
  {
    var o := s.calls[c];
    && WfArgs(o.args)
    && (HoldsModem(o.pc) <==> s.modem == Some(c))
    && (s.lock == Caller(c) <==> o.pc.InLock? || o.pc.TimedOutLocked?)
    && match o.pc
       case Begin => Untouched(o)
       case WantLock => Untouched(o) && !s.slot.active
       case InLock => Untouched(o) && !s.slot.active
       case Waiting => Pending(s, c, init)
       case GotToken => SlotMine(s, c, init) && !s.slot.active && Answered(s.calls[c], s.history, s.slot.respLen)
       case TimedOut => Pending(s, c, init)
       case TimedOutLocked => Pending(s, c, init)
       case Cleanup(code) => SlotMine(s, c, init) && !s.slot.active && (code != -1 ==> Answered(s.calls[c], s.history, code))
       case Leaving(code) => !s.slot.active && s.slot.sem == None && (code != -1 ==> Answered(s.calls[c], s.history, code))
       case Returned(code) => code != -1 ==> Answered(s.calls[c], s.history, code)
  }

  predicate RecvOk(s: State) {
    && (s.lock == Receiver <==> s.recv.Handling? || s.recv.Signalling? || s.recv.Unlocking?)
    && (s.recv.Signalling? ==>
          && s.modem.Some? && s.modem.value in s.calls && !s.slot.active
          && (s.calls[s.modem.value].pc.Waiting? || s.calls[s.modem.value].pc.TimedOut?)
          && s.slot.sem.Some? && s.slot.sem.value in s.sems && s.sems[s.slot.sem.value] == 0)
  }

  /** The only live semaphores are the one dispatcher_init left behind and that of the request in progress. */
  predicate SemsOk(s: State, init: SemId) {
    && init in s.sems
    && (forall q | q in s.sems :: q == init || s.slot.sem == Some(q))
    && (s.modem.None? ==> !s.slot.active && (s.slot.sem == None || s.slot.sem == Some(init)))
    && (s.modem.Some? ==> s.modem.value in s.calls) && (s.lock.Caller? ==> s.lock.c in s.calls)
    && (s.modem.Some? && s.modem.value in s.calls && (s.calls[s.modem.value].pc.WantLock? || s.calls[s.modem.value].pc.InLock?)
        ==> s.slot.sem == None || s.slot.sem == Some(init))
  }

  predicate LogsOk(s: State) {
    && |s.subs| == MAX_SUBS
    && (forall i | 0 <= i < |s.responses| :: s.responses[i].frameNo < |s.history|)
    && (forall i | 0 <= i < |s.callbacks| :: s.callbacks[i].frameNo < |s.history|)
    && (forall i, j | 0 <= i < j < |s.responses| :: s.responses[i].frameNo != s.responses[j].frameNo)
    && (forall i, j | 0 <= i < j < |s.callbacks| :: s.callbacks[i].frameNo != s.callbacks[j].frameNo)
    && (forall i, j | 0 <= i < |s.responses| && 0 <= j < |s.callbacks| :: s.responses[i].frameNo != s.callbacks[j].frameNo)
    && (forall i, j | 0 <= i < j < |s.responses| :: s.responses[i].c != s.responses[j].c)
    && (forall i | 0 <= i < |s.responses| :: var r := s.responses[i]; r.c in s.calls && s.calls[r.c].answer == Some(r.frameNo))
  }

  ghost predicate Inv(s: State, init: SemId) {
    && (forall c | c in s.calls :: CallOk(s, c, init))
    && RecvOk(s) && SemsOk(s, init) && LogsOk(s)
  }

  lemma {:induction false} InitInv(s: State, init: SemId)
    requires Init(s, init)
    ensures Inv(s, init)
  {
  }

  /** A step of the call that holds the modem lock, or one that leaves the slot alone, is no concern of other calls. */
  lemma {:induction false} Others(s: State, t: State, c: CallId, init: SemId)
    requires (forall d | d in s.calls :: CallOk(s, d, init)) && c in s.calls && c in t.calls
    requires t.calls.Keys == s.calls.Keys && t.history == s.history
    requires forall d | d in s.calls && d != c ::
               t.calls[d] == s.calls[d] && (s.modem == Some(d) <==> t.modem == Some(d)) && (s.lock == Caller(d) <==> t.lock == Caller(d))
    requires s.modem == Some(c) || (t.slot == s.slot && t.sems == s.sems)
    ensures forall d | d in t.calls && d != c :: CallOk(t, d, init)
  {
    forall d | d in t.calls && d != c ensures CallOk(t, d, init) {
      assert CallOk(s, d, init);
    }
  }

  lemma {:induction false} AnsweredKept(o: Call, o': Call, history: seq<seq<byte>>, code: int)
    requires o' == o.(pc := o'.pc)
    ensures Answered(o, history, code) <==> Answered(o', history, code)
    ensures Answered(o, history, code) ==> code >= 0
  {
  }

  lemma {:induction false} LogsSame(s: State, t: State)
    requires LogsOk(s) && t.calls.Keys == s.calls.Keys && (forall c | c in s.calls :: t.calls[c].answer == s.calls[c].answer)
    requires t.subs == s.subs && t.history == s.history && t.responses == s.responses && t.callbacks == s.callbacks
    ensures LogsOk(t)
  {
  }

  lemma {:induction false} FirstLockInv(s: State, t: State, c: CallId, init: SemId)
    requires Inv(s, init) && AcquireLock(s, t, c) && s.calls[c].pc.WantLock?
    ensures Inv(t, init)
  {
    hide Answered, Pending, LogsOk;
    assert CallOk(s, c, init);
    Others(s, t, c, init);
    LogsSame(s, t);
    assert CallOk(t, c, init);
  }

  lemma {:induction false} SecondLockInv(s: State, t: State, c: CallId, init: SemId)
    requires Inv(s, init) && AcquireLock(s, t, c) && s.calls[c].pc.TimedOut?
    ensures Inv(t, init)
  {
    hide Answered, LogsOk;
    AnsweredKept(s.calls[c], t.calls[c], s.history, s.slot.respLen);
    assert CallOk(s, c, init);
    Others(s, t, c, init);
    LogsSame(s, t);
    assert CallOk(t, c, init);
  }

  lemma {:induction false} LockInv(s: State, t: State, c: CallId, init: SemId)
    requires Inv(s, init) && AcquireLock(s, t, c)
    ensures Inv(t, init)
  {
    hide Inv;
    if s.calls[c].pc.WantLock? {
      FirstLockInv(s, t, c, init);
    } else {
      SecondLockInv(s, t, c, init);
    }
  }

  lemma {:induction false} ModemFailsInv(s: State, t: State, c: CallId, init: SemId)
    requires Inv(s, init) && ModemFails(s, t, c)
    ensures Inv(t, init)
  {
    hide Answered, Pending, LogsOk;
    assert CallOk(s, c, init);
    Others(s, t, c, init);
    LogsSame(s, t);
    assert CallOk(t, c, init);
  }

  lemma {:induction false} EnterInv(s: State, t: State, c: CallId, init: SemId)
    requires Inv(s, init) && AcquireModem(s, t, c)
    ensures Inv(t, init)
  {
    hide Answered, Pending, LogsOk;
    assert CallOk(s, c, init);
    Others(s, t, c, init);
    LogsSame(s, t);
    assert CallOk(t, c, init);
  }

  lemma {:induction false} ArmFailsInv(s: State, t: State, c: CallId, init: SemId)
    requires Inv(s, init) && (AlreadyActive(s, t, c) || ArmFails(s, t, c))
    ensures Inv(t, init)
  {
    hide Answered, LogsOk;
    assert CallOk(s, c, init);
    Others(s, t, c, init);
    LogsSame(s, t);
    assert CallOk(t, c, init);
  }

  lemma {:induction false} ArmInv(s: State, t: State, c: CallId, q: SemId, init: SemId)
    requires Inv(s, init) && Arm(s, t, c, q)
    ensures Inv(t, init)
  {
    hide Answered, LogsOk;
    assert CallOk(s, c, init);
    Others(s, t, c, init);
    LogsSame(s, t);
    assert CallOk(t, c, init);
  }

  lemma {:induction false} LengthInv(s: State, t: State, c: CallId, init: SemId)
    requires Inv(s, init) && ReadLength(s, t, c)
    ensures Inv(t, init)
  {
    hide Answered, LogsOk;
    AnsweredKept(s.calls[c], t.calls[c], s.history, s.slot.respLen);
    assert CallOk(s, c, init);
    Others(s, t, c, init);
    LogsSame(s, t);
    assert CallOk(t, c, init);
  }

  lemma {:induction false} TimeoutInv(s: State, t: State, c: CallId, init: SemId)
    requires Inv(s, init) && Timeout(s, t, c)
    ensures Inv(t, init)
  {
    hide Answered, LogsOk;
    AnsweredKept(s.calls[c], t.calls[c], s.history, s.slot.respLen);
    assert CallOk(s, c, init);
    Others(s, t, c, init);
    LogsSame(s, t);
    assert CallOk(t, c, init);
  }

  lemma {:induction false} TokenInv(s: State, t: State, c: CallId, init: SemId)
    requires Inv(s, init) && TakeToken(s, t, c)
    ensures Inv(t, init)
  {
    hide LogsOk;
    assert CallOk(s, c, init);
    Others(s, t, c, init);
    LogsSame(s, t);
    assert CallOk(t, c, init);
  }

  lemma {:induction false} DeactivateInv(s: State, t: State, c: CallId, init: SemId)
    requires Inv(s, init) && Deactivate(s, t, c)
    ensures Inv(t, init)
  {
    hide LogsOk;
    assert CallOk(s, c, init);
    Others(s, t, c, init);
    LogsSame(s, t);
    assert CallOk(t, c, init);
  }

  lemma {:induction false} DeleteInv(s: State, t: State, c: CallId, init: SemId)
    requires Inv(s, init) && DeleteSem(s, t, c)
    ensures Inv(t, init)
  {
    hide Answered, LogsOk;
    AnsweredKept(s.calls[c], t.calls[c], s.history, s.calls[c].pc.code);
    assert CallOk(s, c, init);
    Others(s, t, c, init);
    LogsSame(s, t);
    assert CallOk(t, c, init);
  }

  lemma {:induction false} ReleaseInv(s: State, t: State, c: CallId, init: SemId)
    requires Inv(s, init) && ReleaseModem(s, t, c)
    ensures Inv(t, init)
  {
    hide Answered, LogsOk;
    AnsweredKept(s.calls[c], t.calls[c], s.history, s.calls[c].pc.code);
    assert CallOk(s, c, init);
    Others(s, t, c, init);
    LogsSame(s, t);
    assert CallOk(t, c, init);
  }

  lemma {:induction false} AnswerCalls(s: State, t: State, init: SemId)
    requires Inv(s, init) && Answer(s, t)
    ensures forall d | d in t.calls :: CallOk(t, d, init)
    ensures s.slot.active && s.modem == Some(s.slot.owner) && s.slot.owner in s.calls
    ensures s.calls[s.slot.owner].pc.Waiting? || s.calls[s.slot.owner].pc.TimedOut?
    ensures s.calls[s.slot.owner].answer == None
  {
    assert s.modem.Some? && CallOk(s, s.modem.value, init);
    forall d | d in t.calls ensures CallOk(t, d, init) {
      assert CallOk(s, d, init);
    }
  }

  lemma {:induction false} AnswerInv(s: State, t: State, init: SemId)
    requires Inv(s, init) && Answer(s, t)
    ensures Inv(t, init)
  {
    hide Answered, SyncMatch, Filled, CopyLength, RouteOf;
    var o := s.slot.owner;
    AnswerCalls(s, t, init);
    assert CallOk(s, o, init);
  }

  /** A step that leaves the calls, the slot, the semaphores and the modem lock alone. */
  lemma {:induction false} KeepCalls(s: State, t: State, init: SemId)
    requires forall c | c in s.calls :: CallOk(s, c, init)
    requires t.calls == s.calls && t.slot == s.slot && t.sems == s.sems && t.modem == s.modem && s.history <= t.history
    requires forall c | c in s.calls :: t.lock == Caller(c) <==> s.lock == Caller(c)
    ensures forall c | c in t.calls :: CallOk(t, c, init)
  {
    forall d | d in t.calls ensures CallOk(t, d, init) {
      assert CallOk(s, d, init);
    }
  }

  lemma {:induction false} PublishInv(s: State, t: State, init: SemId)
    requires Inv(s, init) && Publish(s, t)
    ensures Inv(t, init)
  {
    hide CallOk, RouteOf;
    KeepCalls(s, t, init);
  }

  lemma {:induction false} RecvLockInv(s: State, t: State, init: SemId)
    requires Inv(s, init) && (RecvLock(s, t) || RecvUnlock(s, t))
    ensures Inv(t, init)
  {
    hide CallOk;
    KeepCalls(s, t, init);
  }

  lemma {:induction false} SignalInv(s: State, t: State, init: SemId)
    requires Inv(s, init) && Signal(s, t)
    ensures Inv(t, init)
  {
    hide Answered;
    assert s.modem.Some? && CallOk(s, s.modem.value, init);
    forall d | d in t.calls ensures CallOk(t, d, init) {
      assert CallOk(s, d, init);
    }
  }

  lemma {:induction false} NewCallInv(s: State, t: State, c: CallId, a: Args, init: SemId)
    requires Inv(s, init) && NewCall(s, t, c, a)
    ensures Inv(t, init)
  {
    hide Answered, SyncMatch;
    forall d | d in t.calls ensures CallOk(t, d, init) {
      if d in s.calls { assert CallOk(s, d, init); }
    }
  }

  lemma {:induction false} OutsideInv(s: State, t: State, init: SemId)
    requires Inv(s, init)
    requires (exists f :: FrameArrives(s, t, f)) || (exists prefix, cb :: SubscribeStep(s, t, prefix, cb))
             || (exists id :: UnsubscribeStep(s, t, id))
    ensures Inv(t, init)
  {
    hide CallOk, FreeSub, Truncated;
    KeepCalls(s, t, init);
  }

  lemma {:induction false} NextInv(s: State, t: State, init: SemId)
    requires Inv(s, init) && Next(s, t)
    ensures Inv(t, init)
  {
    hide Inv, NewCall, FrameArrives, SubscribeStep, UnsubscribeStep, ModemFails, AcquireModem, AcquireLock, AlreadyActive, ArmFails, Arm, TakeToken,
         ReadLength, Timeout, Deactivate, DeleteSem, ReleaseModem, RecvLock, Answer, Signal, RecvUnlock, Publish;
    if c :| CallStep(s, t, c) {
      if ModemFails(s, t, c) {
        ModemFailsInv(s, t, c, init);
      } else if AcquireModem(s, t, c) {
        EnterInv(s, t, c, init);
      } else if AcquireLock(s, t, c) {
        LockInv(s, t, c, init);
      } else if AlreadyActive(s, t, c) || ArmFails(s, t, c) {
        ArmFailsInv(s, t, c, init);
      } else if TakeToken(s, t, c) {
        TokenInv(s, t, c, init);
      } else if ReadLength(s, t, c) {
        LengthInv(s, t, c, init);
      } else if Timeout(s, t, c) {
        TimeoutInv(s, t, c, init);
      } else if Deactivate(s, t, c) {
        DeactivateInv(s, t, c, init);
      } else if DeleteSem(s, t, c) {
        DeleteInv(s, t, c, init);
      } else {
        ReleaseInv(s, t, c, init);
      }
    } else if c, q :| Arm(s, t, c, q) {
      ArmInv(s, t, c, q, init);
    } else if RecvStep(s, t) {
      if Answer(s, t) {
        AnswerInv(s, t, init);
      } else if Publish(s, t) {
        PublishInv(s, t, init);
      } else if Signal(s, t) {
        SignalInv(s, t, init);
      } else {
        RecvLockInv(s, t, init);
      }
    } else if c, a :| NewCall(s, t, c, a) {
      NewCallInv(s, t, c, a, init);
    } else {
      OutsideInv(s, t, init);
    }
  }

  // ----- main results, over every state of every run

  lemma {:induction false} RunInv(states: seq<State>, init: SemId, n: nat)
    requires Run(states, init) && n < |states|
    ensures Inv(states[n], init)
  {
    hide Inv, Next, Init;
    if n == 0 {
      InitInv(states[0], init);
    } else {
      RunInv(states, init, n - 1);
      NextInv(states[n - 1], states[n], init);
    }
  }

  /** A state that some run reaches. */
  ghost predicate Reachable(s: State, init: SemId) {
    exists states :: Run(states, init) && states[|states| - 1] == s
  }

  lemma {:induction false} ReachableInv(s: State, init: SemId)
    requires Reachable(s, init)
    ensures Inv(s, init)
  {
    hide Inv, Init, Next;
    var states :| Run(states, init) && states[|states| - 1] == s;
    RunInv(states, init, |states| - 1);
  }

  /** The slot is active only while one call holds the modem lock, and then it holds that call's arguments. */
  lemma {:induction false} SlotOwned(s: State, init: SemId)
    requires Reachable(s, init) && s.slot.active
    ensures s.modem == Some(s.slot.owner) && s.slot.owner in s.calls
    ensures SlotMine(s, s.slot.owner, init)
    ensures var pc := s.calls[s.slot.owner].pc; pc.Waiting? || pc.TimedOut? || pc.TimedOutLocked?
    ensures forall c | c in s.calls && HoldsModem(s.calls[c].pc) :: c == s.slot.owner
  {
    ReachableInv(s, init);
    assert CallOk(s, s.modem.value, init);
    assert forall c | c in s.calls :: CallOk(s, c, init);
  }

  /** The "already active" branch is unreachable. */
  lemma {:induction false} NeverAlreadyActive(s: State, t: State, c: CallId, init: SemId)
    requires Reachable(s, init)
    ensures !AlreadyActive(s, t, c)
  {
    ReachableInv(s, init);
    if c in s.calls { assert CallOk(s, c, init); }
  }

  /** A call's own step changes where that call is, and no log. */
  predicate Shaped(s: State, t: State, c: CallId) {
    && c in s.calls && c in t.calls && !s.calls[c].pc.Returned? && !t.calls[c].pc.Waiting?
    && t.calls == s.calls[c := s.calls[c].(pc := t.calls[c].pc)]
    && t.recv == s.recv && t.subs == s.subs && t.history == s.history && t.responses == s.responses && t.callbacks == s.callbacks
  }

  lemma {:induction false} EarlyShaped(s: State, t: State, c: CallId)
    requires ModemFails(s, t, c) || AcquireModem(s, t, c) || AcquireLock(s, t, c) || AlreadyActive(s, t, c) || ArmFails(s, t, c)
    ensures Shaped(s, t, c)
  {
    hide SlotFor;
  }

  lemma {:induction false} LateShaped(s: State, t: State, c: CallId)
    requires TakeToken(s, t, c) || ReadLength(s, t, c) || Timeout(s, t, c) || Deactivate(s, t, c) || DeleteSem(s, t, c)
             || ReleaseModem(s, t, c)
    ensures Shaped(s, t, c)
  {
  }

  lemma {:induction false} CallStepShaped(s: State, t: State, c: CallId)
    requires CallStep(s, t, c)
    ensures Shaped(s, t, c)
  {
    hide Shaped, ModemFails, AcquireModem, AcquireLock, AlreadyActive, ArmFails, TakeToken, ReadLength, Timeout, Deactivate,
         DeleteSem, ReleaseModem;
    if ModemFails(s, t, c) || AcquireModem(s, t, c) || AcquireLock(s, t, c) || AlreadyActive(s, t, c) || ArmFails(s, t, c) {
      EarlyShaped(s, t, c);
    } else {
      LateShaped(s, t, c);
    }
  }

  /** Once a call has returned, no step touches its buffer, its index or anything else of it. */
  lemma {:induction false} NoWriteAfterReturn(s: State, t: State, c: CallId, init: SemId)
    requires Reachable(s, init) && Next(s, t) && c in s.calls && s.calls[c].pc.Returned?
    ensures c in t.calls && t.calls[c] == s.calls[c]
  {
    hide Inv, CallStep, Reachable;
    ReachableInv(s, init);
    if d :| CallStep(s, t, d) {
      CallStepShaped(s, t, d);
    } else if Answer(s, t) {
      AnswerCalls(s, t, init);
    }
  }

  /** A frame goes to at most one request or subscriber, and a request takes at most one frame. */
  lemma {:induction false} OneTaker(s: State, init: SemId)
    requires Reachable(s, init)
    ensures forall i, j | 0 <= i < j < |s.responses| ::
              s.responses[i].frameNo != s.responses[j].frameNo && s.responses[i].c != s.responses[j].c
    ensures forall i, j | 0 <= i < j < |s.callbacks| :: s.callbacks[i].frameNo != s.callbacks[j].frameNo
    ensures forall i, j | 0 <= i < |s.responses| && 0 <= j < |s.callbacks| :: s.responses[i].frameNo != s.callbacks[j].frameNo
  {
    ReachableInv(s, init);
  }

  /** No semaphore of a call outlives the call: only the one dispatcher_init made stays behind. */
  lemma {:induction false} NoSemaphoreLeak(s: State, init: SemId)
    requires Reachable(s, init)
    ensures forall q | q in s.sems && q != init :: s.slot.sem == Some(q) && s.modem.Some?
  {
    ReachableInv(s, init);
  }
}
