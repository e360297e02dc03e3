/** What whole runs of the AT dispatcher amount to: the fate of every frame, and that nothing gets stuck. */
module DispatcherRuns {
  import opened Bytes
  import opened Dispatcher
  import opened DispatcherProtocol

  // ----- the fate of a frame

  predicate AckFits(acks: seq<seq<byte>>, frame: seq<byte>) {
    acks == [] || exists j | 0 <= j < |acks| :: Matches(acks[j], frame)
  }

  /** Entry k is the first that wants the frame, and it has a callback. */
  predicate Called(subs: seq<Sub>, k: nat, frame: seq<byte>) {
    k < |subs| && Wants(subs[k], frame) && subs[k].cb.Some? && forall i | 0 <= i < k :: !Wants(subs[i], frame)
  }

  /**
   * Frame number n, met in state s, has gone where it should by the time of `last`: to the pending
   * request if that takes it, else to the first subscriber that wants it, and to nobody else.
   */
  ghost predicate Dispatched(s: State, n: nat, last: State) {
    && s.recv.Handling? && n == |s.history| < |last.history| && last.history[n] == s.recv.frame
    && var taken := s.slot.active && AckFits(s.slot.acks, s.recv.frame);
    && (forall c :: Response(n, c) in last.responses <==> taken && c == s.slot.owner)
    && (forall k :: Callback(n, k) in last.callbacks <==> !taken && Called(s.subs, k, s.recv.frame))
  }

  lemma {:induction false} LogsKept(t: State, u: State)
    requires Next(t, u) && !Answer(t, u) && !Publish(t, u)
    ensures u.history == t.history && u.responses == t.responses && u.callbacks == t.callbacks
  {
    hide Answer, Publish, SlotFor, FreeSub, Truncated, WfArgs, CallStep;
    if c :| CallStep(t, u, c) {
      CallStepShaped(t, u, c);
    }
  }

  lemma {:induction false} StaysDispatched(s: State, n: nat, t: State, u: State)
    requires Dispatched(s, n, t) && Next(t, u)
    ensures Dispatched(s, n, u)
  {
    hide Next, RouteOf, Filled, CopyLength;
    if !Answer(t, u) && !Publish(t, u) {
      LogsKept(t, u);
    }
  }

  /** A frame that no request takes goes to the first active subscriber whose prefix it has, and to no other. */
  lemma {:induction false} FirstSubscriberCalled(s: State, t: State)
    requires Publish(s, t)
    ensures s.recv.Handling? && !(s.slot.active && AckFits(s.slot.acks, s.recv.frame))
    ensures t.history == s.history + [s.recv.frame] && t.responses == s.responses
    ensures (exists k :: Called(s.subs, k, s.recv.frame) && t.callbacks == s.callbacks + [Callback(|s.history|, k)]) ||
            (t.callbacks == s.callbacks && forall k :: !Called(s.subs, k, s.recv.frame))
  {
    var r := RouteOf(s.slot.active, s.slot.acks, s.subs, s.recv.frame);
    if r.ToSub? && s.subs[r.k].cb.Some? {
      assert Called(s.subs, r.k, s.recv.frame);
    }
  }

  lemma {:induction false} HandledNow(t: State, u: State, init: SemId)
    requires Inv(t, init) && (Answer(t, u) || Publish(t, u))
    ensures Dispatched(t, |t.history|, u)
  {
    hide CallOk, RecvOk, SemsOk, Filled, CopyLength, Publish;
    if Publish(t, u) {
      FirstSubscriberCalled(t, u);
    }
  }

  /** In every run each frame handled went exactly to whom the table gave it when it was handled. */
  lemma {:induction false} FramesDispatched(states: seq<State>, init: SemId, n: nat)
    requires Run(states, init) && n < |states[|states| - 1].history|
    ensures exists i | 0 <= i < |states| - 1 :: Dispatched(states[i], n, states[|states| - 1])
  {
    hide Next, Inv, Dispatched;
    var m := |states| - 1;
    if m > 0 {
      var t, u := states[m - 1], states[m];
      assert Next(t, u);
      var before := states[..m];
      assert Run(before, init);
      if n < |t.history| {
        FramesDispatched(before, init, n);
        var i :| 0 <= i < m - 1 && Dispatched(before[i], n, t);
        assert before[i] == states[i];
        StaysDispatched(states[i], n, t, u);
      } else {
        RunInv(states, init, m - 1);
        if !Answer(t, u) && !Publish(t, u) {
          LogsKept(t, u);
          assert false;
        }
        HandledNow(t, u, init);
        assert n == |t.history|;
      }
    }
  }

  // ----- no answer goes unsignalled

  /** An answered call that still waits has a token, or the receiver is about to give it one. */
  ghost predicate TokensOk(s: State) {
    forall c | c in s.calls && s.calls[c].pc.Waiting? && !s.slot.active ::
      s.recv.Signalling? || (s.slot.sem.Some? && s.slot.sem.value in s.sems && s.sems[s.slot.sem.value] > 0)
  }

  /** With the modem lock taken, a call that does not hold it can only give up. */
  lemma {:induction false} IdleStep(s: State, t: State, d: CallId)
    requires CallStep(s, t, d) && d in s.calls && !HoldsModem(s.calls[d].pc) && s.modem.Some?
    ensures t == SetPc(s, d, Returned(-1))
  {
    hide SlotFor;
  }

  /** A call's step is no concern of one that waits. */
  lemma {:induction false} CallTokens(s: State, t: State, d: CallId, init: SemId)
    requires Inv(s, init) && TokensOk(s) && CallStep(s, t, d)
    ensures TokensOk(t)
  {
    hide Answered, Untouched, CallStep;
    CallStepShaped(s, t, d);
    assert CallOk(s, d, init);
    forall c | c in t.calls && t.calls[c].pc.Waiting? && !t.slot.active
      ensures t.recv.Signalling? || (t.slot.sem.Some? && t.slot.sem.value in t.sems && t.sems[t.slot.sem.value] > 0)
    {
      assert CallOk(s, c, init);
      IdleStep(s, t, d);
    }
  }

  lemma {:induction false} NextTokens(s: State, t: State, init: SemId)
    requires Inv(s, init) && TokensOk(s) && Next(s, t)
    ensures TokensOk(t)
  {
    hide CallStep, CallOk, RouteOf, FreeSub, Truncated, SemsOk, LogsOk;
    if d :| CallStep(s, t, d) {
      CallTokens(s, t, d, init);
    }
  }

  lemma {:induction false} RunTokens(states: seq<State>, init: SemId)
    requires Run(states, init)
    ensures TokensOk(states[|states| - 1])
    decreases |states|
  {
    hide Next, Inv;
    var m := |states| - 1;
    if m > 0 {
      var before := states[..m];
      assert Run(before, init);
      RunTokens(before, init);
      RunInv(states, init, m - 1);
      NextTokens(states[m - 1], states[m], init);
    }
  }

  lemma {:induction false} ReachableTokens(s: State, init: SemId)
    requires Reachable(s, init)
    ensures TokensOk(s)
  {
    hide Init, Next, TokensOk;
    var states :| Run(states, init) && states[|states| - 1] == s;
    RunTokens(states, init);
  }

  // ----- progress

  /**
   * A step of a call that is under way, other than its timeout and other than giving up for want of
   * a mutex, a semaphore or an interface.
   */
  ghost predicate Works(s: State, t: State, c: CallId) {
    || AcquireModem(s, t, c) || AcquireLock(s, t, c) || (exists q :: Arm(s, t, c, q)) || TakeToken(s, t, c)
    || ReadLength(s, t, c) || Deactivate(s, t, c) || DeleteSem(s, t, c) || ReleaseModem(s, t, c)
  }

  ghost predicate Advance(s: State, t: State, c: CallId) { Works(s, t, c) || Timeout(s, t, c) }

  /** A step of work already begun: no new call, no new frame, nobody subscribing, nothing failing. */
  ghost predicate Moves(s: State, t: State) { RecvStep(s, t) || exists c :: Advance(s, t, c) }

  /** One of these that waits for no timeout. */
  ghost predicate Untimed(s: State, t: State) { RecvStep(s, t) || exists c :: Works(s, t, c) }

  /** Every call has returned and no frame is being taken. */
  ghost predicate Quiet(s: State) { (forall c | c in s.calls :: s.calls[c].pc.Returned?) && s.recv.Listening? }

  /** One call waits for an answer that nobody has given yet, and the others for that call. */
  predicate AwaitsAnswer(s: State) {
    && s.modem.Some? && s.modem.value in s.calls && s.calls[s.modem.value].pc.Waiting? && s.slot.active
    && s.recv.Listening? && s.lock == Free
  }

  lemma {:induction false} FreshSem(sems: map<SemId, nat>) returns (q: SemId)
    ensures q !in sems
  {
    q := 0;
    var seen: set<SemId> := {};
    while q in sems
      invariant seen <= sems.Keys && forall p | p in seen :: p < q
      decreases sems.Keys - seen
    {
      seen := seen + {q};
      q := q + 1;
    }
  }

  /** The holder of the internal lock can go on. */
  lemma {:induction false} LockHolderMoves(s: State, init: SemId)
    requires Inv(s, init) && s.lock.Caller?
    ensures exists t :: Untimed(s, t)
  {
    hide Answered;
    var c := s.lock.c;
    assert CallOk(s, c, init);
    if s.calls[c].pc.InLock? {
      var q := FreshSem(s.sems);
      var t := s.(calls := s.calls[c := s.calls[c].(pc := Waiting, armedAt := |s.history|)], lock := Free,
                  slot := SlotFor(c, s.calls[c].args, true, Some(q)), sems := s.sems[q := 0]);
      assert Arm(s, t, c, q) && Works(s, t, c);
      assert Untimed(s, t);
    } else {
      var t := SetPc(s, c, Cleanup(-1)).(lock := Free, slot := s.slot.(active := false));
      assert Works(s, t, c);
      assert Untimed(s, t);
    }
  }

  /** With the internal lock free, the holder of the modem lock can go on unless it waits for an answer. */
  lemma {:induction false} ModemHolderMoves(s: State, init: SemId)
    requires Inv(s, init) && TokensOk(s) && s.lock == Free && s.modem.Some? && s.recv.Listening? && !AwaitsAnswer(s)
    ensures exists t :: Untimed(s, t)
  {
    hide Answered;
    var c := s.modem.value;
    assert CallOk(s, c, init);
    var t :=
      match s.calls[c].pc
      case WantLock => SetPc(s, c, InLock).(lock := Caller(c))
      case Waiting => SetPc(s, c, GotToken).(sems := s.sems[s.slot.sem.value := s.sems[s.slot.sem.value] - 1])
      case GotToken => SetPc(s, c, Cleanup(s.slot.respLen))
      case TimedOut => SetPc(s, c, TimedOutLocked).(lock := Caller(c))
      case Cleanup(code) =>
        SetPc(s, c, Leaving(code)).(sems := if s.slot.sem.Some? then s.sems - {s.slot.sem.value} else s.sems,
                                    slot := s.slot.(sem := None))
      case Leaving(code) => SetPc(s, c, Returned(code)).(modem := None)
      case _ => s;
    assert Works(s, t, c);
    assert Untimed(s, t);
  }

  /** With the modem lock free, every call under way is at its beginning and can take it. */
  lemma {:induction false} BeginnerMoves(s: State, init: SemId, c: CallId)
    requires Inv(s, init) && s.modem.None? && c in s.calls && !s.calls[c].pc.Returned?
    ensures exists t :: Untimed(s, t)
  {
    assert CallOk(s, c, init);
    var t := SetPc(s, c, WantLock).(modem := Some(c));
    assert Works(s, t, c);
    assert Untimed(s, t);
  }

  lemma {:induction false} HandlingMoves(s: State, init: SemId)
    requires Inv(s, init) && s.recv.Handling?
    ensures exists t :: Untimed(s, t)
  {
    var f := s.recv.frame;
    var r := RouteOf(s.slot.active, s.slot.acks, s.subs, f);
    if r.ToSender? {
      assert CallOk(s, s.modem.value, init);
      var o := s.calls[s.slot.owner];
      var t := s.(calls := s.calls[s.slot.owner := o.(
                    buf := if s.slot.hasBuf then Filled(f, s.slot.size, o.buf) else o.buf,
                    index := if s.slot.hasIndex then r.index else o.index, answer := Some(|s.history|))],
                  slot := s.slot.(active := false, respLen := CopyLength(f, s.slot.size)),
                  history := s.history + [f], responses := s.responses + [Response(|s.history|, s.slot.owner)],
                  recv := Signalling);
      assert RecvStep(s, t) && Untimed(s, t);
    } else {
      var t := s.(recv := Listening, lock := Free, history := s.history + [f],
                  callbacks := if r.ToSub? && r.k < |s.subs| && s.subs[r.k].cb.Some?
                               then s.callbacks + [Callback(|s.history|, r.k)] else s.callbacks);
      assert RecvStep(s, t) && Untimed(s, t);
    }
  }

  lemma {:induction false} ReceiverMoves(s: State, init: SemId)
    requires Inv(s, init) && !s.recv.Listening? && (s.recv.WantsLock? ==> s.lock == Free)
    ensures exists t :: Untimed(s, t)
  {
    if s.recv.WantsLock? {
      var t := s.(recv := Handling(s.recv.frame), lock := Receiver);
      assert RecvStep(s, t) && Untimed(s, t);
    } else if s.recv.Signalling? {
      var t := s.(recv := Unlocking, sems := s.sems[s.slot.sem.value := 1]);
      assert RecvStep(s, t) && Untimed(s, t);
    } else if s.recv.Unlocking? {
      var t := s.(recv := Listening, lock := Free);
      assert RecvStep(s, t) && Untimed(s, t);
    } else {
      HandlingMoves(s, init);
    }
  }

  lemma {:induction false} SomeoneMoves(s: State, init: SemId)
    requires Inv(s, init) && TokensOk(s) && !Quiet(s) && !AwaitsAnswer(s)
    ensures exists t :: Untimed(s, t)
  {
    hide Untimed, CallOk, TokensOk;
    if s.lock.Caller? {
      LockHolderMoves(s, init);
    } else if s.lock.Receiver? || !s.recv.Listening? {
      ReceiverMoves(s, init);
    } else if s.modem.Some? {
      ModemHolderMoves(s, init);
    } else {
      var c :| c in s.calls && !s.calls[c].pc.Returned?;
      BeginnerMoves(s, init, c);
    }
  }

  lemma {:induction false} QuietStays(s: State, t: State)
    requires Quiet(s)
    ensures !Untimed(s, t)
  {
    hide RouteOf, SlotFor;
    if c :| Works(s, t, c) {
      assert false;
    }
  }

  lemma {:induction false} AwaitingStays(s: State, t: State, init: SemId)
    requires Inv(s, init) && AwaitsAnswer(s)
    ensures !Untimed(s, t)
  {
    hide Answered, RouteOf, SlotFor, SlotMine, LogsOk, WfArgs, Untouched;
    if c :| Works(s, t, c) {
      assert false;
    }
  }

  /**
   * Exactly when the threads at work are stuck without a timeout: all is quiet, or the one call that
   * holds the modem lock waits for an answer still to come.
   */
  lemma {:induction false} StuckIff(s: State, init: SemId)
    requires Reachable(s, init)
    ensures (forall t :: !Untimed(s, t)) <==> Quiet(s) || AwaitsAnswer(s)
  {
    hide Untimed, Reachable, Inv, TokensOk, Quiet, AwaitsAnswer;
    ReachableInv(s, init);
    ReachableTokens(s, init);
    if Quiet(s) {
      forall t: State ensures !Untimed(s, t) {
        QuietStays(s, t);
      }
    } else if AwaitsAnswer(s) {
      forall t: State ensures !Untimed(s, t) {
        AwaitingStays(s, t, init);
      }
    } else {
      SomeoneMoves(s, init);
    }
  }

  /** No deadlock: unless all is quiet, some thread already at work can take its next step. */
  lemma {:induction false} Progress(s: State, init: SemId)
    requires Reachable(s, init) && !Quiet(s)
    ensures exists t :: Moves(s, t)
  {
    hide Works, Reachable, RecvStep, Quiet;
    StuckIff(s, init);
    if AwaitsAnswer(s) {
      var c := s.modem.value;
      var t := SetPc(s, c, TimedOut);
      assert Advance(s, t, c) && Moves(s, t);
    } else {
      var t :| Untimed(s, t);
      if c :| Works(s, t, c) {
        assert Advance(s, t, c);
      }
      assert Moves(s, t);
    }
  }

  // ----- completion

  /** The most steps a call can still take. */
  function Rank(pc: Pc): nat {
    match pc
    case Begin => 8
    case WantLock => 7
    case InLock => 6
    case Waiting => 5
    case GotToken => 4
    case TimedOut => 4
    case TimedOutLocked => 3
    case Cleanup(_) => 2
    case Leaving(_) => 1
    case Returned(_) => 0
  }

  function RecvRank(pc: RecvPc): nat {
    match pc
    case WantsLock(_) => 4
    case Handling(_) => 3
    case Signalling => 2
    case Unlocking => 1
    case Listening => 0
  }

  ghost function CallWork(calls: map<CallId, Call>): nat
    decreases |calls|
  {
    if calls == map[] then 0
    else
      var c :| c in calls;
      Rank(calls[c].pc) + CallWork(calls - {c})
  }

  ghost function Work(s: State): nat { CallWork(s.calls) + RecvRank(s.recv) }

  lemma {:induction false} CallWorkWithout(calls: map<CallId, Call>, c: CallId)
    requires c in calls
    ensures CallWork(calls) == Rank(calls[c].pc) + CallWork(calls - {c})
    decreases |calls|
  {
    hide Rank;
    var d :| d in calls && CallWork(calls) == Rank(calls[d].pc) + CallWork(calls - {d});
    if d != c {
      CallWorkWithout(calls - {d}, c);
      CallWorkWithout(calls - {c}, d);
      assert calls - {d} - {c} == calls - {c} - {d};
    }
  }

  lemma {:induction false} CallWorkUpdate(calls: map<CallId, Call>, c: CallId, o: Call)
    requires c in calls
    ensures CallWork(calls[c := o]) + Rank(calls[c].pc) == CallWork(calls) + Rank(o.pc)
  {
    hide Rank, CallWork;
    CallWorkWithout(calls, c);
    CallWorkWithout(calls[c := o], c);
    assert calls[c := o] - {c} == calls - {c};
  }

  /** One call moves down by at least one rank and nothing else changes the work. */
  predicate Descends(s: State, t: State, c: CallId) {
    c in s.calls && c in t.calls && t.calls == s.calls[c := t.calls[c]] && t.recv == s.recv
    && Rank(t.calls[c].pc) < Rank(s.calls[c].pc)
  }

  lemma {:induction false} EarlyDescends(s: State, t: State, c: CallId)
    requires AcquireModem(s, t, c) || AcquireLock(s, t, c) || (exists q :: Arm(s, t, c, q))
    ensures Descends(s, t, c)
  {
    hide SlotFor;
  }

  lemma {:induction false} LateDescends(s: State, t: State, c: CallId)
    requires TakeToken(s, t, c) || ReadLength(s, t, c) || Timeout(s, t, c) || Deactivate(s, t, c) || DeleteSem(s, t, c)
             || ReleaseModem(s, t, c)
    ensures Descends(s, t, c)
  {
  }

  lemma {:induction false} AdvanceDescends(s: State, t: State, c: CallId)
    requires Advance(s, t, c)
    ensures Descends(s, t, c)
  {
    hide Descends, AcquireModem, AcquireLock, Arm, TakeToken, ReadLength, Timeout, Deactivate, DeleteSem, ReleaseModem;
    if AcquireModem(s, t, c) || AcquireLock(s, t, c) || (exists q :: Arm(s, t, c, q)) {
      EarlyDescends(s, t, c);
    } else {
      LateDescends(s, t, c);
    }
  }

  /** Every step of work already begun leaves less of it. */
  lemma {:induction false} MovesDecrease(s: State, t: State)
    requires Moves(s, t)
    ensures Work(t) < Work(s) && t.calls.Keys == s.calls.Keys
  {
    hide CallWork, Rank, Advance, RouteOf, SyncMatch, Filled, CopyLength;
    if RecvStep(s, t) {
      if Answer(s, t) {
        var o := s.slot.owner;
        CallWorkUpdate(s.calls, o, t.calls[o]);
        assert t.calls == s.calls[o := t.calls[o]];
      }
    } else {
      var c :| Advance(s, t, c);
      AdvanceDescends(s, t, c);
      CallWorkUpdate(s.calls, c, t.calls[c]);
    }
  }

  lemma {:induction false} AMoveIsAStep(s: State, t: State)
    requires Moves(s, t)
    ensures Next(s, t)
  {
    hide AcquireModem, AcquireLock, Arm, TakeToken, ReadLength, Timeout, Deactivate, DeleteSem, ReleaseModem, RecvStep;
    if c :| Advance(s, t, c) {
      assert CallStep(s, t, c) || exists q :: Arm(s, t, c, q);
    }
  }

  lemma {:induction false} MovesReachable(s: State, t: State, init: SemId)
    requires Reachable(s, init) && Moves(s, t)
    ensures Reachable(t, init)
  {
    hide Init, Moves;
    AMoveIsAStep(s, t);
    hide Next;
    var states :| Run(states, init) && states[|states| - 1] == s;
    var more := states + [t];
    assert Run(more, init) && more[|more| - 1] == t;
  }

  ghost predicate Path(path: seq<State>) {
    path != [] && forall i | 0 <= i < |path| - 1 :: Moves(path[i], path[i + 1])
  }

  /**
   * From every reachable state the calls under way can all be completed, and the frame being taken
   * handled, by the threads' own next steps; and they must be, since each such step leaves less work.
   */
  lemma {:induction false} Completes(s: State, init: SemId) returns (path: seq<State>)
    requires Reachable(s, init)
    ensures Path(path) && path[0] == s && |path| <= Work(s) + 1
    ensures var t := path[|path| - 1]; Reachable(t, init) && Quiet(t) && t.calls.Keys == s.calls.Keys
    decreases Work(s)
  {
    hide Moves, Work, Reachable, Quiet;
    if Quiet(s) {
      path := [s];
    } else {
      Progress(s, init);
      var t :| Moves(s, t);
      MovesDecrease(s, t);
      MovesReachable(s, t, init);
      var rest := Completes(t, init);
      path := [s] + rest;
    }
  }

  /** No infinite run of such steps either: every path of them is at most as long as the work there was. */
  lemma {:induction false} PathBounded(path: seq<State>)
    requires Path(path)
    ensures |path| <= Work(path[0]) + 1
    decreases |path|
  {
    hide Moves, Work;
    if |path| > 1 {
      MovesDecrease(path[0], path[1]);
      PathBounded(path[1..]);
    }
  }
}
