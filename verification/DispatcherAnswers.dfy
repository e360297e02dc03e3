/** What a call of the AT dispatcher has in hand: the answer logged for it and nothing else, whatever it returns. */
module DispatcherAnswers {
  import opened Bytes
  import opened Dispatcher
  import opened DispatcherProtocol
  import opened DispatcherRuns

  // ----- the caller's buffer and index

  /** The caller's storage after the frame has been delivered into it. */
  predicate Delivered(o: Call, f: seq<byte>)
    requires WfArgs(o.args)
  {
    && SyncMatch(o.args.acks, f).Some?
    && o.buf == (if o.args.hasBuf then Filled(f, o.args.size, o.args.buf) else o.args.buf)
    && o.index == (if o.args.hasIndex then SyncMatch(o.args.acks, f).value else o.args.index)
  }

  /** A call holds the frame it was answered with, or what it came with, as the log says. */
  ghost predicate Holds(o: Call, c: CallId, history: seq<seq<byte>>, responses: seq<Response>) {
    && WfArgs(o.args)
    && match o.answer
       case None => o.buf == o.args.buf && o.index == o.args.index && forall n: nat :: Response(n, c) !in responses
       case Some(n) => Response(n, c) in responses && n < |history| && Delivered(o, history[n])
  }

  ghost predicate AllHold(s: State) { forall c | c in s.calls :: Holds(s.calls[c], c, s.history, s.responses) }

  /** All steps but Answer leave a call's storage and answer alone; a new call has its own. */
  predicate SameHand(s: State, t: State, c: CallId)
    requires c in t.calls
  {
    if c in s.calls then t.calls[c] == s.calls[c].(pc := t.calls[c].pc, armedAt := t.calls[c].armedAt)
    else WfArgs(t.calls[c].args) && t.calls[c] == Call(t.calls[c].args, Begin, t.calls[c].args.buf, t.calls[c].args.index, 0, None)
  }

  lemma {:induction false} HandsKept(s: State, t: State, c: CallId)
    requires Next(s, t) && !Answer(s, t) && c in t.calls
    ensures SameHand(s, t, c)
  {
    hide CallStep, SlotFor, FreeSub, Truncated, RouteOf, Answer;
    if d :| CallStep(s, t, d) {
      CallStepShaped(s, t, d);
    }
  }

  lemma {:induction false} InvLogs(s: State, init: SemId)
    requires Inv(s, init)
    ensures forall n: nat, c: CallId :: Response(n, c) in s.responses ==> c in s.calls && n < |s.history|
  {
    hide CallOk, RecvOk, SemsOk;
    forall n: nat, c: CallId | Response(n, c) in s.responses
      ensures c in s.calls && n < |s.history|
    {
      var i :| 0 <= i < |s.responses| && s.responses[i] == Response(n, c);
    }
  }

  lemma {:induction false} PublishedOnly(s: State, t: State)
    requires Next(s, t) && !Answer(s, t)
    ensures s.history <= t.history && t.responses == s.responses
  {
    hide Next, RouteOf, Answer;
    if !Publish(s, t) {
      LogsKept(s, t);
    }
  }

  lemma {:induction false} HoldsStill(s: State, t: State, init: SemId)
    requires AllHold(s) && Inv(s, init) && Next(s, t) && !Answer(s, t)
    ensures AllHold(t)
  {
    hide Next, CallOk, RecvOk, SemsOk, Answer, Publish, SyncMatch, Filled, Inv;
    InvLogs(s, init);
    forall c | c in t.calls
      ensures Holds(t.calls[c], c, t.history, t.responses)
    {
      HandsKept(s, t, c);
      if c in s.calls {
        assert Holds(s.calls[c], c, s.history, s.responses);
      }
      PublishedOnly(s, t);
    }
  }

  lemma {:induction false} HoldsAnswered(s: State, t: State, init: SemId)
    requires AllHold(s) && Inv(s, init) && Answer(s, t)
    ensures AllHold(t)
  {
    hide Filled, CopyLength;
    var o := s.slot.owner;
    AnswerCalls(s, t, init);
    InvLogs(s, init);
    assert CallOk(s, o, init);
    forall c | c in t.calls
      ensures Holds(t.calls[c], c, t.history, t.responses)
    {
      assert Holds(s.calls[c], c, s.history, s.responses);
    }
  }

  lemma {:induction false} RunHolds(states: seq<State>, init: SemId)
    requires Run(states, init)
    ensures AllHold(states[|states| - 1])
    decreases |states|
  {
    hide Next, Inv, Holds, Answer;
    var m := |states| - 1;
    if m > 0 {
      var before := states[..m];
      assert Run(before, init);
      RunHolds(before, init);
      RunInv(states, init, m - 1);
      assert Next(states[m - 1], states[m]);
      if Answer(states[m - 1], states[m]) {
        HoldsAnswered(states[m - 1], states[m], init);
      } else {
        HoldsStill(states[m - 1], states[m], init);
      }
    }
  }

  lemma {:induction false} ReachableHolds(s: State, init: SemId)
    requires Reachable(s, init)
    ensures AllHold(s)
  {
    hide Init, Next, AllHold;
    var states :| Run(states, init) && states[|states| - 1] == s;
    RunHolds(states, init);
  }

  lemma {:induction false} OneResponse(s: State, c: CallId, init: SemId)
    requires Inv(s, init)
    ensures forall m: nat, n: nat :: Response(m, c) in s.responses && Response(n, c) in s.responses ==> m == n
  {
    hide CallOk, RecvOk, SemsOk;
    forall m: nat, n: nat | Response(m, c) in s.responses && Response(n, c) in s.responses
      ensures m == n
    {
      var i :| 0 <= i < |s.responses| && s.responses[i] == Response(m, c);
      var j :| 0 <= j < |s.responses| && s.responses[j] == Response(n, c);
      assert i == j;
    }
  }

  /**
   * In every reachable state, whatever a call has returned or is doing: with a response to it in the
   * log its buffer and index are what that frame brings, and without one they are the caller's own.
   */
  lemma {:induction false} HandIsLogged(s: State, c: CallId, init: SemId)
    requires Reachable(s, init) && c in s.calls
    ensures var o := s.calls[c];
            && WfArgs(o.args)
            && (forall n: nat :: Response(n, c) in s.responses ==> n < |s.history| && Delivered(o, s.history[n]))
            && ((forall n: nat :: Response(n, c) !in s.responses) ==> o.buf == o.args.buf && o.index == o.args.index)
  {
    hide Reachable, Inv;
    ReachableHolds(s, init);
    ReachableInv(s, init);
    assert Holds(s.calls[c], c, s.history, s.responses);
    OneResponse(s, c, init);
  }

  lemma {:induction false} ReturnedAnswered(s: State, c: CallId, init: SemId)
    requires Reachable(s, init) && c in s.calls && s.calls[c].pc.Returned? && s.calls[c].pc.code != -1
    ensures Answered(s.calls[c], s.history, s.calls[c].pc.code)
  {
    hide Reachable, Answered;
    ReachableInv(s, init);
    assert CallOk(s, c, init);
  }

  /**
   * A call that returns something else than -1 was answered: the log names one frame, handled after
   * the call was armed, whose front it holds, as long as the returned length, with the least matching
   * ACK index; the rest of its buffer is as the caller left it.
   */
  lemma {:induction false} SuccessMeansAnswered(s: State, c: CallId, init: SemId)
    requires Reachable(s, init) && c in s.calls && s.calls[c].pc.Returned? && s.calls[c].pc.code != -1
    ensures exists n: nat | s.calls[c].armedAt <= n < |s.history| && Response(n, c) in s.responses ::
              var o, f := s.calls[c], s.history[n];
              && s.calls[c].pc.code == (if |f| < o.args.size then |f| else o.args.size)
              && (o.args.hasBuf ==>
                    (&& |o.buf| == |o.args.buf| && o.args.size <= |o.buf|
                     && (forall k | 0 <= k < |o.buf| ::
                           o.buf[k] == if k < |f| && k < o.args.size then f[k] else o.args.buf[k])))
              && (o.args.acks != [] ==> exists j | 0 <= j < |o.args.acks| ::
                    && Matches(o.args.acks[j], f) && (forall k | 0 <= k < j :: !Matches(o.args.acks[k], f))
                    && (o.args.hasIndex ==> o.index == j))
              && (o.args.acks == [] && o.args.hasIndex ==> o.index == 0)
  {
    hide Reachable, Inv, CallOk;
    ReturnedAnswered(s, c, init);
    ReachableHolds(s, init);
    assert Holds(s.calls[c], c, s.history, s.responses);
    var o := s.calls[c];
    var n := o.answer.value;
    var f := s.history[n];
    var j := SyncMatch(o.args.acks, f).value;
    assert o.args.acks != [] ==> Matches(o.args.acks[j], f);
    assert Response(n, c) in s.responses;
  }

  // ----- a call that times out and is answered all the same

  lemma {:induction false} StepReachable(s: State, t: State, init: SemId)
    requires Reachable(s, init) && Next(s, t)
    ensures Reachable(t, init)
  {
    hide Init, Next;
    var states :| Run(states, init) && states[|states| - 1] == s;
    var more := states + [t];
    assert Run(more, init) && more[|more| - 1] == t;
  }

  function Asking(): Args { Args([], true, 1, [0], true, 7) }

  function Begun(): State {
    State(map[0 := Call(Asking(), Begin, [0], 7, 0, None)], None, Free, Slot(false, 0, [], false, 0, false, 0, Some(0)), map[0 := 0],
          seq(MAX_SUBS, _ => NO_SUB), Listening, [], [], [])
  }

  lemma {:induction false} BegunReachable()
    ensures Reachable(Begun(), 0)
  {
    var s := Begun().(calls := map[]);
    assert Init(s, 0);
    assert Run([s], 0);
    assert NewCall(s, Begun(), 0, Asking());
    StepReachable(s, Begun(), 0);
  }

  function Armed(s: State): State
    requires 0 in s.calls
  {
    s.(calls := s.calls[0 := s.calls[0].(pc := Waiting)], modem := Some(0), slot := SlotFor(0, Asking(), true, Some(1)),
       sems := s.sems[1 := 0])
  }

  lemma {:induction false} ArmedReachable()
    ensures Reachable(Armed(Begun()), 0)
  {
    hide Reachable;
    BegunReachable();
    var s := Begun();
    var s1 := SetPc(s, 0, WantLock).(modem := Some(0));
    assert AcquireModem(s, s1, 0) && CallStep(s, s1, 0);
    StepReachable(s, s1, 0);
    var s2 := SetPc(s1, 0, InLock).(lock := Caller(0));
    assert AcquireLock(s1, s2, 0) && CallStep(s1, s2, 0);
    StepReachable(s1, s2, 0);
    assert Armed(s).calls == s2.calls[0 := s2.calls[0].(pc := Waiting, armedAt := |s2.history|)];
    assert Arm(s2, Armed(s), 0, 1);
    StepReachable(s2, Armed(s), 0);
  }

  /** The call has timed out, and only then a frame is taken. */
  function Handed(): State {
    Armed(Begun()).(calls := map[0 := Call(Asking(), TimedOut, [0], 7, 0, None)], recv := Handling([65]), lock := Receiver)
  }

  lemma {:induction false} HandedReachable()
    ensures Reachable(Handed(), 0)
  {
    hide Reachable;
    ArmedReachable();
    var s0 := Armed(Begun());
    var s1 := SetPc(s0, 0, TimedOut);
    assert Timeout(s0, s1, 0) && CallStep(s0, s1, 0);
    StepReachable(s0, s1, 0);
    var s2 := s1.(recv := WantsLock([65]));
    assert FrameArrives(s1, s2, [65]);
    StepReachable(s1, s2, 0);
    var s3 := s2.(recv := Handling([65]), lock := Receiver);
    assert RecvLock(s2, s3) && RecvStep(s2, s3);
    StepReachable(s2, s3, 0);
    assert s3 == Handed();
  }

  function Taken(s: State): State
    requires 0 in s.calls
  {
    s.(calls := s.calls[0 := s.calls[0].(buf := [65], index := 0, answer := Some(0))],
       slot := s.slot.(active := false, respLen := 1), history := [[65]], responses := [Response(0, 0)], recv := Signalling)
  }

  lemma {:induction false} HandedTaken()
    ensures Answer(Handed(), Taken(Handed()))
  {
    assert Filled([65], 1, [0]) == [65];
    assert [] + [[65]] == [[65]] && [] + [Response(0, 0)] == [Response(0, 0)];
  }

  lemma {:induction false} LateReachable() returns (s: State)
    ensures Reachable(s, 0) && s.lock == Free && s.modem == Some(0) && s.slot.sem == Some(1)
    ensures s.calls == map[0 := Call(Asking(), TimedOut, [65], 0, 0, Some(0))] && s.responses == [Response(0, 0)]
  {
    hide Reachable;
    HandedReachable();
    HandedTaken();
    var s4 := Taken(Handed());
    assert RecvStep(Handed(), s4);
    StepReachable(Handed(), s4, 0);
    var s5 := s4.(recv := Unlocking, sems := s4.sems[1 := 1]);
    assert Signal(s4, s5) && RecvStep(s4, s5);
    StepReachable(s4, s5, 0);
    s := s5.(recv := Listening, lock := Free);
    assert RecvUnlock(s5, s) && RecvStep(s5, s);
    StepReachable(s5, s, 0);
  }

  lemma {:induction false} CleanupReachable() returns (s: State)
    ensures Reachable(s, 0) && s.slot.sem == Some(1)
    ensures s.calls == map[0 := Call(Asking(), Cleanup(-1), [65], 0, 0, Some(0))] && s.responses == [Response(0, 0)]
  {
    hide Reachable;
    var s0 := LateReachable();
    var s1 := SetPc(s0, 0, TimedOutLocked).(lock := Caller(0));
    assert AcquireLock(s0, s1, 0) && CallStep(s0, s1, 0);
    StepReachable(s0, s1, 0);
    s := SetPc(s1, 0, Cleanup(-1)).(lock := Free, slot := s1.slot.(active := false));
    assert Deactivate(s1, s, 0) && CallStep(s1, s, 0);
    StepReachable(s1, s, 0);
  }

  /**
   * So -1 does not mean that nothing was delivered: a frame taken between the timeout and the
   * deactivation of the slot is in the caller's buffer and index when the call returns -1.
   */
  lemma {:induction false} FailureMayHaveDelivered() returns (s: State)
    ensures Reachable(s, 0) && 0 in s.calls && s.calls[0].pc == Returned(-1) && Response(0, 0) in s.responses
    ensures s.calls[0].buf != s.calls[0].args.buf && s.calls[0].index != s.calls[0].args.index
  {
    hide Reachable;
    var s2 := CleanupReachable();
    var s3 := SetPc(s2, 0, Leaving(-1)).(sems := s2.sems - {1}, slot := s2.slot.(sem := None));
    assert DeleteSem(s2, s3, 0) && CallStep(s2, s3, 0);
    StepReachable(s2, s3, 0);
    s := SetPc(s3, 0, Returned(-1)).(modem := None);
    assert ReleaseModem(s3, s, 0) && CallStep(s3, s, 0);
    StepReachable(s3, s, 0);
  }
}
