/** What the YMODEM receiver answers, packet by packet, in the bytes that go out. */
module YmodemReplies {
  import opened Bytes
  import opened Ymodem
  import opened YmodemSession

  /**
   * The answer to one event: ACK (0x06) for a packet written, NAK (0x15) for one with another number
   * than the next, 'C' (0x43) for a bad one, two CA (0x18) when the call gives up, as it does when the
   * file system refuses a write.
   */
  ghost predicate Answers(cfg: Config, s: Session, e: Event, t: Session, answer: seq<byte>)
    requires WfEvent(e)
  {
    if s.code.Some? then answer == [] && t == s
    else if |t.writes| > |s.writes| then
      && e.Data? && t.code.None? && answer == [0x06]
      && (|s.writes| < |cfg.results| ==> cfg.results[|s.writes|] == 0)
    else match e
         case SenderAborts => answer == [] && t.code == Some(5)
         case EndOfFile => answer == [0x18, 0x18] && t.code == Some(0)
         case UserAborts => answer == [0x18, 0x18] && t.code == Some(1)
         case Bad => if t.code.None? then answer == [0x43] else answer == [0x18, 0x18] && t.code == Some(1)
         case Data(number, data) =>
           if number != s.number then answer == [0x15] && t == s.(errors := 0, replies := t.replies)
           else if number != 0 then
             && answer == [0x18, 0x18] && t.code == Some(1)
             && |s.writes| < |cfg.results| && cfg.results[|s.writes|] != 0
           else if data[0] == 0 then answer == [0x06] && t.code == Some(0)
           else if DeclaredSize(data, s.filesize) > cfg.limit then answer == [0x18, 0x18, 0x06, 0x43] && t.code == Some(0)
           else answer == [0x06, 0x43] && t.code.None?
  }

  lemma {:induction false} StepAnswers(cfg: Config, s: Session, e: Event) returns (answer: seq<byte>)
    requires WfEvent(e)
    ensures Step(cfg, s, e).replies == s.replies + answer && Answers(cfg, s, e, Step(cfg, s, e), answer)
  {
    hide DeclaredSize, Wrap32;
    answer := Step(cfg, s, e).replies[|s.replies|..];
  }

  /** Event i of the run got answer i. */
  ghost predicate AnsweredAt(cfg: Config, garbage: int, events: seq<Event>, i: nat, answer: seq<byte>)
    requires WfEvents(events) && i < |events|
  {
    Answers(cfg, Run(cfg, Start(garbage), events[..i]), events[i], Run(cfg, Start(garbage), events[..i + 1]), answer)
  }

  lemma {:induction false} AnsweredBefore(cfg: Config, garbage: int, events: seq<Event>, i: nat, answer: seq<byte>)
    requires WfEvents(events) && i + 1 < |events|
    requires AnsweredAt(cfg, garbage, events[..|events| - 1], i, answer)
    ensures AnsweredAt(cfg, garbage, events, i, answer)
  {
    hide Answers, Run;
    var before := events[..|events| - 1];
    assert before[..i] == events[..i] && before[..i + 1] == events[..i + 1] && before[i] == events[i];
  }

  lemma {:induction false} LastAnswered(cfg: Config, garbage: int, events: seq<Event>, answer: seq<byte>)
    requires WfEvents(events) && events != []
    requires var s := Run(cfg, Start(garbage), events[..|events| - 1]);
             Answers(cfg, s, events[|events| - 1], Step(cfg, s, events[|events| - 1]), answer)
    ensures AnsweredAt(cfg, garbage, events, |events| - 1, answer)
  {
    hide Step, Answers;
    assert events[..|events|] == events;
  }

  /** All that goes out in a run is one such answer for each event, in their order. */
  lemma {:induction false} RepliesExact(cfg: Config, garbage: int, events: seq<Event>) returns (answers: seq<seq<byte>>)
    requires WfEvents(events)
    ensures |answers| == |events| && Run(cfg, Start(garbage), events).replies == Flat(answers)
    ensures forall i | 0 <= i < |events| :: AnsweredAt(cfg, garbage, events, i, answers[i])
    decreases |events|
  {
    hide Step, Answers, AnsweredAt;
    if events == [] {
      answers := [];
    } else {
      var n := |events| - 1;
      var before := events[..n];
      var first := RepliesExact(cfg, garbage, before);
      var answer := StepAnswers(cfg, Run(cfg, Start(garbage), before), events[n]);
      answers := first + [answer];
      assert answers[..n] == first;
      forall i | 0 <= i < |events|
        ensures AnsweredAt(cfg, garbage, events, i, answers[i])
      {
        if i < n {
          AnsweredBefore(cfg, garbage, events, i, answers[i]);
        } else {
          LastAnswered(cfg, garbage, events, answer);
        }
      }
    }
  }

  // ----- an undisturbed transfer

  lemma {:induction false} HeaderAnswered(cfg: Config, garbage: int, header: seq<byte>)
    requires Accepting(cfg, garbage, header)
    ensures Step(cfg, Start(garbage), Data(0, header)).replies == [0x06, 0x43]
  {
    hide DeclaredSize, Wrap32, Fails;
  }

  lemma {:induction false} BlockAnswered(cfg: Config, s: Session, number: byte, data: seq<byte>)
    requires WfEvent(Data(number, data)) && s.code.None? && s.number == number != 0 && forall k: nat :: !Fails(cfg, k)
    ensures Step(cfg, s, Data(number, data)).replies == s.replies + [0x06]
  {
    hide Wrap32, Fails;
  }

  function Acknowledged(n: nat): (r: seq<byte>)
    ensures |r| == n && forall k :: 0 <= k < n ==> r[k] == 0x06
  {
    seq(n, _ => 0x06)
  }

  /** The sender of a file that arrives undisturbed reads ACK and 'C' for the header and one ACK for each block. */
  lemma {:induction false} UndisturbedReplies(cfg: Config, garbage: int, header: seq<byte>, blocks: seq<seq<byte>>, k: nat)
    requires Accepting(cfg, garbage, header) && WfBlocks(blocks) && k <= |blocks| && k <= 255
    ensures Run(cfg, Start(garbage), InOrder(header, blocks)[..k + 1]).replies == [0x06, 0x43] + Acknowledged(k)
    decreases k
  {
    hide Step, Run, Fails, DeclaredSize;
    var all := InOrder(header, blocks);
    if k == 0 {
      assert all[..1] == [] + [Data(0, header)];
      RunNothing(cfg, Start(garbage));
      RunSnoc(cfg, Start(garbage), [], Data(0, header));
      HeaderAnswered(cfg, garbage, header);
    } else {
      UndisturbedReplies(cfg, garbage, header, blocks, k - 1);
      FirstBlocks(cfg, garbage, header, blocks, k - 1);
      InOrderSnoc(header, blocks, k - 1);
      RunSnoc(cfg, Start(garbage), all[..k], Data(k % 256, blocks[k - 1]));
      BlockAnswered(cfg, Run(cfg, Start(garbage), all[..k]), k % 256, blocks[k - 1]);
      assert Acknowledged(k - 1) + [0x06] == Acknowledged(k);
    }
  }
}
