/** nodes/stream_client.py: what runs of the client pipeline can do. */
module ClientRuns {
  import opened Common
  import opened ClientPipeline

  ghost predicate ReachedBy(c: Config, steps: seq<Step>, s: State) {
    exists run :: IsRun(c, run, steps) && run[|steps|] == s
  }

  lemma Then(c: Config, steps: seq<Step>, s: State, step: Step) returns (further: seq<Step>, t: State)
    requires ReachedBy(c, steps, s) && Enabled(c, s, step)
    ensures t == Apply(c, s, step) && ReachedBy(c, further, t) && further == steps + [step]
  {
    hide Init, Enabled, Apply;
    var run :| IsRun(c, run, steps) && run[|steps|] == s;
    further, t := steps + [step], Apply(c, s, step);
    var longer := run + [t];
    assert longer[0] == run[0];
    forall i | 0 <= i < |further| ensures Moves(c, longer[i], further[i], longer[i + 1]) {
      if i < |steps| {
        assert Moves(c, run[i], steps[i], run[i + 1]);
      }
    }
    assert IsRun(c, longer, further) && longer[|further|] == t;
  }

  lemma ReachedKeepsInv(c: Config, steps: seq<Step>, s: State)
    requires GoodConfig(c) && ReachedBy(c, steps, s)
    ensures Inv(c, s)
  {
    hide Inv, GoodConfig;
    var run :| IsRun(c, run, steps) && run[|steps|] == s;
    RunKeepsInv(c, run, steps, |steps|);
  }

  // ---- When the window is exceeded ----

  /** The sender is let through without room, because the stop event is set, with the maximum reached,
      and neither the session nor the control plane keeps it from sending. */
  predicate Forced(c: Config, s: State, step: Step) {
    && step == BySender(Admitted) && s.stop && |s.acksPending| == c.maxLimit
    && s.session != Degraded && s.accepting
  }

  predicate Roomy(c: Config, s: State) {
    |s.acksPending| <= c.maxLimit && (s.sender.Sending? ==> |s.acksPending| < c.maxLimit)
  }

  lemma RoomyStep(c: Config, s: State, step: Step)
    requires WindowInv(c, s) && Roomy(c, s) && Enabled(c, s, step) && !Forced(c, s, step)
    ensures Roomy(c, Apply(c, s, step))
  {
    match step
    case ByCapture(x) =>
    case ByWorker(i, x) =>
    case BySender(x) => RoomySender(c, s, x);
    case ByConsumer(x) =>
      ReplyFreesAcks(c, s, x);
      ReplyLeavesSender(c, s, x);
      hide ReplyApply, ReplyEnabled;
      SubsetSize(ReplyApply(c, s, x).acksPending, s.acksPending);
    case RaiseStop =>
  }

  lemma RoomySender(c: Config, s: State, step: SenderStep)
    requires WindowInv(c, s) && Roomy(c, s) && SenderEnabled(c, s, step) && !Forced(c, s, BySender(step))
    ensures Roomy(c, SenderApply(c, s, step))
  {
    if step == Register {
      var q := s.sender.sequence;
      SubsetSize(s.acksPending, s.acksPending + {q});
      assert q in s.acksPending ==> s.acksPending + {q} == s.acksPending;
    }
    hide MaySendEof, WithinWindow, Transition;
  }

  /** Only such an admission lets a run exceed the maximum. */
  lemma {:induction false} ExceedingIsForced(c: Config, run: seq<State>, steps: seq<Step>, i: nat)
    requires GoodConfig(c) && IsRun(c, run, steps) && i < |run|
    ensures Roomy(c, run[i]) || exists j :: 0 <= j < i && Forced(c, run[j], steps[j])
  {
    hide Enabled, Apply, Forced, Roomy, Init, WindowInv;
    if i == 0 {
      FirstIsRoomy(c, run[0]);
    } else {
      ExceedingIsForced(c, run, steps, i - 1);
      assert Moves(c, run[i - 1], steps[i - 1], run[i]);
      if Roomy(c, run[i - 1]) && !Forced(c, run[i - 1], steps[i - 1]) {
        RunKeepsInv(c, run, steps, i - 1);
        RoomyStep(c, run[i - 1], steps[i - 1]);
      }
    }
  }

  lemma FirstIsRoomy(c: Config, s: State)
    requires GoodConfig(c) && Init(c, s)
    ensures Roomy(c, s)
  {
    assert |s.acksPending| == 0;
  }

  lemma HeldIsNotInFlight(c: Config, s: State)
    requires Inv(c, s) && s.sender.Waiting?
    ensures s.sender.sequence !in s.acksPending
  {
    var q := s.sender.sequence;
    assert HeldBySender(s.sender) == Some(q) && Recorded(s, q, WithSender);
    assert q !in s.inflight;
  }

  lemma SendRest(c: Config, steps: seq<Step>, s: State, q: nat) returns (further: seq<Step>, t: State)
    requires ReachedBy(c, steps, s) && s.sender == Sending(q, 0)
    ensures ReachedBy(c, further, t) && t.sender == Sending(q, c.fragments(q)) && t.acksPending == s.acksPending
  {
    hide IsRun, ReachedBy;
    further, t := steps, s;
    var k := 0;
    while k < c.fragments(q)
      invariant k <= c.fragments(q) && ReachedBy(c, further, t)
      invariant t.sender == Sending(q, k) && t.acksPending == s.acksPending
    {
      further, t := Then(c, further, t, BySender(SendFragment));
      k := k + 1;
    }
  }

  /** And every such admission does: the run can go on to one frame more than the maximum. */
  lemma ForcedExceeds(c: Config, steps: seq<Step>, s: State) returns (further: seq<Step>, t: State)
    requires GoodConfig(c) && ReachedBy(c, steps, s)
    requires SenderEnabled(c, s, Admitted) && Forced(c, s, BySender(Admitted))
    ensures ReachedBy(c, further, t) && |t.acksPending| == c.maxLimit + 1
  {
    hide IsRun, ReachedBy, Inv;
    ReachedKeepsInv(c, steps, s);
    HeldIsNotInFlight(c, s);
    var q := s.sender.sequence;
    further, t := Then(c, steps, s, BySender(Admitted));
    further, t := SendRest(c, further, t, q);
    further, t := Then(c, further, t, BySender(Register));
    assert t.acksPending == s.acksPending + {q};
  }

  // ---- A client with one worker and one fragment per frame ----

  function Tiny(maxLimit: int): Config {
    Config(1, 4, 4, maxLimit, 0, _ => 1, _ => "frame")
  }

  lemma Start(m: int) returns (steps: seq<Step>, s: State)
    requires m >= 1
    ensures GoodConfig(Tiny(m)) && ReachedBy(Tiny(m), steps, s)
    ensures Init(Tiny(m), s) && s.limit == m && s.nextTicket == 0 && s.workers == [Idle]
  {
    steps, s := [], State(
      false, Healthy, true, {}, 0, 0, Capturing, [Idle], [], AtLoop, 0, false, {}, {}, m, [], {}, map[], {}, {}, {}, []);
    assert s.workers == seq(Tiny(m).workers, _ => Idle);
    assert IsRun(Tiny(m), [s], steps) && [s][|steps|] == s;
  }

  /** Takes one more frame through capture and the only worker to the network queue. */
  lemma FrameToNetwork(m: int, steps: seq<Step>, s: State) returns (further: seq<Step>, t: State)
    requires ReachedBy(Tiny(m), steps, s)
    requires s.capture == Capturing && s.captureQueue == {} && s.workers == [Idle] && |s.networkQueue| < 4
    ensures ReachedBy(Tiny(m), further, t)
    ensures t.networkQueue == s.networkQueue + [Some(s.nextSequence)] && t.nextSequence == s.nextSequence + 1
    ensures t == s.(networkQueue := t.networkQueue, nextSequence := t.nextSequence,
                    nextTicket := t.nextTicket, place := t.place)
    ensures t.place == s.place[s.nextSequence := InNetwork]
  {
    hide IsRun, ReachedBy;
    further, t := Then(Tiny(m), steps, s, ByCapture(Accept(Finite(0.0))));
    further, t := Then(Tiny(m), further, t, ByWorker(0, Get(Frame(Finite(0.0), s.nextTicket, s.nextSequence))));
    further, t := Then(Tiny(m), further, t, ByWorker(0, Put));
    assert t.workers == [Idle];
  }

  /** `k` frames sent, none of them acknowledged. */
  ghost predicate Unacknowledged(s: State, m: int, k: nat) {
    && !s.stop && s.session == Healthy && s.accepting && s.limit == m && s.sender == AtLoop
    && s.capture == Capturing && s.captureQueue == {} && s.workers == [Idle] && s.networkQueue == []
    && s.nextSequence == k && |s.acksPending| == k && forall q :: q in s.acksPending ==> q < k
  }

  lemma SendOne(m: int, k: nat, steps: seq<Step>, s: State) returns (further: seq<Step>, t: State)
    requires k < m && ReachedBy(Tiny(m), steps, s) && Unacknowledged(s, m, k)
    ensures ReachedBy(Tiny(m), further, t) && Unacknowledged(t, m, k + 1)
  {
    hide IsRun, ReachedBy;
    further, t := FrameToNetwork(m, steps, s);
    further, t := Then(Tiny(m), further, t, BySender(Loop));
    further, t := Then(Tiny(m), further, t, BySender(Take));
    assert t.sender == Waiting(k);
    further, t := Then(Tiny(m), further, t, BySender(Admitted));
    further, t := Then(Tiny(m), further, t, BySender(SendFragment));
    further, t := Then(Tiny(m), further, t, BySender(Register));
    assert t.acksPending == s.acksPending + {k};
  }

  lemma {:induction false} SendSeveral(m: int, k: nat) returns (steps: seq<Step>, s: State)
    requires 1 <= m && k <= m
    ensures GoodConfig(Tiny(m)) && ReachedBy(Tiny(m), steps, s) && Unacknowledged(s, m, k)
  {
    hide IsRun, ReachedBy;
    if k == 0 {
      steps, s := Start(m);
      assert |s.acksPending| == 0;
    } else {
      steps, s := SendSeveral(m, k - 1);
      hide Unacknowledged;
      steps, s := SendOne(m, k - 1, steps, s);
    }
  }

  /** Whatever the maximum, one frame more can be unacknowledged: the stop event lets a sender that
      waits for room send the frame it holds. */
  lemma OneOverTheMaximum(m: int) returns (steps: seq<Step>, s: State)
    requires m >= 1
    ensures GoodConfig(Tiny(m)) && ReachedBy(Tiny(m), steps, s) && |s.acksPending| == m + 1
  {
    hide IsRun, ReachedBy;
    steps, s := SendSeveral(m, m);
    steps, s := FrameToNetwork(m, steps, s);
    steps, s := Then(Tiny(m), steps, s, BySender(Loop));
    steps, s := Then(Tiny(m), steps, s, BySender(Take));
    steps, s := Then(Tiny(m), steps, s, RaiseStop);
    steps, s := ForcedExceeds(Tiny(m), steps, s);
  }

  /** No more frames: the only worker takes its sentinel and passes it on. */
  lemma WorkerEnds(steps: seq<Step>, s: State) returns (further: seq<Step>, t: State)
    requires ReachedBy(Tiny(1), steps, s)
    requires s.capture == Capturing && s.captureQueue == {} && s.workers == [Idle] && |s.networkQueue| < 4
    ensures ReachedBy(Tiny(1), further, t)
    ensures t == s.(networkQueue := s.networkQueue + [None], capture := Signalling(0), workers := [Finished],
                    nextTicket := s.nextTicket + 1)
  {
    hide IsRun, ReachedBy;
    further, t := Then(Tiny(1), steps, s, ByCapture(NoMoreFrames));
    further, t := Then(Tiny(1), further, t, ByCapture(PutSentinel));
    further, t := Then(Tiny(1), further, t, ByWorker(0, Get(Sentinel(s.nextTicket))));
    further, t := Then(Tiny(1), further, t, ByWorker(0, Finish));
    assert t.workers == [Finished];
  }

  /** A session of one frame that is sent, acknowledged and answered ends with EOF. */
  lemma EofIsReached() returns (steps: seq<Step>, s: State)
    ensures GoodConfig(Tiny(1)) && ReachedBy(Tiny(1), steps, s)
    ensures s.wire == [Data(0, 0), Eof] && s.session == Closing && s.answered == {0} == s.place.Keys
  {
    hide IsRun, ReachedBy;
    steps, s := Start(1);
    steps, s := FrameToNetwork(1, steps, s);
    steps, s := WorkerEnds(steps, s);
    steps, s := Then(Tiny(1), steps, s, BySender(Loop));
    steps, s := Then(Tiny(1), steps, s, BySender(Take));
    steps, s := Then(Tiny(1), steps, s, BySender(Admitted));
    steps, s := Then(Tiny(1), steps, s, BySender(SendFragment));
    steps, s := Then(Tiny(1), steps, s, BySender(Register));
    steps, s := Then(Tiny(1), steps, s, ByConsumer(Ack(0, None, false)));
    steps, s := Then(Tiny(1), steps, s, ByConsumer(DataReply(Some(0), "frame", 0, None, Some(0))));
    steps, s := Then(Tiny(1), steps, s, BySender(Loop));
    steps, s := Then(Tiny(1), steps, s, BySender(Take));
    steps, s := Then(Tiny(1), steps, s, BySender(Drained));
    steps, s := Then(Tiny(1), steps, s, BySender(EofWritten));
  }
}
