/** nodes/stream_server.py: what the state of the server pipeline says about the steps that led to it. */
module ServerHistory {
  import opened Common
  import opened ServerPipeline

  // ---- The stop event ----

  predicate SetsStop(step: Step) {
    match step
    case ByReceiver(x) => x == Fails
    case ByWorker(_, x) => x == RaiseStop
    case BySender(x) => x == ReplyFails || x == ErrorSent
  }

  lemma StopStep(c: Config, s: State, step: Step)
    requires Enabled(c, s, step)
    ensures Apply(c, s, step).stop <==> s.stop || SetsStop(step)
  {
  }

  /** The stop event is set exactly after a failed receive, a reported decode error, or a failed or
      reported send. */
  lemma {:induction false} StopIsSetIff(c: Config, run: seq<State>, steps: seq<Step>, i: nat)
    requires IsRun(c, run, steps) && i < |run|
    ensures run[i].stop <==> Ever(run, steps, (_, x) => SetsStop(x), i)
  {
    hide Enabled, Apply, Ever;
    NothingYet(run, steps);
    if i > 0 {
      StopIsSetIff(c, run, steps, i - 1);
      EverStep(run, steps, (_, x) => SetsStop(x), i - 1);
      assert Moves(c, run[i - 1], steps[i - 1], run[i]);
      StopStep(c, run[i - 1], steps[i - 1]);
      hide IsRun, SetsStop;
    }
  }

  /** The most replies a sender at this place can still send once the stop event is set. */
  function StillAllowed(s: Sender): nat {
    if s == Getting || s.Sending? then 1 else 0
  }

  lemma AfterStopStep(c: Config, s: State, step: Step)
    requires s.stop && Enabled(c, s, step)
    ensures var t := Apply(c, s, step);
            t.stop && |t.replies| + StillAllowed(t.sender) <= |s.replies| + StillAllowed(s.sender)
  {
  }

  lemma {:induction false} AllowedAfterStop(c: Config, run: seq<State>, steps: seq<Step>, i: nat, k: nat)
    requires IsRun(c, run, steps) && i <= k < |run| && run[i].stop
    ensures run[k].stop
    ensures |run[k].replies| + StillAllowed(run[k].sender) <= |run[i].replies| + StillAllowed(run[i].sender)
  {
    hide Enabled, Apply, Init;
    if i < k {
      AllowedAfterStop(c, run, steps, i, k - 1);
      assert Moves(c, run[k - 1], steps[k - 1], run[k]);
      AfterStopStep(c, run[k - 1], steps[k - 1]);
    }
  }

  /** Once the stop event is set, at most the reply at hand is still sent. */
  lemma OneReplyAfterStop(c: Config, run: seq<State>, steps: seq<Step>, i: nat, k: nat)
    requires IsRun(c, run, steps) && i <= k < |run| && run[i].stop
    ensures run[k].stop && |run[k].replies| <= |run[i].replies| + 1
    ensures run[i].sender == AtLoop ==> |run[k].replies| <= |run[i].replies|
  {
    AllowedAfterStop(c, run, steps, i, k);
  }

  /** The sender ends early: it sees the stop event, a send fails or raises, or an error was sent. */
  predicate HaltsSender(s: State, step: Step) {
    step.BySender?
    && ((step.send == Loop && s.stop) || step.send == GiveUp || step.send == ReplyFails
        || step.send == ErrorSent || step.send == Raises)
  }

  lemma HaltStep(c: Config, s: State, step: Step)
    requires Enabled(c, s, step)
    ensures Apply(c, s, step).sender == Sender.Halted <==> s.sender == Sender.Halted || HaltsSender(s, step)
    ensures step == BySender(ErrorSent) ==> s.sender == SendingError
  {
  }

  /** The sender has ended early exactly after one of these steps; a decode error it has taken is sent
      before, unless sending it raises. */
  lemma {:induction false} SenderHaltsIff(c: Config, run: seq<State>, steps: seq<Step>, i: nat)
    requires IsRun(c, run, steps) && i < |run|
    ensures run[i].sender == Sender.Halted <==> Ever(run, steps, (s, x) => HaltsSender(s, x), i)
  {
    hide Enabled, Apply, Ever;
    NothingYet(run, steps);
    if i > 0 {
      SenderHaltsIff(c, run, steps, i - 1);
      EverStep(run, steps, (s, x) => HaltsSender(s, x), i - 1);
      assert Moves(c, run[i - 1], steps[i - 1], run[i]);
      HaltStep(c, run[i - 1], steps[i - 1]);
      hide IsRun, HaltsSender;
    }
  }

  // ---- Workers ----

  predicate GivesUp(step: Step, i: nat) {
    step.ByWorker? && step.i == i && (step.work.Discard? || step.work.RaiseStop? || step.work.Quit?)
  }

  predicate PassesOn(step: Step, i: nat) {
    step == ByWorker(i, Finish)
  }

  lemma WorkerEndsStep(c: Config, s: State, step: Step, i: nat)
    requires Enabled(c, s, step) && i < |s.workers|
    ensures var t := Apply(c, s, step);
            && |t.workers| == |s.workers|
            && (t.workers[i] == Worker.Halted <==> s.workers[i] == Worker.Halted || GivesUp(step, i))
            && (t.workers[i] == Finished <==> s.workers[i] == Finished || PassesOn(step, i))
  {
    match step
    case ByReceiver(x) =>
    case BySender(x) =>
    case ByWorker(k, x) =>
      assert WorkerApply(c, s, k, x).workers == s.workers[k := WorkerApply(c, s, k, x).workers[k]];
  }

  /** A worker has halted exactly when it gave up at some step, and finished exactly when it passed its
      sentinel on; both are for good. */
  lemma {:induction false} WorkerEndsOnce(c: Config, run: seq<State>, steps: seq<Step>, n: nat, i: nat)
    requires IsRun(c, run, steps) && n < |run| && i < c.workers
    ensures |run[n].workers| == c.workers
    ensures run[n].workers[i] == Worker.Halted <==> Ever(run, steps, (_, x) => GivesUp(x, i), n)
    ensures run[n].workers[i] == Finished <==> Ever(run, steps, (_, x) => PassesOn(x, i), n)
  {
    hide Enabled, Apply;
    if n > 0 {
      WorkerEndsOnce(c, run, steps, n - 1, i);
      EverStep(run, steps, (_, x) => GivesUp(x, i), n - 1);
      EverStep(run, steps, (_, x) => PassesOn(x, i), n - 1);
      assert Moves(c, run[n - 1], steps[n - 1], run[n]);
      WorkerEndsStep(c, run[n - 1], steps[n - 1], i);
      hide IsRun, Ever, GivesUp, PassesOn;
    }
  }

  // ---- Both queues are first in, first out ----

  ghost predicate Drains(step: Step) {
    step.ByWorker? && (step.work == RaiseStop || step.work == Quit(true))
  }

  ghost predicate TakesJob(step: Step) {
    step.ByWorker? && step.work == Get
  }

  /** What a step puts into the decode queue. */
  ghost function Enters(s: State, step: Step): seq<Option<nat>> {
    if step == ByReceiver(PutSentinel) then [None]
    else if step == ByReceiver(Enqueue) && s.receiver.Queueing? then [Some(s.receiver.job)]
    else []
  }

  /** What the receiver has put into the decode queue since it was last drained. */
  ghost function Queued(run: seq<State>, steps: seq<Step>, i: nat): seq<Option<nat>>
    requires |run| == |steps| + 1 && i <= |steps|
  {
    if i == 0 || Drains(steps[i - 1]) then [] else Queued(run, steps, i - 1) + Enters(run[i - 1], steps[i - 1])
  }

  /** How many entries the workers have taken since then. */
  ghost function Taken(steps: seq<Step>, i: nat): nat
    requires i <= |steps|
  {
    if i == 0 || Drains(steps[i - 1]) then 0 else Taken(steps, i - 1) + One(TakesJob(steps[i - 1]))
  }

  lemma DecodeQueueStep(c: Config, s: State, step: Step)
    requires Enabled(c, s, step)
    ensures TakesJob(step) ==> s.decodeQueue != [] && Enters(s, step) == []
    ensures Apply(c, s, step).decodeQueue ==
              if Drains(step) then []
              else if TakesJob(step) then s.decodeQueue[1..]
              else s.decodeQueue + Enters(s, step)
  {
    assert s.decodeQueue + [] == s.decodeQueue;
  }

  /** The decode queue holds what was put and not yet taken, in the order it was put. */
  lemma {:induction false} DecodeQueueIsFifo(c: Config, run: seq<State>, steps: seq<Step>, i: nat)
    requires IsRun(c, run, steps) && i < |run|
    ensures IsFifo(Queued(run, steps, i), Taken(steps, i), run[i].decodeQueue)
  {
    hide Enabled, Apply, Enters, Drains, TakesJob, IsFifo;
    NothingQueued<Option<nat>>();
    if i > 0 {
      DecodeQueueIsFifo(c, run, steps, i - 1);
      var put, taken, queue := Queued(run, steps, i - 1), Taken(steps, i - 1), run[i - 1].decodeQueue;
      assert Moves(c, run[i - 1], steps[i - 1], run[i]);
      hide IsRun;
      DecodeQueueStep(c, run[i - 1], steps[i - 1]);
      if !Drains(steps[i - 1]) {
        FifoStep(put, taken, queue, Enters(run[i - 1], steps[i - 1]), TakesJob(steps[i - 1]));
      }
    }
  }

  /** What a step puts into the send queue. */
  ghost function PutBy(s: State, step: Step): seq<Output> {
    if !step.ByWorker? || step.i >= |s.workers| then []
    else
      var w := s.workers[step.i];
      match step.work
      case PutResult => if w.Decoding? then [Result(w.job)] else []
      case PutFailure(true) => if w.Decoding? then [Failure(w.job)] else []
      case Finish => [End]
      case _ => []
  }

  /** What the workers have put into the send queue. */
  ghost function Outputs(run: seq<State>, steps: seq<Step>, i: nat): seq<Output>
    requires |run| == |steps| + 1 && i <= |steps|
  {
    if i == 0 then [] else Outputs(run, steps, i - 1) + PutBy(run[i - 1], steps[i - 1])
  }

  ghost function Fetched(steps: seq<Step>, i: nat): nat
    requires i <= |steps|
  {
    if i == 0 then 0 else Fetched(steps, i - 1) + One(steps[i - 1] == BySender(Take))
  }

  lemma SendQueueStep(c: Config, s: State, step: Step)
    requires Enabled(c, s, step)
    ensures step == BySender(Take) ==> s.sendQueue != [] && PutBy(s, step) == []
    ensures Apply(c, s, step).sendQueue ==
              if step == BySender(Take) then s.sendQueue[1..] else s.sendQueue + PutBy(s, step)
  {
    assert s.sendQueue + [] == s.sendQueue;
  }

  /** The send queue holds what the workers put and the sender has not yet taken, in order. */
  lemma {:induction false} SendQueueIsFifo(c: Config, run: seq<State>, steps: seq<Step>, i: nat)
    requires IsRun(c, run, steps) && i < |run|
    ensures IsFifo(Outputs(run, steps, i), Fetched(steps, i), run[i].sendQueue)
  {
    hide Enabled, Apply, PutBy, Init, IsFifo;
    NothingQueued<Output>();
    if i == 0 {
      FirstIsEmpty(c, run[0]);
    } else {
      SendQueueIsFifo(c, run, steps, i - 1);
      var put, taken, queue := Outputs(run, steps, i - 1), Fetched(steps, i - 1), run[i - 1].sendQueue;
      assert Moves(c, run[i - 1], steps[i - 1], run[i]);
      hide IsRun;
      SendQueueStep(c, run[i - 1], steps[i - 1]);
      FifoStep(put, taken, queue, PutBy(run[i - 1], steps[i - 1]), steps[i - 1] == BySender(Take));
    }
  }

  lemma FirstIsEmpty(c: Config, s: State)
    requires Init(c, s)
    ensures s.sendQueue == [] && s.replies == [] && s.sender == AtLoop
  {
  }

  /** The results among some outputs, in order. */
  ghost function ResultsAmong(outputs: seq<Output>): seq<nat> {
    if outputs == [] then []
    else ResultsAmong(outputs[..|outputs| - 1]) + JobOf(outputs[|outputs| - 1])
  }

  ghost function JobOf(o: Output): seq<nat> {
    if o.Result? then [o.job] else []
  }

  /** The replies are `sent`, but for the one the sender still holds or has failed to send. */
  ghost predicate RepliesFollow(s: State, sent: seq<nat>) {
    match s.sender
    case Sending(j) => sent == s.replies + [j]
    case Halted => s.replies <= sent && |sent| <= |s.replies| + 1
    case _ => sent == s.replies
  }

  lemma RepliesStep(c: Config, s: State, step: Step, sent: seq<nat>)
    requires Enabled(c, s, step) && RepliesFollow(s, sent)
    ensures step == BySender(Take) ==> s.sendQueue != []
    ensures RepliesFollow(Apply(c, s, step), if step == BySender(Take) then sent + JobOf(s.sendQueue[0]) else sent)
  {
    assert sent + [] == sent;
    hide ReceiverEnabled, WorkerEnabled, Drained;
  }

  lemma OneResultMore(outputs: seq<Output>, o: Output)
    ensures ResultsAmong(outputs + [o]) == ResultsAmong(outputs) + JobOf(o)
  {
    assert (outputs + [o])[..|outputs|] == outputs;
  }

  /** Replies are sent in the order in which the results were put. */
  lemma {:induction false} RepliesKeepOrder(c: Config, run: seq<State>, steps: seq<Step>, i: nat)
    requires IsRun(c, run, steps) && i < |run|
    ensures IsFifo(Outputs(run, steps, i), Fetched(steps, i), run[i].sendQueue)
    ensures RepliesFollow(run[i], ResultsAmong(Outputs(run, steps, i)[..Fetched(steps, i)]))
  {
    SendQueueIsFifo(c, run, steps, i);
    hide Enabled, Apply, PutBy, Init, JobOf;
    if i == 0 {
      FirstIsEmpty(c, run[0]);
    } else {
      RepliesKeepOrder(c, run, steps, i - 1);
      var put, taken, queue := Outputs(run, steps, i - 1), Fetched(steps, i - 1), run[i - 1].sendQueue;
      assert Moves(c, run[i - 1], steps[i - 1], run[i]);
      RepliesStep(c, run[i - 1], steps[i - 1], ResultsAmong(put[..taken]));
      FifoPut(put, taken, queue, PutBy(run[i - 1], steps[i - 1]));
      if steps[i - 1] == BySender(Take) {
        SendQueueStep(c, run[i - 1], steps[i - 1]);
        assert put + [] == put;
        FifoTake(put, taken, queue);
        OneResultMore(put[..taken], queue[0]);
      }
      hide IsRun, RepliesFollow, ResultsAmong, IsFifo;
    }
  }
}
