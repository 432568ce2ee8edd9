/** nodes/stream_server.py: what runs of the server pipeline can do and always can still do. */
module ServerRuns {
  import opened Common
  import opened ServerPipeline

  ghost predicate ReachedBy(c: Config, steps: seq<Step>, s: State) {
    exists run :: IsRun(c, run, steps) && run[|steps|] == s
  }

  lemma Then(c: Config, steps: seq<Step>, s: State, step: Step) returns (further: seq<Step>, t: State)
    requires ReachedBy(c, steps, s) && Enabled(c, s, step)
    ensures t == Apply(c, s, step) && ReachedBy(c, further, t) && further == steps + [step]
  {
    hide Init, Enabled, Apply;
    var run :| IsRun(c, run, steps) && run[|steps|] == s;
    further, t := steps + [step], Apply(c, s, step);
    var longer := run + [t];
    assert longer[0] == run[0];
    forall i | 0 <= i < |further| ensures Moves(c, longer[i], further[i], longer[i + 1]) {
      if i < |steps| {
        assert Moves(c, run[i], steps[i], run[i + 1]);
      }
    }
    assert IsRun(c, longer, further) && longer[|further|] == t;
  }

  // ---- Every worker gets its sentinel ----

  ghost predicate GaveUp(workers: seq<Worker>) {
    exists i :: 0 <= i < |workers| && (workers[i] == Failing || workers[i] == Worker.Halted)
  }

  /** Sentinels still owed, in the queue, with a worker and passed on: one for each worker, from the end
      of the receive loop on, unless a worker has given up and drained the queue. */
  ghost predicate OwedInv(c: Config, s: State) {
    var taken := Count(s.workers, Finishing) + Count(s.workers, Finished);
    && |s.workers| == c.workers
    && (s.receiver.Signalling? && !GaveUp(s.workers) ==>
          s.receiver.left + Count(s.decodeQueue, None) + taken == c.workers)
    && (!s.receiver.Signalling? ==> Count(s.decodeQueue, None) + taken == 0)
    && (s.sender == AllCounted <==> s.finished >= c.workers)
  }

  lemma OwedReceiver(c: Config, s: State, step: ReceiverStep)
    requires OwedInv(c, s) && ReceiverEnabled(c, s, step)
    ensures OwedInv(c, ReceiverApply(c, s, step))
  {
    hide GaveUp, Count;
    match step
    case Enqueue => CountAppend(s.decodeQueue, Some(s.receiver.job), None);
    case PutSentinel => CountAppend(s.decodeQueue, None, None);
    case _ =>
  }

  lemma GivenUpStays(c: Config, s: State, i: nat, step: WorkerStep)
    requires WorkerEnabled(c, s, i, step)
    ensures GaveUp(s.workers) ==> GaveUp(WorkerApply(c, s, i, step).workers)
    ensures step.Discard? || step.PutFailure? || step.RaiseStop? || step.Quit? ==>
              GaveUp(WorkerApply(c, s, i, step).workers)
  {
    var t := WorkerApply(c, s, i, step);
    assert |t.workers| == |s.workers| && forall k :: 0 <= k < |s.workers| && k != i ==> t.workers[k] == s.workers[k];
    assert s.workers[i] == Failing || s.workers[i] == Worker.Halted ==> t.workers[i] == Worker.Halted;
    assert step.Discard? || step.PutFailure? || step.RaiseStop? || step.Quit? ==>
        t.workers[i] == Failing || t.workers[i] == Worker.Halted;
    hide WorkerApply, WorkerEnabled;
    if GaveUp(s.workers) {
      var k :| 0 <= k < |s.workers| && (s.workers[k] == Failing || s.workers[k] == Worker.Halted);
      assert t.workers[k] == Failing || t.workers[k] == Worker.Halted;
    }
  }

  lemma DrainedIsEmpty(s: State)
    ensures var t := Drained(s);
            && Count(t.decodeQueue, None) == 0
            && t.workers == s.workers && t.receiver == s.receiver && t.sender == s.sender && t.finished == s.finished
  {
  }

  lemma OwedWorker(c: Config, s: State, i: nat, step: WorkerStep)
    requires OwedInv(c, s) && WorkerEnabled(c, s, i, step)
    ensures OwedInv(c, WorkerApply(c, s, i, step))
  {
    hide GaveUp, Count, Drained;
    DrainedIsEmpty(s.(workers := s.workers[i := Worker.Halted], stop := true));
    DrainedIsEmpty(s.(workers := s.workers[i := Worker.Halted]));
    var t := WorkerApply(c, s, i, step);
    GivenUpStays(c, s, i, step);
    CountUpdate(s.workers, i, t.workers[i], Finishing);
    CountUpdate(s.workers, i, t.workers[i], Finished);
    if step == Get {
      CountTail(s.decodeQueue, None);
    }
  }

  lemma OwedStep(c: Config, s: State, step: Step)
    requires OwedInv(c, s) && Enabled(c, s, step)
    ensures OwedInv(c, Apply(c, s, step))
  {
    hide ReceiverApply, WorkerApply, ReceiverEnabled, WorkerEnabled, OwedInv;
    match step
    case ByReceiver(x) => OwedReceiver(c, s, x);
    case ByWorker(i, x) => OwedWorker(c, s, i, x);
    case BySender(x) => OwedSender(c, s, x);
  }

  lemma OwedSender(c: Config, s: State, step: SenderStep)
    requires OwedInv(c, s) && SenderEnabled(c, s, step)
    ensures OwedInv(c, SenderApply(c, s, step))
  {
    hide GaveUp, Count;
  }

  lemma OwedAtFirst(c: Config, s: State)
    requires c.workers > 0 && Init(c, s)
    ensures OwedInv(c, s)
  {
    CountNone(s.workers, Finishing);
    CountNone(s.workers, Finished);
    CountNone(s.decodeQueue, None);
  }

  /** In every run, from the end of the receive loop on, while no worker has given up: sentinels owed,
      queued, taken and passed on are as many as there are workers. */
  lemma {:induction false} OneSentinelForEachWorker(c: Config, run: seq<State>, steps: seq<Step>, i: nat)
    requires c.workers > 0 && IsRun(c, run, steps) && i < |run|
    ensures OwedInv(c, run[i])
  {
    hide OwedInv, Enabled, Apply, Init;
    if i == 0 {
      OwedAtFirst(c, run[0]);
    } else {
      OneSentinelForEachWorker(c, run, steps, i - 1);
      assert Moves(c, run[i - 1], steps[i - 1], run[i]);
      OwedStep(c, run[i - 1], steps[i - 1]);
    }
  }

  lemma ReachedKeepsInv(c: Config, steps: seq<Step>, s: State)
    requires c.workers > 0 && ReachedBy(c, steps, s)
    ensures Inv(c, s) && OwedInv(c, s)
  {
    hide Inv, OwedInv;
    var run :| IsRun(c, run, steps) && run[|steps|] == s;
    RunKeepsInv(c, run, steps, |steps|);
    OneSentinelForEachWorker(c, run, steps, |steps|);
  }

  // ---- No deadlock: a session in which nothing has failed can always be brought to its end ----

  ghost predicate Healthy(s: State) {
    !s.stop && !Broken(s)
  }

  function Work(w: Worker): nat {
    if w.Decoding? || w == Finishing then 4 else 0
  }

  function WorkOf(workers: seq<Worker>): nat {
    if workers == [] then 0 else Work(workers[0]) + WorkOf(workers[1..])
  }

  lemma {:induction false} WorkUpdate(workers: seq<Worker>, i: nat, w: Worker)
    requires i < |workers|
    ensures WorkOf(workers[i := w]) + Work(workers[i]) == WorkOf(workers) + Work(w)
  {
    if i == 0 {
      assert workers[0 := w][1..] == workers[1..];
    } else {
      WorkUpdate(workers[1..], i - 1, w);
      assert workers[i := w][1..] == workers[1..][i - 1 := w];
    }
  }

  /** What is left to do when no more jobs come. */
  function Measure(c: Config, s: State): nat {
    (match s.receiver
     case Receiving => 6 * c.workers + 1
     case Queueing(_) => 6 * c.workers + 7
     case Signalling(left) => 6 * left)
    + 5 * |s.decodeQueue| + WorkOf(s.workers) + 3 * |s.sendQueue|
    + (match s.sender case AtLoop => 1 case Sending(_) => 2 case _ => 0)
  }

  /** `x` brings a healthy session nearer to its end, and takes no new job. */
  ghost predicate Advances(c: Config, s: State, x: Step) {
    && Enabled(c, s, x)
    && var t := Apply(c, s, x);
       && Healthy(t) && Measure(c, t) < Measure(c, s) && t.nextJob == s.nextJob
       && (s.receiver.Queueing? ==> t.receiver == s.receiver || t.receiver == Receiving)
  }

  lemma SenderAdvances(c: Config, s: State) returns (x: Step)
    requires Inv(c, s) && Healthy(s) && s.sender != AllCounted && (s.sender == Getting ==> s.sendQueue != [])
    ensures Advances(c, s, x)
  {
    x := BySender(if s.sender == AtLoop then Loop else if s.sender.Sending? then Reply else Take);
    assert s.sender == Getting ==> !s.sendQueue[0].Failure?;
    assert Apply(c, s, x).workers == s.workers;
    hide Inv, WorkOf;
  }

  lemma SameHealth(s: State, t: State, i: nat)
    requires Healthy(s) && t.sender == s.sender && !t.stop
    requires i < |s.workers| == |t.workers| && t.workers[i] != Failing && t.workers[i] != Worker.Halted
    requires forall k :: 0 <= k < |s.workers| && k != i ==> t.workers[k] == s.workers[k]
    ensures Healthy(t)
  {
  }

  lemma WorkerAdvances(c: Config, s: State, i: nat) returns (x: Step)
    requires c.queueBound > 0 && Healthy(s) && s.sendQueue == [] && i < |s.workers|
    requires s.workers[i].Decoding? || s.workers[i] == Finishing || (s.workers[i] == Idle && s.decodeQueue != [])
    ensures Advances(c, s, x)
  {
    x := ByWorker(i, if s.workers[i].Decoding? then PutResult else if s.workers[i] == Finishing then Finish else Get);
    var t := Apply(c, s, x);
    WorkUpdate(s.workers, i, t.workers[i]);
    SameHealth(s, t, i);
    hide Healthy, WorkOf;
  }

  lemma ReceiverAdvances(c: Config, s: State) returns (x: Step)
    requires c.queueBound > 0 && Healthy(s) && s.decodeQueue == [] && (s.receiver.Signalling? ==> s.receiver.left > 0)
    ensures Advances(c, s, x)
  {
    x := ByReceiver(
      match s.receiver case Receiving => Ends case Queueing(_) => Enqueue case Signalling(_) => PutSentinel);
    assert Apply(c, s, x).workers == s.workers && Apply(c, s, x).sender == s.sender;
    hide WorkOf;
  }

  /** All workers finished, with nothing left for the sender: then it has counted them all. */
  lemma NobodyWaits(c: Config, s: State)
    requires c.workers > 0 && Inv(c, s) && OwedInv(c, s) && !Broken(s) && s.sendQueue == []
    requires forall i :: 0 <= i < |s.workers| ==> s.workers[i] == Finished
    ensures s.sender == AllCounted
  {
    CountAll(s.workers, Finished);
    CountNone(s.sendQueue, End);
  }

  lemma {:induction false} CountAll<T>(s: seq<T>, x: T)
    requires forall i :: 0 <= i < |s| ==> s[i] == x
    ensures Count(s, x) == |s|
  {
    if s != [] {
      CountTail(s, x);
      CountAll(s[1..], x);
    }
  }

  /** All workers idle or finished, some idle, and the queue empty: the receiver still has something to
      put. */
  lemma ReceiverOwes(c: Config, s: State, idle: nat)
    requires Inv(c, s) && OwedInv(c, s) && !Broken(s) && s.decodeQueue == []
    requires idle < |s.workers| && s.workers[idle] == Idle
    requires forall i :: 0 <= i < |s.workers| ==> s.workers[i] == Idle || s.workers[i] == Finished
    ensures s.receiver.Signalling? ==> s.receiver.left > 0
  {
    CountNone(s.workers, Finishing);
    CountNone(s.decodeQueue, None);
    CountIsBounded(s.workers, Finished);
    assert !GaveUp(s.workers);
  }

  /** In a healthy session some coroutine can always go on. */
  lemma NoDeadlock(c: Config, s: State) returns (x: Step)
    requires c.workers > 0 && c.queueBound > 0 && Inv(c, s) && OwedInv(c, s)
    requires Healthy(s) && s.sender != AllCounted
    ensures Advances(c, s, x)
  {
    assert |s.workers| == c.workers;
    hide Advances, Inv, OwedInv, Measure;
    if s.sender != Getting || s.sendQueue != [] {
      x := SenderAdvances(c, s);
    } else if i :| 0 <= i < |s.workers| && (s.workers[i].Decoding? || s.workers[i] == Finishing) {
      x := WorkerAdvances(c, s, i);
    } else {
      assert forall i :: 0 <= i < |s.workers| ==> s.workers[i] == Idle || s.workers[i] == Finished;
      if i :| 0 <= i < |s.workers| && s.workers[i] == Idle {
        if s.decodeQueue != [] {
          x := WorkerAdvances(c, s, i);
        } else {
          ReceiverOwes(c, s, i);
          x := ReceiverAdvances(c, s);
        }
      } else {
        NobodyWaits(c, s);
      }
    }
  }

  /** From every state of every run in which nothing has failed and the stop event is not set, for any
      number of workers and any queue bound, the run can go on until the sender has counted all
      sentinels, without a new job: no interleaving leads into a deadlock. */
  lemma {:induction false} TheEndStaysReachable(c: Config, steps: seq<Step>, s: State)
    returns (further: seq<Step>, t: State)
    requires c.workers > 0 && c.queueBound > 0 && ReachedBy(c, steps, s) && Healthy(s)
    ensures ReachedBy(c, further, t) && steps <= further
    ensures t.sender == AllCounted && t.nextJob == s.nextJob
    decreases Measure(c, s)
  {
    hide ReachedBy, Inv, OwedInv, Healthy, Measure, Enabled, Apply;
    ReachedKeepsInv(c, steps, s);
    if s.sender == AllCounted {
      further, t := steps, s;
    } else {
      var x := NoDeadlock(c, s);
      further, t := Then(c, steps, s, x);
      further, t := TheEndStaysReachable(c, further, t);
    }
  }

  /** A job that is acknowledged can always be queued. */
  lemma {:induction false} JobGetsThrough(c: Config, steps: seq<Step>, s: State)
    returns (further: seq<Step>, t: State)
    requires c.workers > 0 && c.queueBound > 0 && ReachedBy(c, steps, s) && Healthy(s) && !s.receiver.Signalling?
    ensures ReachedBy(c, further, t) && Healthy(t) && t.receiver == Receiving && t.nextJob == s.nextJob
    decreases Measure(c, s)
  {
    hide ReachedBy, Inv, Healthy, Measure, Enabled, Apply;
    ReachedKeepsInv(c, steps, s);
    if s.receiver == Receiving {
      further, t := steps, s;
    } else {
      NotYetCounted(c, s);
      hide OwedInv;
      var x := NoDeadlock(c, s);
      further, t := Then(c, steps, s, x);
      further, t := JobGetsThrough(c, further, t);
    }
  }

  lemma NotYetCounted(c: Config, s: State)
    requires c.workers > 0 && Inv(c, s) && OwedInv(c, s) && !s.receiver.Signalling?
    ensures s.sender != AllCounted
  {
  }

  lemma {:induction false} SeveralJobs(c: Config, n: nat) returns (steps: seq<Step>, s: State)
    requires c.workers > 0 && c.queueBound > 0
    ensures ReachedBy(c, steps, s) && Healthy(s) && s.receiver == Receiving && s.nextJob == n
  {
    if n == 0 {
      steps, s := [], State(false, Receiving, 0, [], seq(c.workers, _ => Idle), [], AtLoop, 0, [], map[]);
      assert IsRun(c, [s], steps) && [s][|steps|] == s;
    } else {
      hide ReachedBy, Healthy;
      steps, s := SeveralJobs(c, n - 1);
      var was := s;
      steps, s := Then(c, steps, s, ByReceiver(Acknowledge));
      assert Healthy(s) by {
        StillHealthy(was, s);
      }
      steps, s := JobGetsThrough(c, steps, s);
    }
  }

  lemma StillHealthy(s: State, t: State)
    requires Healthy(s) && t.stop == s.stop && t.workers == s.workers && t.sender == s.sender
    ensures Healthy(t)
  {
  }

  /** For any number of workers, any queue bound and any number of jobs a session can end with all
      sentinels counted, every job replied to once and nothing else. */
  lemma AllCountedIsReached(c: Config, n: nat) returns (steps: seq<Step>, s: State)
    requires c.workers > 0 && c.queueBound > 0
    ensures ReachedBy(c, steps, s) && s.sender == AllCounted && s.nextJob == n
    ensures forall j: nat :: Count(s.replies, j) == One(j < n)
  {
    hide Healthy;
    steps, s := SeveralJobs(c, n);
    steps, s := TheEndStaysReachable(c, steps, s);
    var run :| IsRun(c, run, steps) && run[|steps|] == s;
    EveryAcknowledgedJobIsRepliedOnce(c, run, steps, |steps|);
    AcknowledgedJobs(c, run, steps, |steps|);
  }

  // ---- After the stop event every coroutine can end, where there is room for the sentinels ----

  predicate HasEnded(w: Worker) {
    w == Finished || w == Worker.Halted
  }

  lemma SenderEnds(c: Config, steps: seq<Step>, s: State) returns (further: seq<Step>, t: State)
    requires ReachedBy(c, steps, s) && s.stop
    ensures ReachedBy(c, further, t) && steps <= further && t.stop && t.sender in {Sender.Halted, AllCounted}
    ensures t.receiver == s.receiver && t.decodeQueue == s.decodeQueue
    ensures t.workers == s.workers && t.sendQueue == s.sendQueue
  {
    hide ReachedBy;
    further, t := steps, s;
    match t.sender
    case AtLoop => further, t := Then(c, further, t, BySender(Loop));
    case Getting => further, t := Then(c, further, t, BySender(GiveUp));
    case Sending(_) => further, t := Then(c, further, t, BySender(ReplyFails));
    case SendingError => further, t := Then(c, further, t, BySender(ErrorSent));
    case _ =>
  }

  lemma WorkerEnds(c: Config, steps: seq<Step>, s: State, i: nat) returns (further: seq<Step>, t: State)
    requires ReachedBy(c, steps, s) && s.stop && i < |s.workers|
    requires s.workers[i] == Finishing ==> |s.sendQueue| < c.queueBound
    ensures ReachedBy(c, further, t) && steps <= further && t.stop && t.sender == s.sender && t.receiver == s.receiver
    ensures |t.decodeQueue| <= |s.decodeQueue|
    ensures |t.workers| == |s.workers| && HasEnded(t.workers[i]) && t.workers == s.workers[i := t.workers[i]]
    ensures |t.sendQueue| == |s.sendQueue| + One(s.workers[i] == Finishing)
  {
    hide ReachedBy;
    match s.workers[i]
    case Idle => further, t := Then(c, steps, s, ByWorker(i, Quit(false)));
    case Decoding(_) => further, t := Then(c, steps, s, ByWorker(i, Discard));
    case Finishing => further, t := Then(c, steps, s, ByWorker(i, Finish));
    case Failing => further, t := Then(c, steps, s, ByWorker(i, RaiseStop));
    case _ => further, t := steps, s;
  }

  lemma {:induction false} FirstWorkersEnd(c: Config, steps: seq<Step>, s: State, n: nat)
    returns (further: seq<Step>, t: State)
    requires ReachedBy(c, steps, s) && s.stop && n <= |s.workers|
    requires |s.sendQueue| + Count(s.workers, Finishing) <= c.queueBound
    ensures ReachedBy(c, further, t) && steps <= further && t.stop && t.sender == s.sender && t.receiver == s.receiver
    ensures |t.decodeQueue| <= |s.decodeQueue|
    ensures |t.workers| == |s.workers| && forall k :: 0 <= k < n ==> HasEnded(t.workers[k])
    ensures |t.sendQueue| + Count(t.workers, Finishing) <= c.queueBound
  {
    hide ReachedBy, Count;
    if n == 0 {
      further, t := steps, s;
    } else {
      further, t := FirstWorkersEnd(c, steps, s, n - 1);
      var before := t;
      LastIsCounted(before.workers, Finishing);
      further, t := WorkerEnds(c, further, t, n - 1);
      CountUpdate(before.workers, n - 1, t.workers[n - 1], Finishing);
    }
  }

  function Owed(c: Config, s: State): nat {
    if s.receiver.Signalling? then s.receiver.left else c.workers
  }

  lemma {:induction false} ReceiverEnds(c: Config, steps: seq<Step>, s: State) returns (further: seq<Step>, t: State)
    requires ReachedBy(c, steps, s) && s.stop && |s.decodeQueue| + Owed(c, s) <= c.queueBound
    ensures ReachedBy(c, further, t) && steps <= further && t.receiver == Signalling(0)
    ensures t.sender == s.sender && t.workers == s.workers
    decreases if s.receiver.Signalling? then 0 else 1, Owed(c, s)
  {
    hide ReachedBy;
    if s.receiver == Signalling(0) {
      further, t := steps, s;
    } else {
      var x := match s.receiver case Receiving => Ends case Queueing(_) => Refused case Signalling(_) => PutSentinel;
      further, t := Then(c, steps, s, ByReceiver(x));
      further, t := ReceiverEnds(c, further, t);
    }
  }

  /** From every state of every run with the stop event set, whatever has failed, the run can go on until
      receive loop, workers and send loop have all ended, if the send queue has room for the sentinels that
      workers hold and the decode queue for those still owed. */
  lemma ShutdownStaysReachable(c: Config, steps: seq<Step>, s: State) returns (further: seq<Step>, t: State)
    requires ReachedBy(c, steps, s) && s.stop
    requires |s.sendQueue| + Count(s.workers, Finishing) <= c.queueBound
    requires |s.decodeQueue| + Owed(c, s) <= c.queueBound
    ensures ReachedBy(c, further, t) && steps <= further
    ensures t.sender in {Sender.Halted, AllCounted} && t.receiver == Signalling(0)
    ensures forall k :: 0 <= k < |t.workers| ==> HasEnded(t.workers[k])
  {
    hide ReachedBy, Count;
    further, t := SenderEnds(c, steps, s);
    further, t := FirstWorkersEnd(c, further, t, |t.workers|);
    further, t := ReceiverEnds(c, further, t);
  }

  lemma StuckStep(c: Config, s: State, step: Step, w: nat)
    requires s.sender == Sender.Halted && |s.sendQueue| >= c.queueBound && w < |s.workers| && s.workers[w] == Finishing
    requires Enabled(c, s, step)
    ensures var t := Apply(c, s, step);
            && t.sender == Sender.Halted && |t.sendQueue| >= c.queueBound
            && |t.workers| == |s.workers| && t.workers[w] == Finishing
  {
  }

  /** The room is needed: once the send loop has ended early and the send queue is full, a worker with its
      sentinel waits for ever. */
  lemma {:induction false} SentinelIsStuck(c: Config, run: seq<State>, steps: seq<Step>, i: nat, k: nat, w: nat)
    requires IsRun(c, run, steps) && i <= k < |run|
    requires run[i].sender == Sender.Halted && |run[i].sendQueue| >= c.queueBound
    requires w < |run[i].workers| && run[i].workers[w] == Finishing
    ensures run[k].sender == Sender.Halted && |run[k].sendQueue| >= c.queueBound
    ensures w < |run[k].workers| && run[k].workers[w] == Finishing
  {
    hide Enabled, Apply, Init;
    if i < k {
      SentinelIsStuck(c, run, steps, i, k - 1, w);
      assert Moves(c, run[k - 1], steps[k - 1], run[k]);
      StuckStep(c, run[k - 1], steps[k - 1], w);
    }
  }

  // ---- What can go wrong with a job ----

  /** A job can fail to decode: then the error is sent instead of a reply, and the stop event is set. */
  lemma DecodeErrorIsReported(c: Config, steps: seq<Step>, s: State, i: nat) returns (further: seq<Step>, t: State)
    requires ReachedBy(c, steps, s) && i < |s.workers| && s.workers[i].Decoding?
    requires c.queueBound > 0 && s.sender == Getting && s.sendQueue == []
    ensures ReachedBy(c, further, t) && further == steps + [ByWorker(i, PutFailure(true)), BySender(Take), BySender(ErrorSent)]
    ensures t.stop && t.sender == Sender.Halted && t.replies == s.replies
  {
    hide ReachedBy;
    further, t := Then(c, steps, s, ByWorker(i, PutFailure(true)));
    assert t.sendQueue == [Failure(s.workers[i].job)];
    further, t := Then(c, further, t, BySender(Take));
    further, t := Then(c, further, t, BySender(ErrorSent));
  }

  /** Receiving can fail: the stop event is set and every worker still gets its sentinel. */
  lemma ReceiveCanFail(c: Config, steps: seq<Step>, s: State) returns (further: seq<Step>, t: State)
    requires ReachedBy(c, steps, s) && s.receiver == Receiving
    ensures ReachedBy(c, further, t) && t == s.(receiver := Signalling(c.workers), stop := true)
  {
    hide ReachedBy;
    further, t := Then(c, steps, s, ByReceiver(ReceiverStep.Fails));
  }
}
