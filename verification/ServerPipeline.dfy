/** nodes/stream_server.py: receive loop, decode workers and send loop as one transition system over
    two bounded FIFO queues. Steps of different coroutines interleave in any order. */
module ServerPipeline {
  import opened Common

  datatype Config = Config(workers: nat, queueBound: nat)

  /** `Queueing(j)`: job `j` is acknowledged and waits for room in the decode queue. `Signalling(n)`:
      the receive loop is over and `n` sentinels are still to be put behind its jobs. */
  datatype Receiver = Receiving | Queueing(job: nat) | Signalling(left: nat)

  /** `Failing`: a decode error is queued and the worker is about to raise the stop event. */
  datatype Worker = Idle | Decoding(job: nat) | Finishing | Finished | Failing | Halted

  datatype Sender = AtLoop | Getting | Sending(job: nat) | SendingError | AllCounted | Halted

  datatype Output = Result(job: nat) | Failure(job: nat) | End

  /** Where an acknowledged job is; recorded for the proof, read by no step. */
  datatype Place = WithReceiver | InDecode | WithWorker(worker: nat) | InSend | WithSender | Replied | Lost

  datatype State = State(
    stop: bool, receiver: Receiver, nextJob: nat,
    decodeQueue: seq<Option<nat>>, workers: seq<Worker>, sendQueue: seq<Output>,
    sender: Sender, finished: nat, replies: seq<nat>, place: map<nat, Place>)

  ghost predicate Init(c: Config, s: State) {
    && !s.stop && s.receiver == Receiving && s.nextJob == 0
    && s.decodeQueue == [] && s.workers == seq(c.workers, _ => Idle) && s.sendQueue == []
    && s.sender == AtLoop && s.finished == 0 && s.replies == [] && s.place == map[]
  }

  // ---- Receive loop, and `handle_connection` behind it ----

  /** `Acknowledge` sends the ACK of a new job; `Refused` is the stop event winning over the queue. */
  datatype ReceiverStep = Acknowledge | Enqueue | Refused | Ends | Fails | PutSentinel

  predicate ReceiverEnabled(c: Config, s: State, step: ReceiverStep) {
    match step
    case Acknowledge => s.receiver == Receiving
    case Enqueue => s.receiver.Queueing? && |s.decodeQueue| < c.queueBound
    case Refused => s.receiver.Queueing? && s.stop
    case Ends => s.receiver == Receiving
    case Fails => s.receiver == Receiving
    case PutSentinel => s.receiver.Signalling? && s.receiver.left > 0 && |s.decodeQueue| < c.queueBound
  }

  function ReceiverApply(c: Config, s: State, step: ReceiverStep): State
    requires ReceiverEnabled(c, s, step)
  {
    match step
    case Acknowledge =>
      s.(receiver := Queueing(s.nextJob), nextJob := s.nextJob + 1, place := s.place[s.nextJob := WithReceiver])
    case Enqueue =>
      s.(decodeQueue := s.decodeQueue + [Some(s.receiver.job)], receiver := Receiving,
         place := s.place[s.receiver.job := InDecode])
    case Refused =>
      s.(receiver := Signalling(c.workers), place := s.place[s.receiver.job := Lost])
    case Ends => s.(receiver := Signalling(c.workers))
    case Fails => s.(receiver := Signalling(c.workers), stop := true)
    case PutSentinel =>
      s.(decodeQueue := s.decodeQueue + [None], receiver := Signalling(s.receiver.left - 1))
  }

  // ---- A decode worker ----

  /** `PutFailure` reports a decode error, or not when the stop event is set; `Quit` is a worker that saw
      the stop event, draining the decode queue or not. */
  datatype WorkerStep = Get | PutResult | Discard | PutFailure(puts: bool) | RaiseStop | Quit(drains: bool) | Finish

  predicate WorkerEnabled(c: Config, s: State, i: nat, step: WorkerStep) {
    && i < |s.workers|
    && match step
       case Get => s.workers[i] == Idle && s.decodeQueue != []
       case PutResult => s.workers[i].Decoding? && |s.sendQueue| < c.queueBound
       case Discard => s.workers[i].Decoding? && s.stop
       case PutFailure(puts) => s.workers[i].Decoding? && if puts then |s.sendQueue| < c.queueBound else s.stop
       case RaiseStop => s.workers[i] == Failing
       case Quit(_) => s.workers[i] == Idle && s.stop
       case Finish => s.workers[i] == Finishing && |s.sendQueue| < c.queueBound
  }

  /** The queued jobs are taken out and never decoded. */
  function Drained(s: State): State {
    s.(decodeQueue := [], place := map j | j in s.place :: if s.place[j] == InDecode then Lost else s.place[j])
  }

  function WorkerApply(c: Config, s: State, i: nat, step: WorkerStep): State
    requires WorkerEnabled(c, s, i, step)
  {
    match step
    case Get =>
      if s.decodeQueue[0].Some? then
        var j := s.decodeQueue[0].value;
        s.(decodeQueue := s.decodeQueue[1..], workers := s.workers[i := Decoding(j)], place := s.place[j := WithWorker(i)])
      else s.(decodeQueue := s.decodeQueue[1..], workers := s.workers[i := Finishing])
    case PutResult =>
      var j := s.workers[i].job;
      s.(sendQueue := s.sendQueue + [Result(j)], workers := s.workers[i := Idle], place := s.place[j := InSend])
    case Discard =>
      s.(workers := s.workers[i := Worker.Halted], place := s.place[s.workers[i].job := Lost])
    case PutFailure(puts) =>
      var j := s.workers[i].job;
      s.(sendQueue := if puts then s.sendQueue + [Failure(j)] else s.sendQueue,
         workers := s.workers[i := Failing], place := s.place[j := Lost])
    case RaiseStop => Drained(s.(workers := s.workers[i := Worker.Halted], stop := true))
    case Quit(drains) =>
      var t := s.(workers := s.workers[i := Worker.Halted]);
      if drains then Drained(t) else t
    case Finish => s.(sendQueue := s.sendQueue + [End], workers := s.workers[i := Finished])
  }

  // ---- Send loop ----

  /** `Raises` is an exception outside the send loop's handler: nothing is sent, the stop event is left. */
  datatype SenderStep = Loop | Take | GiveUp | Reply | ReplyFails | ErrorSent | Raises

  predicate SenderEnabled(c: Config, s: State, step: SenderStep) {
    match step
    case Loop => s.sender == AtLoop
    case Take => s.sender == Getting && s.sendQueue != []
    case GiveUp => s.sender == Getting && s.stop
    case Reply => s.sender.Sending?
    case ReplyFails => s.sender.Sending?
    case ErrorSent => s.sender == SendingError
    case Raises => s.sender.Sending? || s.sender == SendingError
  }

  function SenderApply(c: Config, s: State, step: SenderStep): State
    requires SenderEnabled(c, s, step)
  {
    match step
    case Loop => s.(sender := if s.stop then Sender.Halted else Getting)
    case Take =>
      (match s.sendQueue[0]
       case Result(j) =>
         s.(sendQueue := s.sendQueue[1..], sender := Sending(j), place := s.place[j := WithSender])
       case Failure(_) => s.(sendQueue := s.sendQueue[1..], sender := SendingError)
       case End =>
         s.(sendQueue := s.sendQueue[1..], finished := s.finished + 1,
            sender := if s.finished + 1 >= c.workers then AllCounted else AtLoop))
    case GiveUp => s.(sender := Sender.Halted)
    case Reply =>
      s.(replies := s.replies + [s.sender.job], place := s.place[s.sender.job := Replied], sender := AtLoop)
    case ReplyFails => s.(sender := Sender.Halted, stop := true, place := s.place[s.sender.job := Lost])
    case ErrorSent => s.(sender := Sender.Halted, stop := true)
    case Raises =>
      s.(sender := Sender.Halted, place := if s.sender.Sending? then s.place[s.sender.job := Lost] else s.place)
  }

  // ---- All steps ----

  datatype Step = ByReceiver(receive: ReceiverStep) | ByWorker(i: nat, work: WorkerStep) | BySender(send: SenderStep)

  predicate Enabled(c: Config, s: State, step: Step) {
    match step
    case ByReceiver(x) => ReceiverEnabled(c, s, x)
    case ByWorker(i, x) => WorkerEnabled(c, s, i, x)
    case BySender(x) => SenderEnabled(c, s, x)
  }

  function Apply(c: Config, s: State, step: Step): State
    requires Enabled(c, s, step)
  {
    match step
    case ByReceiver(x) => ReceiverApply(c, s, x)
    case ByWorker(i, x) => WorkerApply(c, s, i, x)
    case BySender(x) => SenderApply(c, s, x)
  }

  ghost predicate Moves(c: Config, s: State, step: Step, t: State) {
    Enabled(c, s, step) && t == Apply(c, s, step)
  }

  /** States from an initial one to the next by enabled steps: any interleaving whatsoever. */
  ghost predicate IsRun(c: Config, run: seq<State>, steps: seq<Step>) {
    && |run| == |steps| + 1
    && Init(c, run[0])
    && forall i :: 0 <= i < |steps| ==> Moves(c, run[i], steps[i], run[i + 1])
  }

  // ---- Invariant: sentinels come last in both queues ----

  predicate Done(w: Worker) {
    w == Finishing || w == Finished
  }

  ghost predicate Started(workers: seq<Worker>) {
    exists i :: 0 <= i < |workers| && Done(workers[i])
  }

  /** Behind a sentinel come only sentinels; there is none while the receive loop runs; and once a
      worker has taken one, no job is left in the decode queue. */
  ghost predicate SentinelInv(c: Config, s: State) {
    && |s.workers| == c.workers
    && (forall i, j :: 0 <= i < j < |s.decodeQueue| && s.decodeQueue[i] == None ==> s.decodeQueue[j] == None)
    && (!s.receiver.Signalling? ==> !Started(s.workers) && None !in s.decodeQueue)
    && (Started(s.workers) ==> forall i :: 0 <= i < |s.decodeQueue| ==> s.decodeQueue[i] == None)
  }

  lemma SentinelReceiver(c: Config, s: State, step: ReceiverStep)
    requires SentinelInv(c, s) && ReceiverEnabled(c, s, step)
    ensures SentinelInv(c, ReceiverApply(c, s, step))
  {
    hide Started;
  }

  lemma SentinelGet(c: Config, s: State, i: nat)
    requires SentinelInv(c, s) && WorkerEnabled(c, s, i, Get)
    ensures SentinelInv(c, WorkerApply(c, s, i, Get))
  {
    var t := WorkerApply(c, s, i, Get);
    assert s.decodeQueue[0] in s.decodeQueue;
    assert forall k :: 0 <= k < |t.decodeQueue| ==> t.decodeQueue[k] == s.decodeQueue[k + 1];
    if Started(t.workers) {
      var k :| 0 <= k < |t.workers| && Done(t.workers[k]);
      assert k != i ==> Done(s.workers[k]);
    }
    hide Started;
  }

  /** No other step of a worker takes a sentinel. */
  lemma SentinelElsewhere(c: Config, s: State, t: State)
    requires SentinelInv(c, s) && |t.workers| == |s.workers| && t.receiver == s.receiver
    requires t.decodeQueue == s.decodeQueue || t.decodeQueue == []
    requires forall k :: 0 <= k < |s.workers| && Done(t.workers[k]) ==> Done(s.workers[k])
    ensures SentinelInv(c, t)
  {
    if Started(t.workers) {
      var k :| 0 <= k < |t.workers| && Done(t.workers[k]);
      assert Done(s.workers[k]);
    }
    hide Started;
  }

  lemma SentinelWorker(c: Config, s: State, i: nat, step: WorkerStep)
    requires SentinelInv(c, s) && WorkerEnabled(c, s, i, step)
    ensures SentinelInv(c, WorkerApply(c, s, i, step))
  {
    hide SentinelInv;
    if step == Get {
      SentinelGet(c, s, i);
    } else {
      SentinelElsewhere(c, s, WorkerApply(c, s, i, step));
    }
  }

  lemma SentinelStep(c: Config, s: State, step: Step)
    requires SentinelInv(c, s) && Enabled(c, s, step)
    ensures SentinelInv(c, Apply(c, s, step))
  {
    match step
    case ByReceiver(x) => SentinelReceiver(c, s, x);
    case ByWorker(i, x) => SentinelWorker(c, s, i, x);
    case BySender(x) => hide SenderEnabled;
  }

  // ---- Invariant: one sentinel for each finished worker ----

  ghost predicate CountInv(c: Config, s: State) {
    && |s.workers| == c.workers
    && s.finished + Count(s.sendQueue, End) == Count(s.workers, Finished)
    && (Count(s.workers, Finished) == c.workers && s.sendQueue != [] ==> s.sendQueue[|s.sendQueue| - 1] == End)
    && (s.sender == AllCounted ==> s.finished >= c.workers)
  }

  lemma CountWorker(c: Config, s: State, i: nat, step: WorkerStep)
    requires CountInv(c, s) && WorkerEnabled(c, s, i, step)
    ensures CountInv(c, WorkerApply(c, s, i, step))
  {
    hide Count;
    var t := WorkerApply(c, s, i, step);
    CountIsBounded(s.workers, Finished);
    CountUpdate(s.workers, i, t.workers[i], Finished);
    match step
    case PutResult => CountAppend(s.sendQueue, Result(s.workers[i].job), End);
    case PutFailure(_) => CountAppend(s.sendQueue, Failure(s.workers[i].job), End);
    case Finish => CountAppend(s.sendQueue, End, End);
    case _ =>
  }

  lemma CountSender(c: Config, s: State, step: SenderStep)
    requires CountInv(c, s) && SenderEnabled(c, s, step)
    ensures CountInv(c, SenderApply(c, s, step))
  {
    hide Count;
    if step == Take {
      CountTail(s.sendQueue, End);
    }
  }

  lemma CountStep(c: Config, s: State, step: Step)
    requires CountInv(c, s) && Enabled(c, s, step)
    ensures CountInv(c, Apply(c, s, step))
  {
    match step
    case ByReceiver(x) => hide Count;
    case ByWorker(i, x) => CountWorker(c, s, i, x);
    case BySender(x) => CountSender(c, s, x);
  }

  // ---- Invariant: something is lost only when the session is broken ----

  ghost predicate Broken(s: State) {
    s.sender in {Sender.Halted, SendingError}
    || exists i :: 0 <= i < |s.workers| && (s.workers[i] == Failing || s.workers[i] == Worker.Halted)
  }

  ghost predicate StopInv(s: State) {
    && (s.stop ==> s.receiver.Signalling? || Broken(s))
    && (forall i :: 0 <= i < |s.sendQueue| && s.sendQueue[i].Failure? ==> Broken(s))
  }

  lemma WorkerStaysBroken(c: Config, s: State, i: nat, step: WorkerStep)
    requires WorkerEnabled(c, s, i, step) && Broken(s)
    ensures Broken(WorkerApply(c, s, i, step))
  {
    var t := WorkerApply(c, s, i, step);
    assert |t.workers| == |s.workers| && t.sender == s.sender;
    assert forall k :: 0 <= k < |s.workers| && k != i ==> t.workers[k] == s.workers[k];
    assert s.workers[i] == Failing || s.workers[i] == Worker.Halted ==> t.workers[i] == Worker.Halted;
    hide WorkerEnabled, WorkerApply;
    if !(s.sender in {Sender.Halted, SendingError}) {
      var k :| 0 <= k < |s.workers| && (s.workers[k] == Failing || s.workers[k] == Worker.Halted);
      assert t.workers[k] == Failing || t.workers[k] == Worker.Halted;
    }
  }

  lemma SenderStaysBroken(c: Config, s: State, step: SenderStep)
    requires SenderEnabled(c, s, step) && Broken(s)
    ensures Broken(SenderApply(c, s, step))
  {
    assert s.sender in {Sender.Halted, SendingError} ==> SenderApply(c, s, step).sender == Sender.Halted;
    assert SenderApply(c, s, step).workers == s.workers;
    hide SenderEnabled, SenderApply;
  }

  lemma StaysBroken(c: Config, s: State, step: Step)
    requires Enabled(c, s, step) && Broken(s)
    ensures Broken(Apply(c, s, step))
  {
    match step
    case ByReceiver(x) =>
      assert ReceiverApply(c, s, x).workers == s.workers && ReceiverApply(c, s, x).sender == s.sender;
      hide ReceiverApply, ReceiverEnabled;
    case ByWorker(i, x) => WorkerStaysBroken(c, s, i, x);
    case BySender(x) => SenderStaysBroken(c, s, x);
  }

  lemma StopReceiver(c: Config, s: State, step: ReceiverStep)
    requires StopInv(s) && ReceiverEnabled(c, s, step)
    ensures StopInv(ReceiverApply(c, s, step))
  {
    assert Broken(ReceiverApply(c, s, step)) == Broken(s);
    hide Broken;
  }

  lemma StopWorker(c: Config, s: State, i: nat, step: WorkerStep)
    requires StopInv(s) && WorkerEnabled(c, s, i, step)
    ensures StopInv(WorkerApply(c, s, i, step))
  {
    var t := WorkerApply(c, s, i, step);
    if Broken(s) {
      WorkerStaysBroken(c, s, i, step);
    }
    assert |t.workers| == |s.workers|;
    assert t.workers[i] == Failing || t.workers[i] == Worker.Halted ==> Broken(t);
    hide Broken;
  }

  lemma StopSender(c: Config, s: State, step: SenderStep)
    requires StopInv(s) && SenderEnabled(c, s, step)
    ensures StopInv(SenderApply(c, s, step))
  {
    var t := SenderApply(c, s, step);
    if Broken(s) {
      SenderStaysBroken(c, s, step);
    }
    assert t.sender == Sender.Halted ==> Broken(t);
    hide Broken;
  }

  lemma StopStep(c: Config, s: State, step: Step)
    requires StopInv(s) && Enabled(c, s, step)
    ensures StopInv(Apply(c, s, step))
  {
    hide StopInv, ReceiverEnabled, WorkerEnabled, SenderEnabled, ReceiverApply, WorkerApply, SenderApply;
    match step
    case ByReceiver(x) => StopReceiver(c, s, x);
    case ByWorker(i, x) => StopWorker(c, s, i, x);
    case BySender(x) => StopSender(c, s, x);
  }

  // ---- Invariant: every acknowledged job is in one place, once ----

  function PlaceOf(s: State, j: nat): Option<Place> {
    if j in s.place then Some(s.place[j]) else None
  }

  /** Job `j` is in the place recorded for it, once, and nowhere else. */
  ghost predicate JobInv(s: State, j: nat) {
    var p := PlaceOf(s, j);
    && (j >= s.nextJob ==> p == None)
    && (s.receiver == Queueing(j) <==> p == Some(WithReceiver))
    && Count(s.decodeQueue, Some(j)) == One(p == Some(InDecode))
    && (forall i :: 0 <= i < |s.workers| && s.workers[i] == Decoding(j) ==> p == Some(WithWorker(i)))
    && (p.Some? && p.value.WithWorker? ==> p.value.worker < |s.workers| && s.workers[p.value.worker] == Decoding(j))
    && Count(s.sendQueue, Result(j)) == One(p == Some(InSend))
    && (s.sender == Sending(j) <==> p == Some(WithSender))
    && Count(s.replies, j) == One(p == Some(Replied))
    && (p == Some(Lost) ==> Broken(s))
  }

  lemma JobAcknowledged(s: State, j: nat)
    requires JobInv(s, j) && s.receiver == Receiving
    ensures JobInv(s.(receiver := Queueing(s.nextJob), nextJob := s.nextJob + 1, place := s.place[s.nextJob := WithReceiver]), j)
  {
    hide Count;
  }

  lemma JobEnqueued(s: State, j: nat)
    requires JobInv(s, j) && s.receiver.Queueing?
    ensures var k := s.receiver.job;
            JobInv(s.(decodeQueue := s.decodeQueue + [Some(k)], receiver := Receiving, place := s.place[k := InDecode]), j)
  {
    CountAppend(s.decodeQueue, Some(s.receiver.job), Some(j));
    hide Count;
  }

  lemma JobRefused(s: State, left: nat, j: nat)
    requires JobInv(s, j) && s.receiver.Queueing? && Broken(s)
    ensures JobInv(s.(receiver := Signalling(left), place := s.place[s.receiver.job := Lost]), j)
  {
    hide Count;
  }

  /** The receiver holds no job, before and after; the decode queue may have got a sentinel. */
  lemma JobWithoutReceiver(s: State, t: State, j: nat)
    requires JobInv(s, j) && !s.receiver.Queueing? && !t.receiver.Queueing?
    requires t == s.(receiver := t.receiver, decodeQueue := t.decodeQueue, stop := t.stop)
    requires Count(t.decodeQueue, Some(j)) == Count(s.decodeQueue, Some(j))
    ensures JobInv(t, j)
  {
    hide Count;
  }

  lemma JobReceiver(c: Config, s: State, step: ReceiverStep, j: nat)
    requires JobInv(s, j) && StopInv(s) && ReceiverEnabled(c, s, step)
    ensures JobInv(ReceiverApply(c, s, step), j)
  {
    hide JobInv, Broken, Count;
    match step
    case Acknowledge => JobAcknowledged(s, j);
    case Enqueue => JobEnqueued(s, j);
    case Refused => JobRefused(s, c.workers, j);
    case PutSentinel =>
      CountAppend(s.decodeQueue, None, Some(j));
      JobWithoutReceiver(s, ReceiverApply(c, s, step), j);
    case _ => JobWithoutReceiver(s, ReceiverApply(c, s, step), j);
  }

  lemma JobTakenByWorker(s: State, i: nat, j: nat)
    requires JobInv(s, j) && i < |s.workers| && s.workers[i] == Idle && s.decodeQueue != [] && s.decodeQueue[0].Some?
    ensures var k := s.decodeQueue[0].value;
            var t := s.(decodeQueue := s.decodeQueue[1..], workers := s.workers[i := Decoding(k)],
                        place := s.place[k := WithWorker(i)]);
            Broken(t) == Broken(s) && JobInv(t, j)
  {
    var k := s.decodeQueue[0].value;
    var workers := s.workers[i := Decoding(k)];
    CountTail(s.decodeQueue, Some(j));
    assert forall m :: 0 <= m < |workers| && m != i ==> workers[m] == s.workers[m];
    assert workers[i] == Decoding(k);
    hide Count;
  }

  lemma JobBesideSentinel(s: State, i: nat, j: nat)
    requires JobInv(s, j) && i < |s.workers| && s.workers[i] == Idle && s.decodeQueue != [] && s.decodeQueue[0] == None
    ensures JobInv(s.(decodeQueue := s.decodeQueue[1..], workers := s.workers[i := Finishing]), j)
  {
    var workers := s.workers[i := Finishing];
    CountTail(s.decodeQueue, Some(j));
    assert forall m :: 0 <= m < |workers| && m != i ==> workers[m] == s.workers[m];
    hide Count;
  }

  lemma JobGet(c: Config, s: State, i: nat, j: nat)
    requires JobInv(s, j) && WorkerEnabled(c, s, i, Get)
    ensures JobInv(WorkerApply(c, s, i, Get), j)
  {
    hide JobInv, Broken;
    if s.decodeQueue[0].Some? {
      JobTakenByWorker(s, i, j);
    } else {
      JobBesideSentinel(s, i, j);
    }
  }

  /** A worker halts, with or without draining the decode queue. */
  lemma JobDrained(s: State, i: nat, stop: bool, drains: bool, j: nat)
    requires JobInv(s, j) && i < |s.workers| && !s.workers[i].Decoding?
    ensures var t := s.(workers := s.workers[i := Worker.Halted], stop := stop);
            JobInv(if drains then Drained(t) else t, j)
  {
    var t := s.(workers := s.workers[i := Worker.Halted], stop := stop);
    assert t.workers[i] == Worker.Halted;
    assert Broken(t) && Broken(Drained(t));
    hide Broken;
    assert Count([], Some(j)) == 0;
  }

  lemma JobPutResult(c: Config, s: State, i: nat, j: nat)
    requires JobInv(s, j) && WorkerEnabled(c, s, i, PutResult)
    ensures JobInv(WorkerApply(c, s, i, PutResult), j)
  {
    CountAppend(s.sendQueue, Result(s.workers[i].job), Result(j));
    if Broken(s) {
      WorkerStaysBroken(c, s, i, PutResult);
    }
    hide Count, Broken;
  }

  /** The worker goes with its job, which is lost; the send queue gets no result of it. */
  lemma JobLost(s: State, t: State, i: nat, w: Worker, j: nat)
    requires JobInv(s, j) && i < |s.workers| && s.workers[i].Decoding? && (w == Worker.Halted || w == Failing)
    requires t == s.(workers := s.workers[i := w], place := s.place[s.workers[i].job := Lost], sendQueue := t.sendQueue)
    requires Count(t.sendQueue, Result(j)) == Count(s.sendQueue, Result(j))
    ensures JobInv(t, j)
  {
    assert t.workers[i] == w;
    assert Broken(t);
    hide Broken, Count;
  }

  lemma JobFinish(c: Config, s: State, i: nat, j: nat)
    requires JobInv(s, j) && WorkerEnabled(c, s, i, Finish)
    ensures JobInv(WorkerApply(c, s, i, Finish), j)
  {
    CountAppend(s.sendQueue, End, Result(j));
    if Broken(s) {
      WorkerStaysBroken(c, s, i, Finish);
    }
    hide Count, Broken;
  }

  lemma JobWorker(c: Config, s: State, i: nat, step: WorkerStep, j: nat)
    requires JobInv(s, j) && WorkerEnabled(c, s, i, step)
    ensures JobInv(WorkerApply(c, s, i, step), j)
  {
    hide JobInv, Count, Drained;
    match step
    case Get => JobGet(c, s, i, j);
    case PutResult => JobPutResult(c, s, i, j);
    case RaiseStop => JobDrained(s, i, true, true, j);
    case Quit(drains) => JobDrained(s, i, s.stop, drains, j);
    case Discard => JobLost(s, WorkerApply(c, s, i, step), i, Worker.Halted, j);
    case PutFailure(_) =>
      CountAppend(s.sendQueue, Failure(s.workers[i].job), Result(j));
      JobLost(s, WorkerApply(c, s, i, step), i, Failing, j);
    case Finish => JobFinish(c, s, i, j);
  }

  lemma JobTaken(c: Config, s: State, j: nat)
    requires JobInv(s, j) && SenderEnabled(c, s, Take) && s.sendQueue[0].Result?
    ensures JobInv(SenderApply(c, s, Take), j)
  {
    CountTail(s.sendQueue, Result(j));
    if Broken(s) {
      SenderStaysBroken(c, s, Take);
    }
    hide Count, Broken;
  }

  /** The sender is at another place that has no job, before and after; the send queue may have lost an
      entry that is no result. */
  lemma JobWithoutSender(s: State, t: State, j: nat)
    requires JobInv(s, j) && !s.sender.Sending? && !t.sender.Sending? && (Broken(s) ==> Broken(t))
    requires t == s.(sender := t.sender, sendQueue := t.sendQueue, finished := t.finished, stop := t.stop)
    requires Count(t.sendQueue, Result(j)) == Count(s.sendQueue, Result(j))
    ensures JobInv(t, j)
  {
    hide Count, Broken;
  }

  lemma JobReplied(c: Config, s: State, j: nat)
    requires JobInv(s, j) && SenderEnabled(c, s, Reply)
    ensures JobInv(SenderApply(c, s, Reply), j)
  {
    CountAppend(s.replies, s.sender.job, j);
    if Broken(s) {
      SenderStaysBroken(c, s, Reply);
    }
    hide Count, Broken;
  }

  lemma JobNotReplied(s: State, stop: bool, j: nat)
    requires JobInv(s, j) && s.sender.Sending?
    ensures JobInv(s.(sender := Sender.Halted, stop := stop, place := s.place[s.sender.job := Lost]), j)
  {
    hide Count;
  }

  lemma JobSender(c: Config, s: State, step: SenderStep, j: nat)
    requires JobInv(s, j) && SenderEnabled(c, s, step)
    ensures JobInv(SenderApply(c, s, step), j)
  {
    hide JobInv, Broken, Count;
    if Broken(s) {
      SenderStaysBroken(c, s, step);
    }
    match step
    case Reply => JobReplied(c, s, j);
    case ReplyFails => JobNotReplied(s, true, j);
    case Raises =>
      if s.sender.Sending? {
        JobNotReplied(s, s.stop, j);
      } else {
        JobWithoutSender(s, SenderApply(c, s, step), j);
      }
    case Take =>
      if s.sendQueue[0].Result? {
        JobTaken(c, s, j);
      } else {
        CountTail(s.sendQueue, Result(j));
        JobWithoutSender(s, SenderApply(c, s, step), j);
      }
    case _ => JobWithoutSender(s, SenderApply(c, s, step), j);
  }

  lemma JobStep(c: Config, s: State, step: Step, j: nat)
    requires JobInv(s, j) && StopInv(s) && Enabled(c, s, step)
    ensures JobInv(Apply(c, s, step), j)
  {
    hide JobInv, StopInv, ReceiverEnabled, WorkerEnabled, SenderEnabled, ReceiverApply, WorkerApply, SenderApply;
    match step
    case ByReceiver(x) => JobReceiver(c, s, x, j);
    case ByWorker(i, x) => JobWorker(c, s, i, x, j);
    case BySender(x) => JobSender(c, s, x, j);
  }

  // ---- Whole runs ----

  ghost predicate Inv(c: Config, s: State) {
    SentinelInv(c, s) && CountInv(c, s) && StopInv(s) && forall j: nat :: JobInv(s, j)
  }

  lemma InitHolds(c: Config, s: State)
    requires c.workers > 0 && Init(c, s)
    ensures Inv(c, s)
  {
    assert forall i :: 0 <= i < |s.workers| ==> s.workers[i] == Idle;
    CountNone(s.workers, Finished);
  }

  lemma StepKeepsInv(c: Config, s: State, step: Step)
    requires Inv(c, s) && Enabled(c, s, step)
    ensures Inv(c, Apply(c, s, step))
  {
    hide SentinelInv, CountInv, StopInv, JobInv, Enabled, Apply;
    SentinelStep(c, s, step);
    CountStep(c, s, step);
    StopStep(c, s, step);
    forall j: nat ensures JobInv(Apply(c, s, step), j) {
      JobStep(c, s, step, j);
    }
  }

  lemma {:induction false} RunKeepsInv(c: Config, run: seq<State>, steps: seq<Step>, i: nat)
    requires c.workers > 0 && IsRun(c, run, steps) && i < |run|
    ensures Inv(c, run[i])
  {
    hide Inv, Enabled, Apply, Init;
    if i == 0 {
      InitHolds(c, run[0]);
    } else {
      RunKeepsInv(c, run, steps, i - 1);
      assert Moves(c, run[i - 1], steps[i - 1], run[i]);
      StepKeepsInv(c, run[i - 1], steps[i - 1]);
    }
  }

  /** When the send loop has counted every worker's sentinel nothing is queued, held or lost. */
  lemma CountedMeansReplied(c: Config, s: State, j: nat)
    requires c.workers > 0 && Inv(c, s) && s.sender == AllCounted
    ensures j in s.place <==> j in s.replies
    ensures j in s.place ==> Count(s.replies, j) == 1
  {
    CountIsBounded(s.workers, Finished);
    LastIsCounted(s.sendQueue, End);
    assert Done(s.workers[0]);
    assert JobInv(s, j);
    LastIsCounted(s.decodeQueue, Some(j));
    LastIsCounted(s.replies, j);
    assert !Broken(s);
  }

  /** Server conservation. In every interleaving of receiver, workers and sender, failing ones
      included, if the send loop gets to count all the workers' sentinels, then every job ever
      acknowledged has had exactly one reply sent, and nothing else was replied to. */
  lemma EveryAcknowledgedJobIsRepliedOnce(c: Config, run: seq<State>, steps: seq<Step>, i: nat)
    requires c.workers > 0 && IsRun(c, run, steps) && i < |run| && run[i].sender == AllCounted
    ensures forall j: nat :: Count(run[i].replies, j) == if j in run[i].place then 1 else 0
    ensures run[i].receiver.Signalling?
  {
    RunKeepsInv(c, run, steps, i);
    var s := run[i];
    forall j: nat ensures Count(s.replies, j) == if j in s.place then 1 else 0 {
      CountedMeansReplied(c, s, j);
    }
    CountIsBounded(s.workers, Finished);
    assert Done(s.workers[0]);
  }

  /** Jobs are numbered as they are acknowledged, so the replies are a permutation of all of them. */
  lemma {:induction false} AcknowledgedJobs(c: Config, run: seq<State>, steps: seq<Step>, i: nat)
    requires c.workers > 0 && IsRun(c, run, steps) && i < |run|
    ensures forall j: nat :: j in run[i].place <==> j < run[i].nextJob
  {
    if i > 0 {
      AcknowledgedJobs(c, run, steps, i - 1);
      RunKeepsInv(c, run, steps, i - 1);
      assert Moves(c, run[i - 1], steps[i - 1], run[i]);
      PlacesGrow(c, run[i - 1], steps[i - 1]);
    }
  }

  lemma WorkerKeepsPlaces(c: Config, s: State, i: nat, step: WorkerStep)
    requires WorkerEnabled(c, s, i, step)
    requires s.workers[i].Decoding? ==> s.workers[i].job in s.place
    requires s.decodeQueue != [] && s.decodeQueue[0].Some? ==> s.decodeQueue[0].value in s.place
    ensures WorkerApply(c, s, i, step).place.Keys == s.place.Keys
  {
    assert forall t: State :: Drained(t).place.Keys == t.place.Keys;
    hide Drained;
  }

  lemma PlacesGrow(c: Config, s: State, step: Step)
    requires Inv(c, s) && Enabled(c, s, step)
    ensures forall j: nat :: j in Apply(c, s, step).place <==>
              j in s.place || (step == ByReceiver(Acknowledge) && j == s.nextJob)
  {
    HeldIsPlaced(s);
    hide Inv;
    match step
    case ByReceiver(x) =>
    case ByWorker(i, x) =>
      WorkerKeepsPlaces(c, s, i, x);
      hide WorkerEnabled, WorkerApply;
      assert forall j: nat :: j in WorkerApply(c, s, i, x).place <==> j in WorkerApply(c, s, i, x).place.Keys;
    case BySender(x) =>
  }

  /** Every job that a coroutine holds or finds at the head of a queue has a place. */
  lemma HeldIsPlaced(s: State)
    requires forall j: nat :: JobInv(s, j)
    ensures s.receiver.Queueing? ==> s.receiver.job in s.place
    ensures forall i :: 0 <= i < |s.workers| && s.workers[i].Decoding? ==> s.workers[i].job in s.place
    ensures s.decodeQueue != [] && s.decodeQueue[0].Some? ==> s.decodeQueue[0].value in s.place
    ensures s.sendQueue != [] && s.sendQueue[0].Result? ==> s.sendQueue[0].job in s.place
    ensures s.sender.Sending? ==> s.sender.job in s.place
  {
    assert s.receiver.Queueing? ==> JobInv(s, s.receiver.job);
    forall i | 0 <= i < |s.workers| && s.workers[i].Decoding? ensures s.workers[i].job in s.place {
      assert JobInv(s, s.workers[i].job);
    }
    if s.decodeQueue != [] && s.decodeQueue[0].Some? {
      LastIsCounted(s.decodeQueue, s.decodeQueue[0]);
      assert JobInv(s, s.decodeQueue[0].value);
    }
    if s.sendQueue != [] && s.sendQueue[0].Result? {
      LastIsCounted(s.sendQueue, s.sendQueue[0]);
      assert JobInv(s, s.sendQueue[0].job);
    }
    assert s.sender.Sending? ==> JobInv(s, s.sender.job);
  }
}
