/** nodes/stream_client.py: capture stage, encode workers, network sender and reply consumer as one
    transition system. A step is the code between two points where a coroutine can be suspended;
    steps of different coroutines interleave in any order. `SessionTracker.transition` is part of
    the step that calls it: it holds its lock over no suspension point, so it never has to wait. */
module ClientPipeline {
  import opened Common
  import R = Reorder

  // ---- What does not change during a session ----

  /** `first` is the sequence of the session's first frame: the counter is one for the whole process.
      `fragments(q)` is the number of fragments of frame `q`, `name(q)` its name. */
  datatype Config = Config(
    workers: nat, captureCap: nat, networkCap: nat, maxLimit: int, first: nat,
    fragments: nat -> nat, name: nat -> string)

  ghost predicate GoodConfig(c: Config) {
    c.workers > 0 && c.maxLimit >= 1 && forall q :: c.fragments(q) >= 1
  }

  // ---- The priority queue of captured frames ----

  datatype Priority = Finite(value: real) | Infinite

  /** An entry of the capture queue; a sentinel has infinite priority and no payload. */
  datatype Item = Frame(hint: Priority, ticket: nat, sequence: nat) | Sentinel(ticket: nat)

  function PriorityOf(i: Item): Priority {
    if i.Frame? then i.hint else Infinite
  }

  /** Python's tuple order on (priority, ticket). */
  predicate Before(a: Item, b: Item) {
    var p := PriorityOf(a);
    var q := PriorityOf(b);
    match (p, q)
    case (Finite(x), Finite(y)) => x < y || (x == y && a.ticket < b.ticket)
    case (Finite(_), Infinite) => true
    case (Infinite, Finite(_)) => false
    case (Infinite, Infinite) => a.ticket < b.ticket
  }

  // ---- SessionTracker ----

  datatype Session = Healthy | SoftDegraded | Degraded | Closing

  /** CLOSING is never left, DEGRADED only for CLOSING. */
  function Transition(s: Session, target: Session): Session {
    if target == s then s
    else if s == Closing then s
    else if s == Degraded && target in {Healthy, SoftDegraded} then s
    else target
  }

  // ---- Where each coroutine is ----

  /** `Signalling(n)`: the stage has taken its last frame and still owes `n` sentinels. */
  datatype Capture = Capturing | Signalling(left: nat)

  datatype Worker = Idle | Holding(sequence: nat) | Finishing | Finished | Abandoned

  datatype Sender =
    | AtLoop                              // about to test the stop event
    | Getting                             // awaiting the network queue
    | Waiting(sequence: nat)              // awaiting room in the window
    | Sending(sequence: nat, sent: nat)   // `sent` fragments are on the wire
    | DrainWait                           // all sentinels counted, awaiting empty tables
    | SendingEof                          // decided to send EOF
    | Stopped

  datatype WireMessage = Data(sequence: nat, index: nat) | Eof

  /** Where an accepted frame is; recorded for the proof, read by no step. */
  datatype Place =
    | InCapture(item: Item) | WithWorker(worker: nat) | InNetwork | WithSender | Registered | Lost(worker: nat)

  /** `accepting` says that the control plane has neither failed nor terminated, so that it takes a frame
      without raising. `skipsDue` are the skip events that failing workers have put into the reply queue. `place`,
      `answered`, `failed`, `unread` and `reports` are history: every frame accepted into the capture
      queue; those whose table entry a DATA reply removed, those whose entry an ERROR reply removed,
      and those whose DATA reply could not be parsed; and what the reorder buffer was told, in order. */
  datatype State = State(
    stop: bool, session: Session, accepting: bool,
    captureQueue: set<Item>, nextTicket: nat, nextSequence: nat, capture: Capture,
    workers: seq<Worker>, networkQueue: seq<Option<nat>>,
    sender: Sender, finished: nat, eofSent: bool,
    inflight: set<nat>, acksPending: set<nat>, limit: int,
    wire: seq<WireMessage>, skipsDue: set<nat>,
    place: map<nat, Place>, answered: set<nat>, failed: set<nat>, unread: set<nat>,
    reports: seq<R.Event<nat>>)

  ghost predicate Init(c: Config, s: State) {
    && !s.stop && s.session == Healthy && s.accepting
    && s.captureQueue == {} && s.capture == Capturing && s.nextSequence == c.first
    && s.workers == seq(c.workers, _ => Idle) && s.networkQueue == []
    && s.sender == AtLoop && s.finished == 0 && !s.eofSent
    && s.inflight == {} && s.acksPending == {} && 1 <= s.limit <= c.maxLimit
    && s.wire == [] && s.skipsDue == {} && s.place == map[] && s.answered == {} && s.failed == {}
    && s.unread == {} && s.reports == []
  }

  // ---- Steps of the capture stage ----

  /** `Refused` is a frame whose sequence was drawn but which the stop event kept out of the queue. */
  datatype CaptureStep = Accept(hint: Priority) | Refused | NoMoreFrames | PutSentinel

  predicate CaptureEnabled(c: Config, s: State, step: CaptureStep) {
    match step
    case Accept(_) => s.capture == Capturing && |s.captureQueue| < c.captureCap
    case Refused => s.capture == Capturing && s.stop
    case NoMoreFrames => s.capture == Capturing
    case PutSentinel => s.capture.Signalling? && s.capture.left > 0 && |s.captureQueue| < c.captureCap
  }

  function CaptureApply(c: Config, s: State, step: CaptureStep): State
    requires CaptureEnabled(c, s, step)
  {
    match step
    case Accept(hint) =>
      var item := Frame(hint, s.nextTicket, s.nextSequence);
      s.(captureQueue := s.captureQueue + {item}, nextTicket := s.nextTicket + 1,
         nextSequence := s.nextSequence + 1, place := s.place[s.nextSequence := InCapture(item)])
    case Refused => s.(nextTicket := s.nextTicket + 1, nextSequence := s.nextSequence + 1)
    case NoMoreFrames => s.(capture := Signalling(c.workers))
    case PutSentinel =>
      s.(captureQueue := s.captureQueue + {Sentinel(s.nextTicket)}, nextTicket := s.nextTicket + 1,
         capture := Signalling(s.capture.left - 1))
  }

  // ---- Steps of an encode worker ----

  /** `Fail` is a frame that could not be encoded and is reported as skipped, `Quit` a worker that saw
      the stop event. */
  datatype WorkerStep = Get(item: Item) | Put | Fail | Quit | Finish

  ghost predicate WorkerEnabled(c: Config, s: State, i: nat, step: WorkerStep) {
    && i < |s.workers|
    && match step
       case Get(item) =>
         && s.workers[i] == Idle && item in s.captureQueue
         && forall other :: other in s.captureQueue && other != item ==> Before(item, other)
       case Put => s.workers[i].Holding? && |s.networkQueue| < c.networkCap
       case Fail => s.workers[i].Holding?
       case Quit => s.stop && (s.workers[i] == Idle || s.workers[i].Holding?)
       case Finish => s.workers[i] == Finishing && |s.networkQueue| < c.networkCap
  }

  function WorkerApply(c: Config, s: State, i: nat, step: WorkerStep): State
    requires WorkerEnabled(c, s, i, step)
  {
    match step
    case Get(item) =>
      if item.Frame? then
        s.(captureQueue := s.captureQueue - {item}, workers := s.workers[i := Holding(item.sequence)],
           place := s.place[item.sequence := WithWorker(i)])
      else
        s.(captureQueue := s.captureQueue - {item}, workers := s.workers[i := Finishing])
    case Put =>
      var q := s.workers[i].sequence;
      s.(networkQueue := s.networkQueue + [Some(q)], workers := s.workers[i := Idle], place := s.place[q := InNetwork])
    case Fail =>
      var q := s.workers[i].sequence;
      s.(workers := s.workers[i := Abandoned], place := s.place[q := Lost(i)], skipsDue := s.skipsDue + {q})
    case Quit =>
      s.(workers := s.workers[i := Abandoned],
         place := if s.workers[i].Holding? then s.place[s.workers[i].sequence := Lost(i)] else s.place)
    case Finish =>
      s.(networkQueue := s.networkQueue + [None], workers := s.workers[i := Finished])
  }

  // ---- Steps of the network sender ----

  /** `Admitted` ends with the sender when `on_frame_sent` raises, which nothing catches. `EofFails(true)`
      is an exception after EOF was written and CLOSING entered. */
  datatype SenderStep =
    | Loop | Take | GiveUp | Admitted | SendFragment | SendFails | Register
    | Drained | EofWritten | EofFails(wrote: bool)

  predicate SenderEnabled(c: Config, s: State, step: SenderStep) {
    match step
    case Loop => s.sender == AtLoop
    case Take => s.sender == Getting && s.networkQueue != []
    case GiveUp => s.sender == Getting && s.stop
    case Admitted => s.sender.Waiting? && (|s.acksPending| < s.limit || s.stop)
    case SendFragment => s.sender.Sending? && s.sender.sent < c.fragments(s.sender.sequence)
    case SendFails => s.sender.Sending?
    case Register => s.sender.Sending? && s.sender.sent == c.fragments(s.sender.sequence)
    case Drained => s.sender == DrainWait && ((s.inflight == {} && s.acksPending == {}) || s.stop)
    case EofWritten => s.sender == SendingEof
    case EofFails(_) => s.sender == SendingEof
  }

  /** The test in front of the EOF message. */
  predicate MaySendEof(s: State) {
    s.session in {Healthy, SoftDegraded} && s.inflight == {} && s.acksPending == {} && !s.stop
  }

  function SenderApply(c: Config, s: State, step: SenderStep): State
    requires SenderEnabled(c, s, step)
  {
    match step
    case Loop => s.(sender := if s.stop then Stopped else Getting)
    case Take =>
      if s.networkQueue[0].Some? then
        var q := s.networkQueue[0].value;
        s.(networkQueue := s.networkQueue[1..], sender := Waiting(q), place := s.place[q := WithSender])
      else
        s.(networkQueue := s.networkQueue[1..], finished := s.finished + 1,
           sender := if s.finished + 1 >= c.workers && !s.eofSent then DrainWait else AtLoop)
    case GiveUp => s.(sender := Stopped)
    case Admitted =>
      if s.session == Degraded then s.(sender := Stopped, stop := true)
      else if !s.accepting then s.(sender := Stopped)
      else s.(sender := Sending(s.sender.sequence, 0))
    case SendFragment =>
      s.(wire := s.wire + [Data(s.sender.sequence, s.sender.sent)],
         sender := Sending(s.sender.sequence, s.sender.sent + 1))
    case SendFails => s.(sender := Stopped, stop := true)
    case Register =>
      var q := s.sender.sequence;
      s.(inflight := s.inflight + {q}, acksPending := s.acksPending + {q}, sender := AtLoop,
         place := s.place[q := Registered])
    case Drained => s.(sender := if MaySendEof(s) then SendingEof else AtLoop)
    case EofWritten =>
      s.(wire := s.wire + [Eof], session := Transition(s.session, Closing), eofSent := true, sender := AtLoop)
    case EofFails(wrote) =>
      s.(wire := if wrote then s.wire + [Eof] else s.wire, sender := Stopped, stop := true,
         session := if wrote then Transition(s.session, Closing) else s.session)
  }

  // ---- Steps of the reply consumer ----

  /** Any message may arrive at any time, a skip once for each worker that failed. `target` is what the
      adaptive window computes, if it computes anything; `key` is the table entry a reply removes;
      `body` is what a DATA reply parses to, if it does, and if the control plane still takes data.
      `unknown` is an ACK the control plane does not expect, `closes` an EOF that ends it. */
  datatype ReplyStep =
    | Ack(acked: nat, target: Option<int>, unknown: bool)
    | DataReply(header: Option<nat>, name: string, key: nat, target: Option<int>, body: Option<nat>)
    | ErrorReply(header: Option<nat>, name: string, key: nat, detail: string)
    | UnknownReply(header: Option<nat>)
    | LocalSkip(skipped: nat, detail: string)
    | AckTimeout(fatal: bool) | Degrade(failed: bool) | ServerEof(closes: bool) | ClearAcks

  /** A reply removes the entry of its own sequence if that is in flight, else one of its name. */
  predicate Answers(c: Config, s: State, header: Option<nat>, name: string, key: nat) {
    && key in s.inflight
    && if header.Some? && header.value in s.inflight then key == header.value else c.name(key) == name
  }

  predicate ReplyEnabled(c: Config, s: State, step: ReplyStep) {
    match step
    case DataReply(header, name, key, _, body) => Answers(c, s, header, name, key) && (body.Some? ==> s.accepting)
    case ErrorReply(header, name, key, _) => Answers(c, s, header, name, key)
    case UnknownReply(header) => header.Some? ==> header.value !in s.inflight
    case LocalSkip(q, _) => q in s.skipsDue
    case ClearAcks => s.session in {Degraded, Closing}
    case _ => true
  }

  /** `WindowController`: the limit is clamped to 1..max whatever is computed. */
  function Clamp(c: Config, target: Option<int>, limit: int): int {
    if target == None then limit else Max(1, Min(c.maxLimit, target.value))
  }

  function Discard(s: set<nat>, q: Option<nat>): set<nat> {
    if q == None then s else s - {q.value}
  }

  function ReplyApply(c: Config, s: State, step: ReplyStep): State
    requires ReplyEnabled(c, s, step)
  {
    match step
    case Ack(q, target, unknown) =>
      if q in s.inflight then
        s.(acksPending := s.acksPending - {q}, limit := Clamp(c, target, s.limit),
           accepting := s.accepting && !unknown, stop := s.stop || unknown,
           session := if s.session == SoftDegraded then Transition(s.session, Healthy) else s.session)
      else s.(acksPending := s.acksPending - {q})
    case DataReply(header, _, key, target, body) =>
      s.(inflight := s.inflight - {key}, acksPending := Discard(s.acksPending, header) - {key},
         answered := s.answered + {key}, limit := Clamp(c, target, s.limit),
         unread := if body == None then s.unread + {key} else s.unread,
         reports := if body == None then s.reports else s.reports + [R.Arrived(key, body.value)])
    case ErrorReply(header, _, key, detail) =>
      s.(inflight := s.inflight - {key}, acksPending := Discard(s.acksPending, header) - {key},
         failed := s.failed + {key}, session := Transition(s.session, Degraded), accepting := false, stop := true,
         reports := s.reports + [R.Skipped(key, detail)])
    case UnknownReply(header) => s.(acksPending := Discard(s.acksPending, header))
    case LocalSkip(q, detail) =>
      s.(acksPending := s.acksPending - {q}, skipsDue := s.skipsDue - {q}, reports := s.reports + [R.Skipped(q, detail)])
    case AckTimeout(fatal) =>
      if fatal then s.(session := Transition(s.session, Degraded), accepting := false, stop := true)
      else s.(session := Transition(s.session, SoftDegraded))
    case Degrade(failed) => s.(session := Transition(s.session, Degraded), accepting := s.accepting && !failed)
    case ServerEof(closes) =>
      s.(session := Transition(s.session, Closing), accepting := s.accepting && !closes, stop := true)
    case ClearAcks => s.(acksPending := {})
  }

  // ---- All steps ----

  datatype Step =
    | ByCapture(capture: CaptureStep) | ByWorker(i: nat, work: WorkerStep)
    | BySender(send: SenderStep) | ByConsumer(reply: ReplyStep) | RaiseStop

  ghost predicate Enabled(c: Config, s: State, step: Step) {
    match step
    case ByCapture(x) => CaptureEnabled(c, s, x)
    case ByWorker(i, x) => WorkerEnabled(c, s, i, x)
    case BySender(x) => SenderEnabled(c, s, x)
    case ByConsumer(x) => ReplyEnabled(c, s, x)
    case RaiseStop => true
  }

  function Apply(c: Config, s: State, step: Step): State
    requires Enabled(c, s, step)
  {
    match step
    case ByCapture(x) => CaptureApply(c, s, x)
    case ByWorker(i, x) => WorkerApply(c, s, i, x)
    case BySender(x) => SenderApply(c, s, x)
    case ByConsumer(x) => ReplyApply(c, s, x)
    case RaiseStop => s.(stop := true)
  }

  /** States from an initial one to the next by enabled steps: any interleaving whatsoever. */
  ghost predicate IsRun(c: Config, run: seq<State>, steps: seq<Step>) {
    && |run| == |steps| + 1
    && Init(c, run[0])
    && forall i :: 0 <= i < |steps| ==> Moves(c, run[i], steps[i], run[i + 1])
  }

  ghost predicate Moves(c: Config, s: State, step: Step, t: State) {
    Enabled(c, s, step) && t == Apply(c, s, step)
  }

  // ---- What each coroutine leaves alone ----

  lemma CaptureTouches(c: Config, s: State, step: CaptureStep)
    requires CaptureEnabled(c, s, step)
    ensures var t := CaptureApply(c, s, step);
            && t.stop == s.stop && t.session == s.session && t.workers == s.workers
            && t.networkQueue == s.networkQueue && t.sender == s.sender && t.finished == s.finished
            && t.eofSent == s.eofSent && t.inflight == s.inflight && t.acksPending == s.acksPending
            && t.limit == s.limit && t.wire == s.wire && t.answered == s.answered && t.failed == s.failed
            && s.nextSequence <= t.nextSequence && (!step.Accept? ==> t.place == s.place)
  {
  }

  lemma WorkerTouches(c: Config, s: State, i: nat, step: WorkerStep)
    requires WorkerEnabled(c, s, i, step)
    ensures var t := WorkerApply(c, s, i, step);
            && t.stop == s.stop && t.session == s.session && t.nextSequence == s.nextSequence
            && t.sender == s.sender && t.eofSent == s.eofSent && t.wire == s.wire
  {
    hide Before;
  }

  lemma WorkerLeavesTables(c: Config, s: State, i: nat, step: WorkerStep)
    requires WorkerEnabled(c, s, i, step)
    ensures var t := WorkerApply(c, s, i, step);
            && t.inflight == s.inflight && t.acksPending == s.acksPending && t.limit == s.limit
            && t.answered == s.answered && t.failed == s.failed
  {
    hide Before;
  }

  lemma SenderLeavesCapture(c: Config, s: State, step: SenderStep)
    requires SenderEnabled(c, s, step)
    ensures var t := SenderApply(c, s, step);
            && t.captureQueue == s.captureQueue && t.nextTicket == s.nextTicket && t.nextSequence == s.nextSequence
            && t.capture == s.capture && t.workers == s.workers
  {
    hide MaySendEof, Transition;
  }

  lemma SenderLeavesHistory(c: Config, s: State, step: SenderStep)
    requires SenderEnabled(c, s, step)
    ensures var t := SenderApply(c, s, step);
            && (s.stop ==> t.stop) && t.answered == s.answered && t.failed == s.failed
            && (step != Take ==> t.networkQueue == s.networkQueue)
            && (step != Register ==> t.inflight == s.inflight)
            && (step != Take && step != Register ==> t.place == s.place)
  {
    hide MaySendEof, Transition;
  }

  lemma ReplyLeavesCapture(c: Config, s: State, step: ReplyStep)
    requires ReplyEnabled(c, s, step)
    ensures var t := ReplyApply(c, s, step);
            && t.captureQueue == s.captureQueue && t.nextTicket == s.nextTicket
            && t.nextSequence == s.nextSequence && t.capture == s.capture
  {
    hide Transition, Clamp, Discard, Answers;
  }

  lemma ReplyLeavesWorkers(c: Config, s: State, step: ReplyStep)
    requires ReplyEnabled(c, s, step)
    ensures ReplyApply(c, s, step).workers == s.workers && ReplyApply(c, s, step).networkQueue == s.networkQueue
  {
    hide Transition, Clamp, Discard, Answers;
  }

  lemma ReplyLeavesSender(c: Config, s: State, step: ReplyStep)
    requires ReplyEnabled(c, s, step)
    ensures var t := ReplyApply(c, s, step);
            && (s.stop ==> t.stop) && t.sender == s.sender && t.finished == s.finished && t.eofSent == s.eofSent
            && t.wire == s.wire && t.place == s.place
  {
    hide Transition, Clamp, Discard, Answers;
  }

  // ---- Invariants: the window ----

  /** What the window allows where the sender is now. Only a sender that went on because of the stop
      event can be one over, and then it is about to stop. */
  predicate WithinWindow(c: Config, s: State) {
    var n := |s.acksPending|;
    match s.sender
    case Sending(_, _) => n < c.maxLimit || (s.stop && n <= c.maxLimit)
    case AtLoop => n <= c.maxLimit || (s.stop && n <= c.maxLimit + 1)
    case Stopped => n <= c.maxLimit || (s.stop && n <= c.maxLimit + 1)
    case _ => n <= c.maxLimit
  }

  ghost predicate WindowInv(c: Config, s: State) {
    1 <= s.limit <= c.maxLimit && s.acksPending <= s.inflight && WithinWindow(c, s)
  }

  lemma FewerAcks(c: Config, s: State, t: State)
    requires t.acksPending <= s.acksPending && t.sender == s.sender && (s.stop ==> t.stop)
    requires WithinWindow(c, s)
    ensures WithinWindow(c, t)
  {
    SubsetSize(t.acksPending, s.acksPending);
  }

  lemma WindowSender(c: Config, s: State, step: SenderStep)
    requires GoodConfig(c) && WindowInv(c, s) && SenderEnabled(c, s, step)
    ensures WindowInv(c, SenderApply(c, s, step))
  {
    if step == Register {
      var q := s.sender.sequence;
      if q in s.acksPending {
        assert s.acksPending + {q} == s.acksPending;
      } else {
        assert |s.acksPending + {q}| == |s.acksPending| + 1;
      }
    }
  }

  lemma ReplyFreesAcks(c: Config, s: State, step: ReplyStep)
    requires s.acksPending <= s.inflight && ReplyEnabled(c, s, step)
    ensures ReplyApply(c, s, step).acksPending <= s.acksPending
    ensures ReplyApply(c, s, step).acksPending <= ReplyApply(c, s, step).inflight
  {
    hide Transition, Clamp, Answers;
  }

  lemma ReplyKeepsLimit(c: Config, s: State, step: ReplyStep)
    requires GoodConfig(c) && 1 <= s.limit <= c.maxLimit && ReplyEnabled(c, s, step)
    ensures 1 <= ReplyApply(c, s, step).limit <= c.maxLimit
  {
    hide Transition, Discard, Answers;
  }

  lemma WindowReply(c: Config, s: State, step: ReplyStep)
    requires GoodConfig(c) && WindowInv(c, s) && ReplyEnabled(c, s, step)
    ensures WindowInv(c, ReplyApply(c, s, step))
  {
    var t := ReplyApply(c, s, step);
    hide ReplyApply, ReplyEnabled, WithinWindow;
    ReplyFreesAcks(c, s, step);
    ReplyKeepsLimit(c, s, step);
    ReplyLeavesSender(c, s, step);
    FewerAcks(c, s, t);
  }

  lemma WindowElsewhere(c: Config, s: State, t: State)
    requires WindowInv(c, s) && t.acksPending == s.acksPending && t.inflight == s.inflight && t.limit == s.limit
    requires t.sender == s.sender && (s.stop ==> t.stop)
    ensures WindowInv(c, t)
  {
  }

  lemma WindowStep(c: Config, s: State, step: Step)
    requires GoodConfig(c) && WindowInv(c, s) && Enabled(c, s, step)
    ensures WindowInv(c, Apply(c, s, step))
  {
    hide WindowInv, CaptureEnabled, WorkerEnabled, SenderEnabled, ReplyEnabled;
    hide CaptureApply, WorkerApply, SenderApply, ReplyApply;
    match step
    case ByCapture(x) =>
      CaptureTouches(c, s, x);
      WindowElsewhere(c, s, CaptureApply(c, s, x));
    case ByWorker(i, x) =>
      WorkerTouches(c, s, i, x);
      WorkerLeavesTables(c, s, i, x);
      WindowElsewhere(c, s, WorkerApply(c, s, i, x));
    case BySender(x) => WindowSender(c, s, x);
    case ByConsumer(x) => WindowReply(c, s, x);
    case RaiseStop => WindowElsewhere(c, s, Apply(c, s, step));
  }

  // ---- Invariants: sentinels come last ----

  ghost predicate Started(workers: seq<Worker>) {
    exists i :: 0 <= i < |workers| && (workers[i] == Finishing || workers[i] == Finished)
  }

  /** No sentinel exists while frames are still accepted, sentinels carry later tickets than frames,
      and once a worker has taken one, no frame is left in the capture queue. */
  ghost predicate CaptureInv(c: Config, s: State) {
    && |s.workers| == c.workers
    && (forall i :: i in s.captureQueue ==> i.ticket < s.nextTicket)
    && (forall i, j :: i in s.captureQueue && j in s.captureQueue && i.Frame? && j.Sentinel? ==> i.ticket < j.ticket)
    && (s.capture == Capturing ==> !Started(s.workers) && forall i :: i in s.captureQueue ==> i.Frame?)
    && (Started(s.workers) ==> forall i :: i in s.captureQueue ==> i.Sentinel?)
  }

  lemma CaptureInvCapture(c: Config, s: State, step: CaptureStep)
    requires CaptureInv(c, s) && CaptureEnabled(c, s, step)
    ensures CaptureInv(c, CaptureApply(c, s, step))
  {
  }

  lemma CaptureInvWorker(c: Config, s: State, i: nat, step: WorkerStep)
    requires CaptureInv(c, s) && WorkerEnabled(c, s, i, step)
    ensures CaptureInv(c, WorkerApply(c, s, i, step))
  {
    var t := WorkerApply(c, s, i, step);
    if step.Get? && step.item.Sentinel? {
      forall other | other in t.captureQueue ensures other.Sentinel? {
        assert Before(step.item, other);
      }
    } else if Started(t.workers) {
      var j :| 0 <= j < |t.workers| && (t.workers[j] == Finishing || t.workers[j] == Finished);
      assert s.workers[j] == Finishing || s.workers[j] == Finished;
    }
  }

  lemma CaptureInvElsewhere(c: Config, s: State, t: State)
    requires CaptureInv(c, s) && t.captureQueue == s.captureQueue && t.nextTicket == s.nextTicket
    requires t.capture == s.capture && t.workers == s.workers
    ensures CaptureInv(c, t)
  {
    hide Started;
  }

  lemma CaptureInvStep(c: Config, s: State, step: Step)
    requires CaptureInv(c, s) && Enabled(c, s, step)
    ensures CaptureInv(c, Apply(c, s, step))
  {
    hide CaptureInv, CaptureEnabled, WorkerEnabled, SenderEnabled, ReplyEnabled;
    hide CaptureApply, WorkerApply, SenderApply, ReplyApply;
    match step
    case ByCapture(x) => CaptureInvCapture(c, s, x);
    case ByWorker(i, x) => CaptureInvWorker(c, s, i, x);
    case BySender(x) =>
      SenderLeavesCapture(c, s, x);
      CaptureInvElsewhere(c, s, SenderApply(c, s, x));
    case ByConsumer(x) =>
      ReplyLeavesCapture(c, s, x);
      ReplyLeavesWorkers(c, s, x);
      CaptureInvElsewhere(c, s, ReplyApply(c, s, x));
    case RaiseStop => CaptureInvElsewhere(c, s, Apply(c, s, step));
  }

  // ---- Invariants: one sentinel for each finished worker ----

  /** The sentinels counted and queued are as many as the workers that finished; when all have, the
      last thing queued was a sentinel. */
  ghost predicate CountInv(c: Config, s: State) {
    && |s.workers| == c.workers
    && s.finished + Count(s.networkQueue, None) == Count(s.workers, Finished)
    && (Count(s.workers, Finished) == c.workers && s.networkQueue != [] ==> s.networkQueue[|s.networkQueue| - 1] == None)
    && (s.sender in {DrainWait, SendingEof} || s.eofSent ==> s.finished >= c.workers)
  }

  lemma CountWorker(c: Config, s: State, i: nat, step: WorkerStep)
    requires CountInv(c, s) && WorkerEnabled(c, s, i, step)
    ensures CountInv(c, WorkerApply(c, s, i, step))
  {
    hide Count;
    CountIsBounded(s.workers, Finished);
    CountUpdate(s.workers, i, WorkerApply(c, s, i, step).workers[i], Finished);
    match step
    case Put => CountAppend(s.networkQueue, Some(s.workers[i].sequence), None);
    case Finish => CountAppend(s.networkQueue, None, None);
    case _ =>
  }

  lemma CountSender(c: Config, s: State, step: SenderStep)
    requires CountInv(c, s) && SenderEnabled(c, s, step)
    ensures CountInv(c, SenderApply(c, s, step))
  {
    hide Count;
    if step == Take {
      CountTail(s.networkQueue, None);
    }
  }

  lemma CountElsewhere(c: Config, s: State, t: State)
    requires CountInv(c, s) && t.workers == s.workers && t.networkQueue == s.networkQueue
    requires t.finished == s.finished && t.sender == s.sender && t.eofSent == s.eofSent
    ensures CountInv(c, t)
  {
    hide Count;
  }

  lemma CountStep(c: Config, s: State, step: Step)
    requires CountInv(c, s) && Enabled(c, s, step)
    ensures CountInv(c, Apply(c, s, step))
  {
    hide CountInv, CaptureEnabled, WorkerEnabled, SenderEnabled, ReplyEnabled;
    hide CaptureApply, WorkerApply, SenderApply, ReplyApply;
    match step
    case ByCapture(x) =>
      CaptureTouches(c, s, x);
      CountElsewhere(c, s, CaptureApply(c, s, x));
    case ByWorker(i, x) => CountWorker(c, s, i, x);
    case BySender(x) => CountSender(c, s, x);
    case ByConsumer(x) =>
      ReplyLeavesWorkers(c, s, x);
      ReplyLeavesSender(c, s, x);
      CountElsewhere(c, s, ReplyApply(c, s, x));
    case RaiseStop => CountElsewhere(c, s, Apply(c, s, step));
  }

  /** Once the sender has counted every sentinel, all workers are done and nothing is queued. */
  lemma AllSentinelsCounted(c: Config, s: State)
    requires CountInv(c, s) && s.finished >= c.workers
    ensures s.networkQueue == []
    ensures forall i :: 0 <= i < |s.workers| ==> s.workers[i] == Finished
  {
    CountIsBounded(s.workers, Finished);
    LastIsCounted(s.networkQueue, None);
  }

  // ---- Invariants: every accepted frame is in one place ----

  function HeldBySender(sender: Sender): Option<nat> {
    match sender
    case Waiting(q) => Some(q)
    case Sending(q, _) => Some(q)
    case _ => None
  }

  predicate IsAt(s: State, q: nat, p: Place) {
    match p
    case InCapture(item) => item in s.captureQueue && item.Frame? && item.sequence == q
    case WithWorker(i) => i < |s.workers| && s.workers[i] == Holding(q)
    case InNetwork => Some(q) in s.networkQueue
    case WithSender => HeldBySender(s.sender) == Some(q) || s.sender == Stopped
    case Registered => q in s.inflight || q in s.answered || q in s.failed
    case Lost(i) => i < |s.workers| && s.workers[i] == Abandoned
  }

  ghost predicate Recorded(s: State, q: nat, p: Place) {
    q in s.place && s.place[q] == p
  }

  /** The history `place` and the queues, workers and tables agree. */
  ghost predicate PlaceInv(s: State) {
    && (forall q :: q in s.place ==> q < s.nextSequence && IsAt(s, q, s.place[q]))
    && (forall i :: i in s.captureQueue && i.Frame? ==> Recorded(s, i.sequence, InCapture(i)))
    && (forall i :: 0 <= i < |s.workers| && s.workers[i].Holding? ==> Recorded(s, s.workers[i].sequence, WithWorker(i)))
    && (forall i :: 0 <= i < |s.networkQueue| && s.networkQueue[i].Some? ==> Recorded(s, s.networkQueue[i].value, InNetwork))
    && (forall i, j :: 0 <= i < j < |s.networkQueue| && s.networkQueue[i].Some? ==> s.networkQueue[i] != s.networkQueue[j])
    && (HeldBySender(s.sender).Some? ==> Recorded(s, HeldBySender(s.sender).value, WithSender))
    && (forall q :: q in s.inflight || q in s.answered || q in s.failed ==> Recorded(s, q, Registered))
  }

  /** A step that leaves every frame where it is; the sender may only let go of its frame by stopping. */
  lemma PlacesStay(s: State, t: State)
    requires PlaceInv(s)
    requires t.place == s.place && t.nextSequence == s.nextSequence
    requires t.captureQueue == s.captureQueue && t.workers == s.workers && t.networkQueue == s.networkQueue
    requires HeldBySender(t.sender) == HeldBySender(s.sender) || t.sender == Stopped
    requires s.sender == Stopped ==> t.sender == Stopped
    requires forall q :: q in t.inflight || q in t.answered || q in t.failed
                    <==> q in s.inflight || q in s.answered || q in s.failed
    ensures PlaceInv(t)
  {
    forall q | q in t.place ensures q < t.nextSequence && IsAt(t, q, t.place[q]) {
      assert IsAt(s, q, s.place[q]);
    }
  }

  lemma PlaceAccepted(s: State, t: State, item: Item)
    requires PlaceInv(s) && item.Frame? && item.sequence == s.nextSequence
    requires t.captureQueue == s.captureQueue + {item} && t.place == s.place[item.sequence := InCapture(item)]
    requires t.nextSequence == s.nextSequence + 1
    requires t.workers == s.workers && t.networkQueue == s.networkQueue && t.sender == s.sender
    requires t.inflight == s.inflight && t.answered == s.answered && t.failed == s.failed
    ensures PlaceInv(t)
  {
    hide HeldBySender;
    assert item.sequence !in s.place;
    forall q | q in s.place ensures IsAt(t, q, t.place[q]) {
      assert IsAt(s, q, s.place[q]);
    }
  }

  /** The capture stage may draw a sequence or put a sentinel and accept nothing. */
  lemma PlaceNoFrame(s: State, t: State)
    requires PlaceInv(s) && t.place == s.place && t.nextSequence >= s.nextSequence
    requires forall item :: item in t.captureQueue && item.Frame? <==> item in s.captureQueue && item.Frame?
    requires t.workers == s.workers && t.networkQueue == s.networkQueue && t.sender == s.sender
    requires t.inflight == s.inflight && t.answered == s.answered && t.failed == s.failed
    ensures PlaceInv(t)
  {
    hide HeldBySender;
    forall q | q in t.place ensures q < t.nextSequence && IsAt(t, q, t.place[q]) {
      assert IsAt(s, q, s.place[q]);
    }
  }

  lemma PlaceCapture(c: Config, s: State, step: CaptureStep)
    requires PlaceInv(s) && CaptureEnabled(c, s, step)
    ensures PlaceInv(CaptureApply(c, s, step))
  {
    hide PlaceInv;
    if step.Accept? {
      PlaceAccepted(s, CaptureApply(c, s, step), Frame(step.hint, s.nextTicket, s.nextSequence));
    } else {
      CaptureTouches(c, s, step);
      PlaceNoFrame(s, CaptureApply(c, s, step));
    }
  }

  lemma PlaceGot(s: State, t: State, i: nat, item: Item)
    requires PlaceInv(s) && item in s.captureQueue && i < |s.workers| && s.workers[i] == Idle
    requires t.captureQueue == s.captureQueue - {item} && t.networkQueue == s.networkQueue
    requires t.workers == s.workers[i := if item.Frame? then Holding(item.sequence) else Finishing]
    requires t.place == if item.Frame? then s.place[item.sequence := WithWorker(i)] else s.place
    requires t.nextSequence == s.nextSequence && t.sender == s.sender
    requires t.inflight == s.inflight && t.answered == s.answered && t.failed == s.failed
    ensures PlaceInv(t)
  {
    hide HeldBySender;
    assert item.Frame? ==> Recorded(s, item.sequence, InCapture(item));
    forall q | q in t.place ensures q < t.nextSequence && IsAt(t, q, t.place[q]) {
      assert IsAt(s, q, s.place[q]);
    }
  }

  /** A worker puts the frame it holds, or a sentinel, into the network queue. */
  lemma PlacePut(s: State, t: State, i: nat, entry: Option<nat>)
    requires PlaceInv(s) && i < |s.workers|
    requires s.workers[i] == if entry.Some? then Holding(entry.value) else Finishing
    requires t.captureQueue == s.captureQueue && t.networkQueue == s.networkQueue + [entry]
    requires t.workers == s.workers[i := if entry.Some? then Idle else Finished]
    requires t.place == if entry.Some? then s.place[entry.value := InNetwork] else s.place
    requires t.nextSequence == s.nextSequence && t.sender == s.sender
    requires t.inflight == s.inflight && t.answered == s.answered && t.failed == s.failed
    ensures PlaceInv(t)
  {
    hide HeldBySender;
    var n := |s.networkQueue|;
    assert entry.Some? ==> Recorded(s, entry.value, WithWorker(i));
    assert forall k :: 0 <= k < n ==> t.networkQueue[k] == s.networkQueue[k];
    assert t.networkQueue[n] == entry;
    forall q | q in t.place ensures q < t.nextSequence && IsAt(t, q, t.place[q]) {
      assert IsAt(s, q, s.place[q]);
    }
  }

  /** A worker goes, and a frame it holds is lost. */
  lemma PlaceGone(s: State, t: State, i: nat)
    requires PlaceInv(s) && i < |s.workers| && (s.workers[i] == Idle || s.workers[i].Holding?)
    requires t.captureQueue == s.captureQueue && t.networkQueue == s.networkQueue
    requires t.workers == s.workers[i := Abandoned]
    requires t.place == if s.workers[i].Holding? then s.place[s.workers[i].sequence := Lost(i)] else s.place
    requires t.nextSequence == s.nextSequence && t.sender == s.sender
    requires t.inflight == s.inflight && t.answered == s.answered && t.failed == s.failed
    ensures PlaceInv(t)
  {
    hide HeldBySender;
    assert s.workers[i].Holding? ==> Recorded(s, s.workers[i].sequence, WithWorker(i));
    forall q | q in t.place ensures q < t.nextSequence && IsAt(t, q, t.place[q]) {
      assert IsAt(s, q, s.place[q]);
    }
  }

  lemma PlaceWorker(c: Config, s: State, i: nat, step: WorkerStep)
    requires PlaceInv(s) && WorkerEnabled(c, s, i, step)
    ensures PlaceInv(WorkerApply(c, s, i, step))
  {
    hide PlaceInv, Before;
    var t := WorkerApply(c, s, i, step);
    match step
    case Get(item) => PlaceGot(s, t, i, item);
    case Put => PlacePut(s, t, i, Some(s.workers[i].sequence));
    case Finish => PlacePut(s, t, i, None);
    case _ => PlaceGone(s, t, i);
  }

  lemma PlaceTaken(s: State, t: State)
    requires PlaceInv(s) && s.networkQueue != [] && s.sender == Getting && t.sender != Stopped
    requires t.networkQueue == s.networkQueue[1..] && HeldBySender(t.sender) == s.networkQueue[0]
    requires t.place == if s.networkQueue[0].Some? then s.place[s.networkQueue[0].value := WithSender] else s.place
    requires t.captureQueue == s.captureQueue && t.workers == s.workers && t.nextSequence == s.nextSequence
    requires t.inflight == s.inflight && t.answered == s.answered && t.failed == s.failed
    ensures PlaceInv(t)
  {
    var head := s.networkQueue[0];
    assert HeldBySender(s.sender) == None;
    assert head.Some? ==> Recorded(s, head.value, InNetwork);
    hide HeldBySender;
    forall q | q in t.place ensures q < t.nextSequence && IsAt(t, q, t.place[q]) {
      assert IsAt(s, q, s.place[q]);
      if s.place[q] == InNetwork && Some(q) != head {
        StaysQueued(s.networkQueue, Some(q));
      }
    }
    forall k | 0 <= k < |t.networkQueue| && t.networkQueue[k].Some?
      ensures Recorded(t, t.networkQueue[k].value, InNetwork)
    {
      assert t.networkQueue[k] == s.networkQueue[k + 1] != head;
    }
    hide IsAt, Recorded;
  }

  lemma StaysQueued(queue: seq<Option<nat>>, x: Option<nat>)
    requires x in queue && x != queue[0]
    ensures x in queue[1..]
  {
    assert queue == [queue[0]] + queue[1..];
  }

  lemma PlaceRegistered(s: State, t: State, held: nat)
    requires PlaceInv(s) && HeldBySender(s.sender) == Some(held)
    requires HeldBySender(t.sender) == None && t.sender != Stopped
    requires t.inflight == s.inflight + {held} && t.place == s.place[held := Registered]
    requires t.captureQueue == s.captureQueue && t.workers == s.workers && t.networkQueue == s.networkQueue
    requires t.nextSequence == s.nextSequence && t.answered == s.answered && t.failed == s.failed
    ensures PlaceInv(t)
  {
    assert s.sender != Stopped && Recorded(s, held, WithSender);
    hide HeldBySender;
    forall q | q in t.place ensures q < t.nextSequence && IsAt(t, q, t.place[q]) {
      assert IsAt(s, q, s.place[q]);
    }
    hide IsAt;
  }

  lemma PlaceSender(c: Config, s: State, step: SenderStep)
    requires PlaceInv(s) && SenderEnabled(c, s, step)
    ensures PlaceInv(SenderApply(c, s, step))
  {
    hide PlaceInv, MaySendEof, Transition;
    var t := SenderApply(c, s, step);
    match step
    case Take => PlaceTaken(s, t);
    case Register => PlaceRegistered(s, t, s.sender.sequence);
    case _ =>
      SenderLeavesCapture(c, s, step);
      SenderLeavesHistory(c, s, step);
      PlacesStay(s, t);
  }

  lemma PlaceStep(c: Config, s: State, step: Step)
    requires PlaceInv(s) && Enabled(c, s, step)
    ensures PlaceInv(Apply(c, s, step))
  {
    hide PlaceInv, CaptureEnabled, WorkerEnabled, SenderEnabled, CaptureApply, WorkerApply, SenderApply, HeldBySender;
    match step
    case ByCapture(x) => PlaceCapture(c, s, x);
    case ByWorker(i, x) => PlaceWorker(c, s, i, x);
    case BySender(x) => PlaceSender(c, s, x);
    case ByConsumer(x) => PlaceReply(c, s, x);
    case RaiseStop => PlacesStay(s, Apply(c, s, step));
  }

  /** A reply moves frames between the tables only. */
  lemma PlaceReply(c: Config, s: State, step: ReplyStep)
    requires PlaceInv(s) && ReplyEnabled(c, s, step)
    ensures PlaceInv(ReplyApply(c, s, step))
  {
    hide PlaceInv, ReplyApply, ReplyEnabled;
    ReplyKeepsRegistered(c, s, step);
    ReplyLeavesCapture(c, s, step);
    ReplyLeavesWorkers(c, s, step);
    ReplyLeavesSender(c, s, step);
    PlacesStay(s, ReplyApply(c, s, step));
  }

  lemma ReplyKeepsRegistered(c: Config, s: State, step: ReplyStep)
    requires ReplyEnabled(c, s, step)
    ensures var t := ReplyApply(c, s, step);
            forall q :: q in t.inflight || q in t.answered || q in t.failed
                   <==> q in s.inflight || q in s.answered || q in s.failed
  {
    hide Transition, Clamp, Discard;
  }

  // ---- Invariants: what is on the wire ----

  /** The fragment indices of frame `q` on the wire, in the order they were sent. */
  function FragmentsOf(wire: seq<WireMessage>, q: nat): seq<nat> {
    if wire == [] then []
    else
      var m := wire[|wire| - 1];
      var before := FragmentsOf(wire[..|wire| - 1], q);
      if m.Data? && m.sequence == q then before + [m.index] else before
  }

  function UpTo(n: nat): seq<nat> {
    seq(n, i => i)
  }

  lemma WireGrows(wire: seq<WireMessage>, m: WireMessage, q: nat)
    ensures FragmentsOf(wire + [m], q)
         == if m.Data? && m.sequence == q then FragmentsOf(wire, q) + [m.index] else FragmentsOf(wire, q)
  {
    assert (wire + [m])[..|wire|] == wire;
  }

  /** What must be on the wire of frame `q`, by where it is. A stopped sender may leave one cut short. */
  ghost predicate SentSoFar(c: Config, s: State, q: nat) {
    if q !in s.place then FragmentsOf(s.wire, q) == []
    else
      match s.place[q]
      case Registered => FragmentsOf(s.wire, q) == UpTo(c.fragments(q))
      case WithSender =>
        s.sender == Stopped || FragmentsOf(s.wire, q) == if s.sender.Sending? then UpTo(s.sender.sent) else []
      case _ => FragmentsOf(s.wire, q) == []
  }

  ghost predicate WireInv(c: Config, s: State) {
    forall q: nat :: SentSoFar(c, s, q)
  }

  /** A step that writes nothing and leaves frame `q` where it is, or moves it where nothing is sent. */
  lemma SentStays(c: Config, s: State, t: State, q: nat)
    requires SentSoFar(c, s, q) && t.wire == s.wire
    requires (q in t.place <==> q in s.place) && (q in s.place ==> t.place[q] == s.place[q])
    requires t.sender == s.sender || t.sender == Stopped || (s.sender != Stopped && !s.sender.Sending?
      && (t.sender.Sending? ==> t.sender.sent == 0))
    ensures SentSoFar(c, t, q)
  {
    hide FragmentsOf;
    assert UpTo(0) == [];
  }

  /** Frame `q` moves between places in front of the sender, where nothing of it is sent. */
  lemma SentNothing(c: Config, s: State, t: State, q: nat)
    requires SentSoFar(c, s, q) && t.wire == s.wire
    requires q in s.place ==> s.place[q] != Registered && s.place[q] != WithSender
    requires q in t.place && (t.place[q] == WithSender ==> t.sender.Waiting?) && t.place[q] != Registered
    ensures SentSoFar(c, t, q)
  {
    hide FragmentsOf, UpTo;
  }

  lemma WireFragment(c: Config, s: State, t: State, q: nat)
    requires SentSoFar(c, s, q) && s.sender.Sending? && t.place == s.place
    requires t.wire == s.wire + [Data(s.sender.sequence, s.sender.sent)]
    requires t.sender == Sending(s.sender.sequence, s.sender.sent + 1)
    requires Recorded(s, s.sender.sequence, WithSender) && (q in s.place ==> IsAt(s, q, s.place[q]))
    ensures SentSoFar(c, t, q)
  {
    WireGrows(s.wire, Data(s.sender.sequence, s.sender.sent), q);
    assert UpTo(s.sender.sent + 1) == UpTo(s.sender.sent) + [s.sender.sent];
    hide FragmentsOf, UpTo;
  }

  lemma WireRegister(c: Config, s: State, t: State, q: nat)
    requires SentSoFar(c, s, q) && s.sender.Sending? && s.sender.sent == c.fragments(s.sender.sequence)
    requires t.wire == s.wire && t.sender == AtLoop && t.place == s.place[s.sender.sequence := Registered]
    requires Recorded(s, s.sender.sequence, WithSender) && (q in s.place ==> IsAt(s, q, s.place[q]))
    ensures SentSoFar(c, t, q)
  {
    hide FragmentsOf, UpTo;
  }

  lemma WireEof(c: Config, s: State, t: State, q: nat)
    requires SentSoFar(c, s, q) && s.sender == SendingEof && t.place == s.place
    requires t.wire in {s.wire, s.wire + [Eof]} && t.sender in {AtLoop, Stopped}
    ensures SentSoFar(c, t, q)
  {
    WireGrows(s.wire, Eof, q);
    hide FragmentsOf, UpTo;
  }

  lemma WireTake(c: Config, s: State, q: nat)
    requires PlaceInv(s) && SentSoFar(c, s, q) && SenderEnabled(c, s, Take)
    ensures SentSoFar(c, SenderApply(c, s, Take), q)
  {
    var head := s.networkQueue[0];
    assert head.Some? ==> Recorded(s, head.value, InNetwork);
    assert q in s.place ==> IsAt(s, q, s.place[q]);
    hide PlaceInv, SentSoFar;
    if head == Some(q) {
      SentNothing(c, s, SenderApply(c, s, Take), q);
    } else {
      SentStays(c, s, SenderApply(c, s, Take), q);
    }
  }

  lemma WireSender(c: Config, s: State, step: SenderStep, q: nat)
    requires PlaceInv(s) && SentSoFar(c, s, q) && SenderEnabled(c, s, step)
    ensures SentSoFar(c, SenderApply(c, s, step), q)
  {
    var t := SenderApply(c, s, step);
    var held := HeldBySender(s.sender);
    assert held.Some? ==> Recorded(s, held.value, WithSender);
    assert q in s.place ==> IsAt(s, q, s.place[q]);
    hide PlaceInv, MaySendEof, Transition, SentSoFar, IsAt, Recorded;
    match step
    case SendFragment => WireFragment(c, s, t, q);
    case Register => WireRegister(c, s, t, q);
    case Take => WireTake(c, s, q);
    case EofWritten => WireEof(c, s, t, q);
    case EofFails(_) => WireEof(c, s, t, q);
    case _ => SentStays(c, s, t, q);
  }

  lemma WireWorker(c: Config, s: State, i: nat, step: WorkerStep, q: nat)
    requires PlaceInv(s) && SentSoFar(c, s, q) && WorkerEnabled(c, s, i, step)
    ensures SentSoFar(c, WorkerApply(c, s, i, step), q)
  {
    var t := WorkerApply(c, s, i, step);
    assert s.workers[i].Holding? ==> Recorded(s, s.workers[i].sequence, WithWorker(i));
    assert step.Get? && step.item.Frame? ==> Recorded(s, step.item.sequence, InCapture(step.item));
    hide PlaceInv, SentSoFar, Before;
    if q in s.place && t.place[q] != s.place[q] {
      SentNothing(c, s, t, q);
    } else {
      SentStays(c, s, t, q);
    }
  }

  lemma WireCapture(c: Config, s: State, step: CaptureStep, q: nat)
    requires PlaceInv(s) && SentSoFar(c, s, q) && CaptureEnabled(c, s, step)
    ensures SentSoFar(c, CaptureApply(c, s, step), q)
  {
    assert s.nextSequence !in s.place;
    hide PlaceInv, SentSoFar;
    if step.Accept? && q == s.nextSequence {
      SentNothing(c, s, CaptureApply(c, s, step), q);
    } else {
      SentStays(c, s, CaptureApply(c, s, step), q);
    }
  }

  lemma WireStep(c: Config, s: State, step: Step)
    requires PlaceInv(s) && WireInv(c, s) && Enabled(c, s, step)
    ensures WireInv(c, Apply(c, s, step))
  {
    forall q: nat ensures SentSoFar(c, Apply(c, s, step), q) {
      assert SentSoFar(c, s, q);
      WireStepAt(c, s, step, q);
    }
  }

  lemma WireStepAt(c: Config, s: State, step: Step, q: nat)
    requires PlaceInv(s) && SentSoFar(c, s, q) && Enabled(c, s, step)
    ensures SentSoFar(c, Apply(c, s, step), q)
  {
    hide PlaceInv, SentSoFar, CaptureEnabled, WorkerEnabled, SenderEnabled, ReplyEnabled;
    hide CaptureApply, WorkerApply, SenderApply, ReplyApply;
    match step
    case ByCapture(x) => WireCapture(c, s, x, q);
    case ByWorker(i, x) => WireWorker(c, s, i, x, q);
    case BySender(x) => WireSender(c, s, x, q);
    case ByConsumer(x) =>
      ReplyLeavesSender(c, s, x);
      SentStays(c, s, ReplyApply(c, s, x), q);
    case RaiseStop => SentStays(c, s, Apply(c, s, step), q);
  }

  // ---- Invariants: end of stream ----

  ghost predicate AllAnswered(s: State) {
    forall q :: q in s.place ==> q in s.answered
  }

  ghost predicate EofInv(c: Config, s: State) {
    && (s.failed != {} ==> s.session in {Degraded, Closing})
    && (s.sender == SendingEof || s.eofSent ==> AllAnswered(s))
    && (s.eofSent ==> s.sender in {AtLoop, Getting, Stopped})
    && (forall i :: 0 <= i < |s.wire| && s.wire[i] == Eof ==> i == |s.wire| - 1 && (s.eofSent || s.sender == Stopped))
    && (s.eofSent ==> s.wire != [] && s.wire[|s.wire| - 1] == Eof)
  }

  /** When the tables are empty behind the last sentinel, every accepted frame was answered. */
  lemma DrainedMeansAnswered(c: Config, s: State)
    requires GoodConfig(c) && CaptureInv(c, s) && CountInv(c, s) && PlaceInv(s) && EofInv(c, s)
    requires s.sender == DrainWait && MaySendEof(s)
    ensures forall q :: q in s.place ==> s.place[q] == Registered && q in s.answered
  {
    AllSentinelsCounted(c, s);
    assert s.workers[0] == Finished;
    assert Started(s.workers);
    forall q | q in s.place ensures s.place[q] == Registered && q in s.answered {
      assert IsAt(s, q, s.place[q]);
    }
  }

  /** Nothing about the end of the stream changes; the sender may go on where it has to. */
  lemma EofElsewhere(c: Config, s: State, t: State)
    requires EofInv(c, s) && t.failed == s.failed && t.session == s.session
    requires t.eofSent == s.eofSent && t.wire == s.wire && t.answered == s.answered
    requires (s.sender == SendingEof <==> t.sender == SendingEof) && (s.sender == Stopped ==> t.sender == Stopped)
    requires s.eofSent ==> t.sender in {AtLoop, Getting, Stopped}
    requires s.sender == SendingEof || s.eofSent ==> t.place == s.place
    ensures EofInv(c, t)
  {
  }

  lemma EofFragment(c: Config, s: State, t: State)
    requires EofInv(c, s) && s.sender.Sending? && t.sender.Sending?
    requires t.wire == s.wire + [Data(s.sender.sequence, s.sender.sent)]
    requires t.failed == s.failed && t.session == s.session && t.eofSent == s.eofSent
    ensures EofInv(c, t)
  {
  }

  lemma EofEnds(c: Config, s: State, t: State)
    requires EofInv(c, s) && s.sender == SendingEof && t.place == s.place && t.answered == s.answered
    requires t.failed == s.failed && (s.session in {Degraded, Closing} ==> t.session in {Degraded, Closing})
    requires if t.wire == s.wire then t.sender == Stopped && !t.eofSent
             else t.wire == s.wire + [Eof] && t.sender == if t.eofSent then AtLoop else Stopped
    ensures EofInv(c, t)
  {
  }

  lemma EofSender(c: Config, s: State, step: SenderStep)
    requires GoodConfig(c) && CaptureInv(c, s) && CountInv(c, s) && PlaceInv(s) && EofInv(c, s)
    requires SenderEnabled(c, s, step)
    ensures EofInv(c, SenderApply(c, s, step))
  {
    var t := SenderApply(c, s, step);
    assert s.eofSent ==> s.sender in {AtLoop, Getting, Stopped};
    if step == Drained && MaySendEof(s) {
      EofDecided(c, s);
    } else if step == Take && s.eofSent {
      AllSentinelsCounted(c, s);
    }
    hide PlaceInv, CaptureInv, CountInv, GoodConfig, EofInv;
    match step
    case Drained =>
      if !MaySendEof(s) {
        EofElsewhere(c, s, t);
      }
    case SendFragment => EofFragment(c, s, t);
    case EofWritten => EofEnds(c, s, t);
    case EofFails(_) =>
      assert !s.eofSent;
      EofEnds(c, s, t);
    case _ =>
      hide MaySendEof;
      EofElsewhere(c, s, t);
  }

  lemma EofDecided(c: Config, s: State)
    requires GoodConfig(c) && CaptureInv(c, s) && CountInv(c, s) && PlaceInv(s) && EofInv(c, s)
    requires s.sender == DrainWait && MaySendEof(s)
    ensures EofInv(c, s.(sender := SendingEof))
  {
    DrainedMeansAnswered(c, s);
    hide PlaceInv, CaptureInv, CountInv, GoodConfig, MaySendEof;
  }

  lemma EofAnswered(c: Config, s: State, t: State)
    requires EofInv(c, s) && t.sender == s.sender && t.eofSent == s.eofSent && t.wire == s.wire && t.place == s.place
    requires s.answered <= t.answered && (t.failed != {} ==> t.session in {Degraded, Closing})
    ensures EofInv(c, t)
  {
  }

  lemma EofReply(c: Config, s: State, step: ReplyStep)
    requires EofInv(c, s) && ReplyEnabled(c, s, step)
    ensures EofInv(c, ReplyApply(c, s, step))
  {
    assert s.failed != {} ==> s.session in {Degraded, Closing};
    hide EofInv, ReplyApply, ReplyEnabled;
    FailureShows(c, s, step);
    ReplyLeavesSender(c, s, step);
    EofAnswered(c, s, ReplyApply(c, s, step));
  }

  /** A failed frame has degraded the session, which is not recovered from. */
  lemma FailureShows(c: Config, s: State, step: ReplyStep)
    requires ReplyEnabled(c, s, step) && (s.failed != {} ==> s.session in {Degraded, Closing})
    ensures var t := ReplyApply(c, s, step);
            s.answered <= t.answered && (t.failed != {} ==> t.session in {Degraded, Closing})
  {
    hide ReplyApply, ReplyEnabled;
    OnlyErrorsFail(c, s, step);
    DegradedStays(c, s, step);
  }

  lemma OnlyErrorsFail(c: Config, s: State, step: ReplyStep)
    requires ReplyEnabled(c, s, step)
    ensures var t := ReplyApply(c, s, step); s.answered <= t.answered && (step.ErrorReply? || t.failed == s.failed)
  {
    hide Discard, Clamp, Answers, Transition;
  }

  lemma DegradedStays(c: Config, s: State, step: ReplyStep)
    requires ReplyEnabled(c, s, step)
    ensures s.session in {Degraded, Closing} || step.ErrorReply? ==>
              ReplyApply(c, s, step).session in {Degraded, Closing}
  {
    hide Discard, Clamp, Answers;
  }

  /** Behind the last sentinel no frame is accepted and no worker moves. */
  lemma QuietBehindSentinels(c: Config, s: State, step: Step)
    requires GoodConfig(c) && CaptureInv(c, s) && CountInv(c, s) && s.finished >= c.workers && Enabled(c, s, step)
    ensures !step.ByWorker? && !(step.ByCapture? && step.capture.Accept?)
  {
    AllSentinelsCounted(c, s);
    assert s.workers[0] == Finished;
    assert Started(s.workers);
  }

  lemma EofStep(c: Config, s: State, step: Step)
    requires GoodConfig(c) && CaptureInv(c, s) && CountInv(c, s) && PlaceInv(s) && EofInv(c, s)
    requires Enabled(c, s, step)
    ensures EofInv(c, Apply(c, s, step))
  {
    assert s.eofSent ==> s.sender in {AtLoop, Getting, Stopped};
    if s.sender == SendingEof || s.eofSent {
      QuietBehindSentinels(c, s, step);
    }
    hide PlaceInv, CaptureInv, CountInv, EofInv, CaptureEnabled, WorkerEnabled, SenderEnabled, ReplyEnabled;
    hide CaptureApply, WorkerApply, SenderApply, ReplyApply;
    match step
    case ByCapture(x) =>
      CaptureTouches(c, s, x);
      EofElsewhere(c, s, CaptureApply(c, s, x));
    case ByWorker(i, x) =>
      WorkerTouches(c, s, i, x);
      WorkerLeavesTables(c, s, i, x);
      EofElsewhere(c, s, WorkerApply(c, s, i, x));
    case BySender(x) => EofSender(c, s, x);
    case ByConsumer(x) => EofReply(c, s, x);
    case RaiseStop => EofElsewhere(c, s, Apply(c, s, step));
  }

  // ---- Invariants: what the reorder buffer is told ----

  /** Nothing more will be reported of frame `q`: its table entry is gone, or its skip was handled. */
  predicate Settled(s: State, q: nat) {
    && q in s.place
    && match s.place[q]
       case Registered => q !in s.inflight
       case Lost(_) => q !in s.skipsDue
       case _ => false
  }

  predicate Reported(s: State, q: int) {
    q >= 0 && Settled(s, q)
  }

  ghost predicate Distinctly(reports: seq<R.Event<nat>>) {
    forall i, j :: 0 <= i < j < |reports| ==> reports[i].sequence != reports[j].sequence
  }

  ghost predicate ArrivedIn(reports: seq<R.Event<nat>>, q: int) {
    exists k :: 0 <= k < |reports| && reports[k].Arrived? && reports[k].sequence == q
  }

  /** Every frame is reported at most once, after it was settled; skips due are of lost frames; the
      frames in flight were neither answered nor failed; and the answered frames that could be parsed
      are exactly those reported as arrived. */
  ghost predicate ReportInv(s: State) {
    && Distinctly(s.reports)
    && (forall k :: 0 <= k < |s.reports| ==> Reported(s, s.reports[k].sequence))
    && (forall q :: q in s.skipsDue ==> q in s.place && s.place[q].Lost?)
    && s.inflight !! s.answered && s.inflight !! s.failed
    && (forall q :: q in s.answered ==> q in s.unread || ArrivedIn(s.reports, q))
    && (forall k :: 0 <= k < |s.reports| && s.reports[k].Arrived? ==>
          s.reports[k].sequence >= 0 && var q: nat := s.reports[k].sequence; q in s.answered)
    && (forall q :: q in s.answered || q in s.failed ==> q in s.place && s.place[q] == Registered)
  }

  /** A step that reports nothing and moves no settled or lost frame. */
  lemma ReportsStay(s: State, t: State)
    requires ReportInv(s)
    requires t.reports == s.reports && t.answered == s.answered && t.failed == s.failed && t.unread == s.unread
    requires t.skipsDue == s.skipsDue && t.inflight == s.inflight
    requires forall q :: q in s.place && (s.place[q] == Registered || s.place[q].Lost?)
               ==> q in t.place && t.place[q] == s.place[q]
    ensures ReportInv(t)
  {
    forall k | 0 <= k < |t.reports| ensures Reported(t, t.reports[k].sequence) {
      assert Reported(s, s.reports[k].sequence);
    }
    hide ArrivedIn, Distinctly;
  }

  /** One more report, of a frame not reported before and settled by it. */
  lemma OneReportMore(reports: seq<R.Event<nat>>, e: R.Event<nat>)
    requires Distinctly(reports) && forall k :: 0 <= k < |reports| ==> reports[k].sequence != e.sequence
    ensures Distinctly(reports + [e])
    ensures forall q :: ArrivedIn(reports + [e], q) <==> ArrivedIn(reports, q) || (e.Arrived? && e.sequence == q)
  {
    var longer := reports + [e];
    forall q | ArrivedIn(reports, q) ensures ArrivedIn(longer, q) {
      var k :| 0 <= k < |reports| && reports[k].Arrived? && reports[k].sequence == q;
      assert longer[k] == reports[k];
    }
    assert longer[|reports|] == e;
  }

  lemma NotYetReported(s: State, q: nat)
    requires ReportInv(s) && !Settled(s, q)
    ensures forall k :: 0 <= k < |s.reports| ==> s.reports[k].sequence != q
  {
    forall k | 0 <= k < |s.reports| ensures s.reports[k].sequence != q {
      assert Reported(s, s.reports[k].sequence);
    }
  }

  lemma ReportAnswer(c: Config, s: State, step: ReplyStep)
    requires PlaceInv(s) && ReportInv(s) && ReplyEnabled(c, s, step)
    requires step.DataReply? || step.ErrorReply?
    ensures ReportInv(ReplyApply(c, s, step))
  {
    var t := ReplyApply(c, s, step);
    var q := step.key;
    assert Recorded(s, q, Registered);
    assert t.inflight == s.inflight - {q} && t.skipsDue == s.skipsDue && t.place == s.place;
    NotYetReported(s, q);
    if step.ErrorReply? {
      OneReportMore(s.reports, R.Skipped(q, step.detail));
    } else if step.body.Some? {
      OneReportMore(s.reports, R.Arrived(q, step.body.value));
    }
    hide PlaceInv, ArrivedIn, Distinctly, Transition, Clamp, Discard;
    forall k | 0 <= k < |t.reports| ensures Reported(t, t.reports[k].sequence) {
      assert k < |s.reports| ==> t.reports[k] == s.reports[k] && Reported(s, s.reports[k].sequence);
    }
  }

  lemma ReportSkip(c: Config, s: State, step: ReplyStep)
    requires ReportInv(s) && ReplyEnabled(c, s, step) && step.LocalSkip?
    ensures ReportInv(ReplyApply(c, s, step))
  {
    var t := ReplyApply(c, s, step);
    var q := step.skipped;
    NotYetReported(s, q);
    OneReportMore(s.reports, R.Skipped(q, step.detail));
    hide ArrivedIn, Distinctly;
    forall k | 0 <= k < |t.reports| ensures Reported(t, t.reports[k].sequence) {
      assert k < |s.reports| ==> t.reports[k] == s.reports[k] && Reported(s, s.reports[k].sequence);
    }
  }

  lemma ReportReply(c: Config, s: State, step: ReplyStep)
    requires PlaceInv(s) && ReportInv(s) && ReplyEnabled(c, s, step)
    ensures ReportInv(ReplyApply(c, s, step))
  {
    hide PlaceInv, ReportInv;
    match step
    case DataReply(_, _, _, _, _) => ReportAnswer(c, s, step);
    case ErrorReply(_, _, _, _) => ReportAnswer(c, s, step);
    case LocalSkip(_, _) => ReportSkip(c, s, step);
    case _ => ReportsStay(s, ReplyApply(c, s, step));
  }

  lemma ReportFail(c: Config, s: State, i: nat)
    requires PlaceInv(s) && ReportInv(s) && WorkerEnabled(c, s, i, Fail)
    ensures ReportInv(WorkerApply(c, s, i, Fail))
  {
    var t := WorkerApply(c, s, i, Fail);
    var q := s.workers[i].sequence;
    assert Recorded(s, q, WithWorker(i));
    NotYetReported(s, q);
    hide PlaceInv, ArrivedIn, Distinctly;
    forall k | 0 <= k < |t.reports| ensures Reported(t, t.reports[k].sequence) {
      assert Reported(s, s.reports[k].sequence);
    }
  }

  lemma ReportWorker(c: Config, s: State, i: nat, step: WorkerStep)
    requires PlaceInv(s) && ReportInv(s) && WorkerEnabled(c, s, i, step)
    ensures ReportInv(WorkerApply(c, s, i, step))
  {
    if step == Fail {
      ReportFail(c, s, i);
    } else {
      assert s.workers[i].Holding? ==> Recorded(s, s.workers[i].sequence, WithWorker(i));
      assert step.Get? && step.item.Frame? ==> Recorded(s, step.item.sequence, InCapture(step.item));
      hide PlaceInv, ReportInv, Before;
      ReportsStay(s, WorkerApply(c, s, i, step));
    }
  }

  lemma ReportRegister(c: Config, s: State)
    requires PlaceInv(s) && ReportInv(s) && SenderEnabled(c, s, Register)
    ensures ReportInv(SenderApply(c, s, Register))
  {
    var t := SenderApply(c, s, Register);
    var q := s.sender.sequence;
    assert HeldBySender(s.sender) == Some(q) && Recorded(s, q, WithSender);
    NotYetReported(s, q);
    hide PlaceInv, ArrivedIn, Distinctly;
    forall k | 0 <= k < |t.reports| ensures Reported(t, t.reports[k].sequence) {
      assert Reported(s, s.reports[k].sequence);
    }
  }

  lemma ReportSender(c: Config, s: State, step: SenderStep)
    requires PlaceInv(s) && ReportInv(s) && SenderEnabled(c, s, step)
    ensures ReportInv(SenderApply(c, s, step))
  {
    if step == Register {
      ReportRegister(c, s);
    } else {
      assert step == Take && s.networkQueue[0].Some? ==> Recorded(s, s.networkQueue[0].value, InNetwork);
      hide PlaceInv, ReportInv, MaySendEof, Transition;
      ReportsStay(s, SenderApply(c, s, step));
    }
  }

  lemma ReportCapture(c: Config, s: State, step: CaptureStep)
    requires PlaceInv(s) && ReportInv(s) && CaptureEnabled(c, s, step)
    ensures ReportInv(CaptureApply(c, s, step))
  {
    assert s.nextSequence !in s.place;
    hide PlaceInv, ReportInv;
    ReportsStay(s, CaptureApply(c, s, step));
  }

  lemma ReportStep(c: Config, s: State, step: Step)
    requires PlaceInv(s) && ReportInv(s) && Enabled(c, s, step)
    ensures ReportInv(Apply(c, s, step))
  {
    hide PlaceInv, ReportInv, CaptureEnabled, WorkerEnabled, SenderEnabled, ReplyEnabled;
    hide CaptureApply, WorkerApply, SenderApply, ReplyApply;
    match step
    case ByCapture(x) => ReportCapture(c, s, x);
    case ByWorker(i, x) => ReportWorker(c, s, i, x);
    case BySender(x) => ReportSender(c, s, x);
    case ByConsumer(x) => ReportReply(c, s, x);
    case RaiseStop => ReportsStay(s, Apply(c, s, step));
  }

  /** While the stop event is unset, no sequence was drawn without its frame being accepted. */
  ghost predicate DrawnInv(c: Config, s: State) {
    && c.first <= s.nextSequence
    && (forall q :: q in s.place ==> c.first <= q)
    && (s.stop || forall q: nat :: c.first <= q < s.nextSequence ==> q in s.place)
  }

  lemma WorkerKeepsPlaces(c: Config, s: State, i: nat, step: WorkerStep)
    requires PlaceInv(s) && WorkerEnabled(c, s, i, step)
    ensures WorkerApply(c, s, i, step).place.Keys == s.place.Keys
  {
    assert s.workers[i].Holding? ==> Recorded(s, s.workers[i].sequence, WithWorker(i));
    assert step.Get? && step.item.Frame? ==> Recorded(s, step.item.sequence, InCapture(step.item));
    hide PlaceInv, Before;
  }

  lemma SenderKeepsPlaces(c: Config, s: State, step: SenderStep)
    requires PlaceInv(s) && SenderEnabled(c, s, step)
    ensures SenderApply(c, s, step).place.Keys == s.place.Keys
  {
    assert step == Take && s.networkQueue[0].Some? ==> Recorded(s, s.networkQueue[0].value, InNetwork);
    assert HeldBySender(s.sender).Some? ==> Recorded(s, HeldBySender(s.sender).value, WithSender);
    hide PlaceInv, MaySendEof, Transition;
  }

  lemma DrawnElsewhere(c: Config, s: State, t: State)
    requires DrawnInv(c, s) && t.place.Keys == s.place.Keys && t.nextSequence == s.nextSequence
    requires s.stop ==> t.stop
    ensures DrawnInv(c, t)
  {
    assert forall q :: q in t.place <==> q in s.place.Keys;
  }

  lemma DrawnCapture(c: Config, s: State, step: CaptureStep)
    requires DrawnInv(c, s) && CaptureEnabled(c, s, step)
    ensures DrawnInv(c, CaptureApply(c, s, step))
  {
  }

  lemma DrawnStep(c: Config, s: State, step: Step)
    requires PlaceInv(s) && DrawnInv(c, s) && Enabled(c, s, step)
    ensures DrawnInv(c, Apply(c, s, step))
  {
    hide PlaceInv, DrawnInv, CaptureEnabled, WorkerEnabled, SenderEnabled, ReplyEnabled;
    hide CaptureApply, WorkerApply, SenderApply, ReplyApply;
    match step
    case ByCapture(x) => DrawnCapture(c, s, x);
    case ByWorker(i, x) =>
      WorkerKeepsPlaces(c, s, i, x);
      WorkerTouches(c, s, i, x);
      DrawnElsewhere(c, s, WorkerApply(c, s, i, x));
    case BySender(x) =>
      SenderKeepsPlaces(c, s, x);
      SenderLeavesCapture(c, s, x);
      SenderLeavesHistory(c, s, x);
      DrawnElsewhere(c, s, SenderApply(c, s, x));
    case ByConsumer(x) =>
      ReplyLeavesCapture(c, s, x);
      ReplyLeavesSender(c, s, x);
      DrawnElsewhere(c, s, ReplyApply(c, s, x));
    case RaiseStop => DrawnElsewhere(c, s, Apply(c, s, step));
  }

  // ---- Whole runs ----

  ghost predicate Inv(c: Config, s: State) {
    WindowInv(c, s) && CaptureInv(c, s) && CountInv(c, s) && PlaceInv(s) && WireInv(c, s) && EofInv(c, s)
    && ReportInv(s) && DrawnInv(c, s)
  }

  lemma {:induction false} InitHolds(c: Config, s: State)
    requires GoodConfig(c) && Init(c, s)
    ensures Inv(c, s)
  {
    assert |s.acksPending| == 0;
    assert forall i :: 0 <= i < |s.workers| ==> s.workers[i] == Idle;
    CountNone(s.workers, Finished);
  }

  lemma StepKeepsInv(c: Config, s: State, step: Step)
    requires GoodConfig(c) && Inv(c, s) && Enabled(c, s, step)
    ensures Inv(c, Apply(c, s, step))
  {
    hide WindowInv, CaptureInv, CountInv, PlaceInv, WireInv, EofInv, ReportInv, DrawnInv, Enabled, Apply;
    WindowStep(c, s, step);
    CaptureInvStep(c, s, step);
    CountStep(c, s, step);
    PlaceStep(c, s, step);
    WireStep(c, s, step);
    EofStep(c, s, step);
    ReportStep(c, s, step);
    DrawnStep(c, s, step);
  }

  lemma {:induction false} RunKeepsInv(c: Config, run: seq<State>, steps: seq<Step>, i: nat)
    requires GoodConfig(c) && IsRun(c, run, steps) && i < |run|
    ensures Inv(c, run[i])
  {
    hide Inv, Enabled, Apply, Init;
    if i == 0 {
      InitHolds(c, run[0]);
    } else {
      RunKeepsInv(c, run, steps, i - 1);
      assert Moves(c, run[i - 1], steps[i - 1], run[i]);
      StepKeepsInv(c, run[i - 1], steps[i - 1]);
    }
  }

  /** EOF safety. In every run, when the sender decides to send EOF, every frame ever accepted into
      the capture queue has all its fragments on the wire, each once and in order, and has been
      answered by a DATA reply. */
  lemma EofOnlyAfterEverythingAnswered(c: Config, run: seq<State>, steps: seq<Step>, i: nat)
    requires GoodConfig(c) && IsRun(c, run, steps) && i < |steps|
    requires steps[i] == BySender(Drained) && run[i + 1].sender == SendingEof
    ensures forall q :: q in run[i].place ==>
              q in run[i].answered && FragmentsOf(run[i].wire, q) == UpTo(c.fragments(q))
    ensures run[i].networkQueue == [] && run[i].inflight == {} && run[i].acksPending == {}
    ensures forall q :: q !in run[i].place ==> FragmentsOf(run[i].wire, q) == []
  {
    var s := run[i];
    RunKeepsInv(c, run, steps, i);
    assert Moves(c, s, steps[i], run[i + 1]);
    DrainedMeansAnswered(c, s);
    AllSentinelsCounted(c, s);
    forall q: nat
      ensures FragmentsOf(s.wire, q) == if q in s.place then UpTo(c.fragments(q)) else []
    {
      assert SentSoFar(c, s, q);
    }
  }

  /** In every state of every run EOF is the last message on the wire, if it is there: neither DATA
      nor a second EOF follows it. */
  lemma NothingFollowsEof(c: Config, run: seq<State>, steps: seq<Step>, i: nat)
    requires GoodConfig(c) && IsRun(c, run, steps) && i < |run|
    ensures forall j :: 0 <= j < |run[i].wire| && run[i].wire[j] == Eof ==> j == |run[i].wire| - 1
  {
    RunKeepsInv(c, run, steps, i);
  }

  /** Window safety. In every state of every run the unacknowledged frames are in flight; they are at
      most the maximum while the stop event is unset and at most one more for the whole run, however
      the adaptive limit moves between the window check and the registration. */
  lemma WindowIsRespected(c: Config, run: seq<State>, steps: seq<Step>, i: nat)
    requires GoodConfig(c) && IsRun(c, run, steps) && i < |run|
    ensures run[i].acksPending <= run[i].inflight
    ensures !run[i].stop ==> |run[i].acksPending| <= c.maxLimit
    ensures |run[i].acksPending| <= c.maxLimit + 1
  {
    RunKeepsInv(c, run, steps, i);
  }

  /** In every run no frame is reported twice to the reorder buffer, as arrived or as skipped. */
  lemma RunReportsOnce(c: Config, run: seq<State>, steps: seq<Step>, i: nat)
    requires GoodConfig(c) && IsRun(c, run, steps) && i < |run|
    ensures R.ReportedOnce(run[i].reports)
  {
    RunKeepsInv(c, run, steps, i);
    var reports := run[i].reports;
    forall k | 0 <= k < |reports| ensures reports[k].sequence >= 0 {
      assert Reported(run[i], reports[k].sequence);
    }
  }

  /** When the sender decides to send EOF, the frames accepted are exactly those from the first of the
      session to the last drawn, and if every DATA reply could be parsed, exactly these were reported,
      all of them as arrived. */
  lemma EofReportsEverything(c: Config, run: seq<State>, steps: seq<Step>, i: nat)
    requires GoodConfig(c) && IsRun(c, run, steps) && i < |steps|
    requires steps[i] == BySender(Drained) && run[i + 1].sender == SendingEof
    ensures forall q: nat :: q in run[i].place <==> c.first <= q < run[i].nextSequence
    ensures run[i].unread == {} ==>
              && (forall k :: 0 <= k < |run[i].reports| ==> run[i].reports[k].Arrived?)
              && (forall q :: c.first <= q < run[i].nextSequence ==> ArrivedIn(run[i].reports, q))
              && (forall k :: 0 <= k < |run[i].reports| ==>
                    c.first <= run[i].reports[k].sequence < run[i].nextSequence)
  {
    var s := run[i];
    EofOnlyAfterEverythingAnswered(c, run, steps, i);
    RunKeepsInv(c, run, steps, i);
    assert Moves(c, s, steps[i], run[i + 1]);
    assert !s.stop;
    assert forall q: nat :: q in s.place <==> c.first <= q < s.nextSequence;
    if s.unread == {} {
      hide WindowInv, CaptureInv, CountInv, PlaceInv, WireInv, EofInv;
      forall k | 0 <= k < |s.reports|
        ensures s.reports[k].Arrived? && c.first <= s.reports[k].sequence < s.nextSequence
      {
        var q := s.reports[k].sequence;
        assert Reported(s, q);
        var n: nat := q;
        assert n in s.place && n in s.answered && ArrivedIn(s.reports, n);
        var j :| 0 <= j < |s.reports| && s.reports[j].Arrived? && s.reports[j].sequence == n;
        assert j == k;
      }
      forall q | c.first <= q < s.nextSequence ensures ArrivedIn(s.reports, q) {
        var n: nat := q;
        assert n in s.place && n in s.answered;
      }
    }
  }

  /** The frames whose last fragment is on the wire, in the order it was written. */
  function CompleteFrames(c: Config, wire: seq<WireMessage>): seq<nat> {
    if wire == [] then []
    else
      var m := wire[|wire| - 1];
      CompleteFrames(c, wire[..|wire| - 1])
      + if m.Data? && m.index + 1 == c.fragments(m.sequence) then [m.sequence] else []
  }

  lemma {:induction false} CompleteIsLastFragment(c: Config, wire: seq<WireMessage>, q: nat)
    requires c.fragments(q) >= 1
    ensures Count(CompleteFrames(c, wire), q) == Count(FragmentsOf(wire, q), c.fragments(q) - 1)
  {
    if wire != [] {
      var m := wire[|wire| - 1];
      CompleteIsLastFragment(c, wire[..|wire| - 1], q);
      var before := CompleteFrames(c, wire[..|wire| - 1]);
      assert before + [] == before;
      if m.Data? {
        CountAppend(before, m.sequence, q);
        CountAppend(FragmentsOf(wire[..|wire| - 1], q), m.index, c.fragments(q) - 1);
      }
      hide Count;
    }
  }

  lemma {:induction false} UpToCounts(n: nat, x: nat)
    ensures Count(UpTo(n), x) == One(x < n)
  {
    if n > 0 {
      UpToCounts(n - 1, x);
      assert UpTo(n) == UpTo(n - 1) + [n - 1];
      CountAppend(UpTo(n - 1), n - 1, x);
      hide Count;
    }
  }

  lemma CompletedWhenSent(c: Config, wire: seq<WireMessage>, q: nat, sent: bool)
    requires c.fragments(q) >= 1 && FragmentsOf(wire, q) == if sent then UpTo(c.fragments(q)) else []
    ensures Count(CompleteFrames(c, wire), q) == One(sent)
  {
    hide FragmentsOf, CompleteFrames, UpTo;
    CompleteIsLastFragment(c, wire, q);
    if sent {
      assert FragmentsOf(wire, q) == UpTo(c.fragments(q));
      UpToCounts(c.fragments(q), c.fragments(q) - 1);
    } else {
      CountNone(FragmentsOf(wire, q), c.fragments(q) - 1);
    }
  }

  /** When the sender decides to send EOF, each frame of the session was completed on the wire once. */
  lemma EofCompletesEverything(c: Config, run: seq<State>, steps: seq<Step>, i: nat, q: nat)
    requires GoodConfig(c) && IsRun(c, run, steps) && i < |steps|
    requires steps[i] == BySender(Drained) && run[i + 1].sender == SendingEof
    ensures Count(CompleteFrames(c, run[i].wire), q) == One(c.first <= q < run[i].nextSequence)
  {
    hide FragmentsOf, CompleteFrames, UpTo, Count;
    EofOnlyAfterEverythingAnswered(c, run, steps, i);
    EofReportsEverything(c, run, steps, i);
    CompletedWhenSent(c, run[i].wire, q, q in run[i].place);
  }
}
