/** nodes/stream_client.py: what the state of the client pipeline says about the steps that led to it. */
module ClientHistory {
  import opened Common
  import opened ClientPipeline
  import R = Reorder

  // ---- The tables of the window ----

  /** The step registers frame `q`, which the sender has sent in full. */
  predicate Registers(s: State, step: Step, q: nat) {
    step == BySender(Register) && HeldBySender(s.sender) == Some(q)
  }

  /** The step brings the consumer an answer that takes `q` out of the unacknowledged frames: its ACK,
      a reply that names it or removes its entry, its skip, or the clearing of the whole table. */
  predicate Frees(step: Step, q: nat) {
    && step.ByConsumer?
    && match step.reply
       case Ack(acked, _, _) => acked == q
       case DataReply(header, _, key, _, _) => key == q || header == Some(q)
       case ErrorReply(header, _, key, _) => key == q || header == Some(q)
       case UnknownReply(header) => header == Some(q)
       case LocalSkip(skipped, _) => skipped == q
       case ClearAcks => true
       case _ => false
  }

  predicate Answers(step: Step, q: nat) {
    step.ByConsumer? && step.reply.DataReply? && step.reply.key == q
  }

  predicate Fails(step: Step, q: nat) {
    step.ByConsumer? && step.reply.ErrorReply? && step.reply.key == q
  }

  lemma SenderTables(c: Config, s: State, step: SenderStep)
    requires SenderEnabled(c, s, step)
    ensures var t := SenderApply(c, s, step);
            && (step != Register ==> t.acksPending == s.acksPending && t.inflight == s.inflight)
            && (step == Register ==>
                  && s.sender.Sending?
                  && t.acksPending == s.acksPending + {s.sender.sequence}
                  && t.inflight == s.inflight + {s.sender.sequence})
  {
    hide MaySendEof, Transition;
  }

  lemma ReplyTables(c: Config, s: State, step: ReplyStep, q: nat)
    requires ReplyEnabled(c, s, step)
    ensures var t, x := ReplyApply(c, s, step), ByConsumer(step);
            && (q in t.acksPending <==> q in s.acksPending && !Frees(x, q))
            && (q in t.inflight <==> q in s.inflight && !Answers(x, q) && !Fails(x, q))
  {
    hide Transition, Clamp, ClientPipeline.Answers;
    match step
    case Ack(_, _, _) =>
    case DataReply(_, _, _, _, _) =>
    case ErrorReply(_, _, _, _) =>
    case _ =>
  }

  lemma TablesStep(c: Config, s: State, step: Step, q: nat)
    requires Enabled(c, s, step)
    ensures var t := Apply(c, s, step);
            && (q in t.acksPending <==> Registers(s, step, q) || (q in s.acksPending && !Frees(step, q)))
            && (q in t.inflight <==>
                Registers(s, step, q) || (q in s.inflight && !Answers(step, q) && !Fails(step, q)))
  {
    hide CaptureEnabled, WorkerEnabled, ReplyEnabled, CaptureApply, WorkerApply, SenderApply, ReplyApply;
    match step
    case ByConsumer(x) => ReplyTables(c, s, x, q);
    case ByWorker(i, x) => WorkerLeavesTables(c, s, i, x);
    case ByCapture(x) => CaptureTouches(c, s, x);
    case BySender(x) => SenderTables(c, s, x);
    case RaiseStop =>
  }

  /** In every run a frame is unacknowledged exactly when it was registered and nothing that frees it
      has come since, and in flight exactly when no reply has removed it since. So each ACK makes room. */
  lemma {:induction false} UnacknowledgedIff(c: Config, run: seq<State>, steps: seq<Step>, i: nat, q: nat)
    requires IsRun(c, run, steps) && i < |run|
    ensures q in run[i].acksPending <==>
            Since(run, steps, (s, x) => Registers(s, x, q), (s, x) => Frees(x, q), i)
    ensures q in run[i].inflight <==>
            Since(run, steps, (s, x) => Registers(s, x, q), (s, x) => Answers(x, q) || Fails(x, q), i)
  {
    hide Enabled, Apply, Since;
    NothingYet(run, steps);
    if i == 0 {
      NothingHeldYet(c, run[0]);
    } else {
      UnacknowledgedIff(c, run, steps, i - 1, q);
      SinceStep(run, steps, (s, x) => Registers(s, x, q), (s, x) => Frees(x, q), i - 1);
      SinceStep(run, steps, (s, x) => Registers(s, x, q), (s, x) => Answers(x, q) || Fails(x, q), i - 1);
      assert Moves(c, run[i - 1], steps[i - 1], run[i]);
      TablesStep(c, run[i - 1], steps[i - 1], q);
      hide IsRun, Registers, Frees, Answers, Fails;
    }
  }

  lemma NothingHeldYet(c: Config, s: State)
    requires Init(c, s)
    ensures s.acksPending == {} && s.inflight == {} && s.skipsDue == {} && s.captureQueue == {}
  {
  }

  // ---- The limit of the window ----

  /** What the adaptive window computes at a step: at the ACK of a frame in flight or at a DATA reply, if
      at all. */
  function Computed(s: State, step: Step): Option<int> {
    if !step.ByConsumer? then None
    else
      match step.reply
      case Ack(q, target, _) => if q in s.inflight then target else None
      case DataReply(_, _, _, target, _) => target
      case _ => None
  }

  /** `limit` is `target`, moved into 1..max. */
  predicate IsCut(c: Config, limit: int, target: int) {
    && 1 <= limit <= c.maxLimit
    && (1 <= target <= c.maxLimit ==> limit == target)
    && (target < 1 ==> limit == 1) && (target > c.maxLimit ==> limit == c.maxLimit)
  }

  lemma LimitStep(c: Config, s: State, step: Step)
    requires GoodConfig(c) && Enabled(c, s, step)
    ensures var t := Apply(c, s, step);
            if Computed(s, step) == None then t.limit == s.limit else IsCut(c, t.limit, Computed(s, step).value)
  {
    hide CaptureEnabled, WorkerEnabled, SenderEnabled, CaptureApply, WorkerApply, SenderApply;
    match step
    case ByConsumer(x) => LimitReply(c, s, x);
    case ByWorker(i, x) => WorkerLeavesTables(c, s, i, x);
    case ByCapture(x) => CaptureTouches(c, s, x);
    case BySender(x) => LimitSender(c, s, x);
    case RaiseStop =>
  }

  lemma LimitReply(c: Config, s: State, step: ReplyStep)
    requires GoodConfig(c) && ReplyEnabled(c, s, step)
    ensures var t, x := ReplyApply(c, s, step), Computed(s, ByConsumer(step));
            if x == None then t.limit == s.limit else IsCut(c, t.limit, x.value)
  {
    hide Transition, Discard, ClientPipeline.Answers;
  }

  lemma LimitSender(c: Config, s: State, step: SenderStep)
    requires SenderEnabled(c, s, step)
    ensures SenderApply(c, s, step).limit == s.limit
  {
    hide MaySendEof, Transition;
  }

  /** The limit is the last target computed, moved into 1..max: a target within these bounds becomes the
      limit. Until one is computed it stays as it was. */
  lemma {:induction false} LimitIsLastTarget(c: Config, run: seq<State>, steps: seq<Step>, j: nat, i: nat)
    requires GoodConfig(c) && IsRun(c, run, steps) && j <= i < |run|
    requires forall k :: j < k < i ==> Computed(run[k], steps[k]) == None
    ensures j < i ==>
              if Computed(run[j], steps[j]) == None then run[i].limit == run[j].limit
              else IsCut(c, run[i].limit, Computed(run[j], steps[j]).value)
  {
    hide Enabled, Apply, GoodConfig, Computed, IsCut;
    if j < i {
      LimitIsLastTarget(c, run, steps, j, i - 1);
      assert Moves(c, run[i - 1], steps[i - 1], run[i]);
      LimitStep(c, run[i - 1], steps[i - 1]);
      hide IsRun;
    }
  }

  // ---- The stop event, the session and the control plane ----

  /** An ACK the control plane does not expect, of a frame in flight. */
  predicate BreaksPlane(s: State, step: Step) {
    step.ByConsumer? && step.reply.Ack? && step.reply.acked in s.inflight && step.reply.unknown
  }

  predicate TimesOut(step: Step, fatal: bool) {
    step.ByConsumer? && step.reply == AckTimeout(fatal)
  }

  predicate SetsStop(s: State, step: Step) {
    || step == RaiseStop || BreaksPlane(s, step) || TimesOut(step, true)
    || (step.ByConsumer? && (step.reply.ErrorReply? || step.reply.ServerEof?))
    || (step.BySender? && (step.send == SendFails || step.send.EofFails?))
    || (step == BySender(Admitted) && s.session == Degraded)
  }

  predicate EndsPlane(s: State, step: Step) {
    || BreaksPlane(s, step) || TimesOut(step, true)
    || (step.ByConsumer? && (step.reply.ErrorReply? || step.reply == Degrade(true) || step.reply == ServerEof(true)))
  }

  predicate Closes(step: Step) {
    || (step.ByConsumer? && step.reply.ServerEof?)
    || (step.BySender? && (step.send == EofWritten || step.send == EofFails(true)))
  }

  predicate Degrades(step: Step) {
    TimesOut(step, true) || (step.ByConsumer? && (step.reply.ErrorReply? || step.reply.Degrade?))
  }

  predicate Recovers(s: State, step: Step) {
    step.ByConsumer? && step.reply.Ack? && step.reply.acked in s.inflight
  }

  predicate SameStatus(s: State, t: State) {
    && t.stop == s.stop && t.session == s.session && t.accepting == s.accepting
    && t.answered == s.answered && t.failed == s.failed && t.unread == s.unread && t.reports == s.reports
  }

  lemma CaptureLeavesStatus(c: Config, s: State, step: CaptureStep)
    requires CaptureEnabled(c, s, step)
    ensures SameStatus(s, CaptureApply(c, s, step)) && CaptureApply(c, s, step).skipsDue == s.skipsDue
  {
  }

  lemma WorkerLeavesStatus(c: Config, s: State, i: nat, step: WorkerStep)
    requires WorkerEnabled(c, s, i, step)
    ensures SameStatus(s, WorkerApply(c, s, i, step))
    ensures WorkerApply(c, s, i, step).skipsDue ==
              if step == Fail && s.workers[i].Holding? then s.skipsDue + {s.workers[i].sequence} else s.skipsDue
  {
    hide Before;
  }

  lemma SenderLeavesRecords(c: Config, s: State, step: SenderStep)
    requires SenderEnabled(c, s, step)
    ensures var t := SenderApply(c, s, step);
            && t.accepting == s.accepting && t.skipsDue == s.skipsDue && t.answered == s.answered
            && t.failed == s.failed && t.unread == s.unread && t.reports == s.reports
  {
    hide MaySendEof, Transition, SenderEnabled;
    match step
    case Take =>
    case Admitted =>
    case _ =>
  }

  lemma StopReply(c: Config, s: State, step: ReplyStep)
    requires ReplyEnabled(c, s, step)
    ensures var t := ReplyApply(c, s, step);
            && (t.stop <==> s.stop || SetsStop(s, ByConsumer(step)))
            && (t.accepting <==> s.accepting && !EndsPlane(s, ByConsumer(step)))
  {
    hide Transition, Clamp, Discard, ClientPipeline.Answers;
  }

  lemma StopSender(c: Config, s: State, step: SenderStep)
    requires SenderEnabled(c, s, step)
    ensures SenderApply(c, s, step).stop <==> s.stop || SetsStop(s, BySender(step))
  {
    hide Transition, MaySendEof;
  }

  lemma StopStep(c: Config, s: State, step: Step)
    requires Enabled(c, s, step)
    ensures var t := Apply(c, s, step);
            && (t.stop <==> s.stop || SetsStop(s, step))
            && (t.accepting <==> s.accepting && !EndsPlane(s, step))
  {
    hide CaptureApply, WorkerApply, SenderApply, ReplyApply;
    hide CaptureEnabled, WorkerEnabled, SenderEnabled, ReplyEnabled;
    match step
    case ByCapture(x) => CaptureLeavesStatus(c, s, x);
    case ByWorker(i, x) => WorkerLeavesStatus(c, s, i, x);
    case BySender(x) =>
      StopSender(c, s, x);
      SenderLeavesRecords(c, s, x);
    case ByConsumer(x) => StopReply(c, s, x);
    case RaiseStop =>
  }

  /** What a step makes of the session. */
  predicate SessionGoes(s: State, step: Step, session: Session) {
    && (session == Closing <==> s.session == Closing || Closes(step))
    && (session == Degraded <==> session != Closing && (s.session == Degraded || Degrades(step)))
    && (session == SoftDegraded <==>
        && session != Closing && session != Degraded
        && (TimesOut(step, false) || (s.session == SoftDegraded && !Recovers(s, step))))
  }

  lemma SessionReply(c: Config, s: State, step: ReplyStep)
    requires ReplyEnabled(c, s, step)
    ensures SessionGoes(s, ByConsumer(step), ReplyApply(c, s, step).session)
  {
    hide Clamp, Discard, ClientPipeline.Answers;
    match step
    case Ack(_, _, _) =>
    case ErrorReply(_, _, _, _) =>
    case AckTimeout(_) =>
    case Degrade(_) =>
    case ServerEof(_) =>
    case _ => assert ReplyApply(c, s, step).session == s.session;
  }

  lemma SessionSender(c: Config, s: State, step: SenderStep)
    requires SenderEnabled(c, s, step)
    ensures SessionGoes(s, BySender(step), SenderApply(c, s, step).session)
  {
    hide MaySendEof;
    match step
    case EofWritten =>
    case EofFails(_) =>
    case _ => assert SenderApply(c, s, step).session == s.session;
  }

  lemma SessionStep(c: Config, s: State, step: Step)
    requires Enabled(c, s, step)
    ensures SessionGoes(s, step, Apply(c, s, step).session)
  {
    hide CaptureApply, WorkerApply, SenderApply, ReplyApply;
    hide CaptureEnabled, WorkerEnabled, SenderEnabled, ReplyEnabled;
    match step
    case ByCapture(x) => CaptureLeavesStatus(c, s, x);
    case ByWorker(i, x) => WorkerLeavesStatus(c, s, i, x);
    case BySender(x) => SessionSender(c, s, x);
    case ByConsumer(x) => SessionReply(c, s, x);
    case RaiseStop =>
  }

  /** The stop event is set, and the control plane has failed or terminated, exactly when one of the
      steps that do so has come; neither is undone. */
  lemma {:induction false} StopIsSetIff(c: Config, run: seq<State>, steps: seq<Step>, i: nat)
    requires IsRun(c, run, steps) && i < |run|
    ensures run[i].stop <==> Ever(run, steps, (s, x) => SetsStop(s, x), i)
    ensures !run[i].accepting <==> Ever(run, steps, (s, x) => EndsPlane(s, x), i)
  {
    hide Enabled, Apply, Ever;
    NothingYet(run, steps);
    if i > 0 {
      StopIsSetIff(c, run, steps, i - 1);
      EverStep(run, steps, (s, x) => SetsStop(s, x), i - 1);
      EverStep(run, steps, (s, x) => EndsPlane(s, x), i - 1);
      assert Moves(c, run[i - 1], steps[i - 1], run[i]);
      StopStep(c, run[i - 1], steps[i - 1]);
      hide IsRun, SetsStop, EndsPlane;
    }
  }

  /** The session is CLOSING once a step has closed it, else DEGRADED once a step has degraded it, else
      SOFT_DEGRADED from a first ACK time-out to the next ACK of a frame in flight. */
  lemma {:induction false} SessionIs(c: Config, run: seq<State>, steps: seq<Step>, i: nat)
    requires IsRun(c, run, steps) && i < |run|
    ensures var closed := Ever(run, steps, (_, x) => Closes(x), i);
            var degraded := Ever(run, steps, (_, x) => Degrades(x), i);
            var soft := Since(run, steps, (_, x) => TimesOut(x, false), (s, x) => Recovers(s, x), i);
            run[i].session ==
              if closed then Closing else if degraded then Degraded else if soft then SoftDegraded else Healthy
  {
    hide Enabled, Apply, Ever, Since;
    NothingYet(run, steps);
    if i > 0 {
      SessionIs(c, run, steps, i - 1);
      EverStep(run, steps, (_, x) => Closes(x), i - 1);
      EverStep(run, steps, (_, x) => Degrades(x), i - 1);
      SinceStep(run, steps, (_, x) => TimesOut(x, false), (s, x) => Recovers(s, x), i - 1);
      assert Moves(c, run[i - 1], steps[i - 1], run[i]);
      SessionStep(c, run[i - 1], steps[i - 1]);
      hide IsRun, Closes, Degrades, Recovers, TimesOut;
    }
  }

  /** The sender ends: it sees the stop event, a write fails, the session is DEGRADED when it is let
      through, or the control plane does not take its frame. */
  predicate StopsSender(s: State, step: Step) {
    step.BySender?
    && ((step.send == Loop && s.stop) || step.send == GiveUp || step.send == SendFails || step.send.EofFails?
        || (step.send == Admitted && (s.session == Degraded || !s.accepting)))
  }

  lemma SenderStopStep(c: Config, s: State, step: Step)
    requires Enabled(c, s, step)
    ensures Apply(c, s, step).sender == Stopped <==> s.sender == Stopped || StopsSender(s, step)
  {
    hide CaptureApply, WorkerApply, ReplyApply, CaptureEnabled, WorkerEnabled, ReplyEnabled, Transition;
    match step
    case ByCapture(x) => CaptureTouches(c, s, x);
    case ByWorker(i, x) => WorkerTouches(c, s, i, x);
    case BySender(x) =>
    case ByConsumer(x) => ReplyLeavesSender(c, s, x);
    case RaiseStop =>
  }

  /** The sender has ended exactly after one of these steps. */
  lemma {:induction false} SenderStopsIff(c: Config, run: seq<State>, steps: seq<Step>, i: nat)
    requires IsRun(c, run, steps) && i < |run|
    ensures run[i].sender == Stopped <==> Ever(run, steps, (s, x) => StopsSender(s, x), i)
  {
    hide Enabled, Apply, Ever;
    NothingYet(run, steps);
    if i > 0 {
      SenderStopsIff(c, run, steps, i - 1);
      EverStep(run, steps, (s, x) => StopsSender(s, x), i - 1);
      assert Moves(c, run[i - 1], steps[i - 1], run[i]);
      SenderStopStep(c, run[i - 1], steps[i - 1]);
      hide IsRun, StopsSender;
    }
  }

  // ---- What the consumer has recorded ----

  /** The step tells the reorder buffer `e`: a DATA reply that could be parsed, an ERROR reply or a skip. */
  predicate Tells(step: Step, e: R.Event<nat>) {
    && step.ByConsumer?
    && match step.reply
       case DataReply(_, _, key, _, body) => body.Some? && e == R.Arrived(key, body.value)
       case ErrorReply(_, _, key, detail) => e == R.Skipped(key, detail)
       case LocalSkip(q, detail) => e == R.Skipped(q, detail)
       case _ => false
  }

  predicate Unreadable(step: Step, q: nat) {
    Answers(step, q) && step.reply.body == None
  }

  /** A worker could not encode `q`. */
  predicate FailsToEncode(s: State, step: Step, q: nat) {
    step.ByWorker? && step.work == Fail && step.i < |s.workers| && s.workers[step.i] == Holding(q)
  }

  predicate Skips(step: Step, q: nat) {
    step.ByConsumer? && step.reply.LocalSkip? && step.reply.skipped == q
  }

  predicate RecordsGo(s: State, step: Step, t: State, q: nat, e: R.Event<nat>) {
    && (q in t.answered <==> q in s.answered || Answers(step, q))
    && (q in t.failed <==> q in s.failed || Fails(step, q))
    && (q in t.unread <==> q in s.unread || Unreadable(step, q))
    && (q in t.skipsDue <==> FailsToEncode(s, step, q) || (q in s.skipsDue && !Skips(step, q)))
    && (e in t.reports <==> e in s.reports || Tells(step, e))
  }

  lemma RecordReply(c: Config, s: State, step: ReplyStep, q: nat, e: R.Event<nat>)
    requires ReplyEnabled(c, s, step)
    ensures RecordsGo(s, ByConsumer(step), ReplyApply(c, s, step), q, e)
  {
    hide Transition, Clamp, Discard, ClientPipeline.Answers;
  }

  lemma RecordStep(c: Config, s: State, step: Step, q: nat, e: R.Event<nat>)
    requires Enabled(c, s, step)
    ensures RecordsGo(s, step, Apply(c, s, step), q, e)
  {
    hide CaptureApply, WorkerApply, SenderApply, ReplyApply;
    hide CaptureEnabled, SenderEnabled, ReplyEnabled, Before;
    match step
    case ByCapture(x) => CaptureLeavesStatus(c, s, x);
    case ByWorker(i, x) => WorkerLeavesStatus(c, s, i, x);
    case BySender(x) => SenderLeavesRecords(c, s, x);
    case ByConsumer(x) => RecordReply(c, s, x, q, e);
    case RaiseStop =>
  }

  /** What was answered, failed, left unread and told to the reorder buffer are exactly the replies and
      skips that have come; a skip is due from the failure of its worker until it has been handled. */
  lemma {:induction false} RecordsAre(
    c: Config, run: seq<State>, steps: seq<Step>, i: nat, q: nat, e: R.Event<nat>)
    requires IsRun(c, run, steps) && i < |run|
    ensures q in run[i].answered <==> Ever(run, steps, (_, x) => Answers(x, q), i)
    ensures q in run[i].failed <==> Ever(run, steps, (_, x) => Fails(x, q), i)
    ensures q in run[i].unread <==> Ever(run, steps, (_, x) => Unreadable(x, q), i)
    ensures q in run[i].skipsDue <==>
            Since(run, steps, (s, x) => FailsToEncode(s, x, q), (_, x) => Skips(x, q), i)
    ensures e in run[i].reports <==> Ever(run, steps, (_, x) => Tells(x, e), i)
  {
    hide Enabled, Apply, Ever, Since;
    NothingYet(run, steps);
    if i > 0 {
      RecordsAre(c, run, steps, i - 1, q, e);
      EverStep(run, steps, (_, x) => Answers(x, q), i - 1);
      EverStep(run, steps, (_, x) => Fails(x, q), i - 1);
      EverStep(run, steps, (_, x) => Unreadable(x, q), i - 1);
      EverStep(run, steps, (_, x) => Tells(x, e), i - 1);
      SinceStep(run, steps, (s, x) => FailsToEncode(s, x, q), (_, x) => Skips(x, q), i - 1);
      assert Moves(c, run[i - 1], steps[i - 1], run[i]);
      RecordStep(c, run[i - 1], steps[i - 1], q, e);
      hide IsRun, Answers, Fails, Unreadable, Tells, FailsToEncode, Skips;
    }
  }

  /** The entry a DATA or ERROR reply removes. */
  function Removed(step: Step): Option<nat> {
    if !step.ByConsumer? then None
    else
      match step.reply
      case DataReply(_, _, key, _, _) => Some(key)
      case ErrorReply(_, _, key, _) => Some(key)
      case _ => None
  }

  /** A reply removes the entry it carries the sequence of, if that is in flight, else one with its name. */
  predicate RemovesOwn(c: Config, s: State, header: Option<nat>, name: string, q: nat) {
    if header.Some? && header.value in s.inflight then q == header.value else q in s.inflight && c.name(q) == name
  }

  /** A reply finds an entry exactly when its sequence is in flight or a frame in flight has its name; what
      it removes is its own. */
  lemma EntryIsFound(c: Config, s: State, header: Option<nat>, name: string)
    ensures forall q :: ReplyEnabled(c, s, DataReply(header, name, q, None, None)) <==> RemovesOwn(c, s, header, name, q)
    ensures forall q :: ReplyEnabled(c, s, ErrorReply(header, name, q, "")) <==> RemovesOwn(c, s, header, name, q)
    ensures (exists q {:trigger RemovesOwn(c, s, header, name, q)} :: RemovesOwn(c, s, header, name, q)) <==>
            (header.Some? && header.value in s.inflight) || exists q :: q in s.inflight && c.name(q) == name
  {
    if header.Some? && header.value in s.inflight {
      assert RemovesOwn(c, s, header, name, header.value);
    } else if q :| q in s.inflight && c.name(q) == name {
      assert RemovesOwn(c, s, header, name, q);
    }
  }

  /** With different names for different frames, a reply to frame `q` in flight that carries its sequence or
      none, and its name, removes the entry of `q` and no other. */
  lemma ReplyRemovesItsFrame(c: Config, run: seq<State>, steps: seq<Step>, i: nat, q: nat)
    requires IsRun(c, run, steps) && i < |steps| && q in run[i].inflight
    requires forall a, b :: a in run[i].inflight && b in run[i].inflight && c.name(a) == c.name(b) ==> a == b
    requires Removed(steps[i]).Some?
    requires steps[i].reply.header in {None, Some(q)} && steps[i].reply.name == c.name(q)
    ensures Removed(steps[i]) == Some(q) && run[i + 1].inflight == run[i].inflight - {q}
  {
    assert Moves(c, run[i], steps[i], run[i + 1]);
    hide IsRun, Transition, Clamp, Discard;
  }

  // ---- Workers ----

  predicate GivesUp(step: Step, i: nat) {
    step.ByWorker? && step.i == i && (step.work == Fail || step.work == Quit)
  }

  predicate PassesOn(step: Step, i: nat) {
    step == ByWorker(i, Finish)
  }

  lemma WorkerEndsStep(c: Config, s: State, step: Step, i: nat)
    requires Enabled(c, s, step) && i < |s.workers|
    ensures var t := Apply(c, s, step);
            && |t.workers| == |s.workers|
            && (t.workers[i] == Abandoned <==> s.workers[i] == Abandoned || GivesUp(step, i))
            && (t.workers[i] == Finished <==> s.workers[i] == Finished || PassesOn(step, i))
  {
    hide CaptureApply, SenderApply, ReplyApply, CaptureEnabled, SenderEnabled, ReplyEnabled, Before;
    match step
    case ByCapture(x) => CaptureTouches(c, s, x);
    case ByWorker(k, x) =>
      assert WorkerApply(c, s, k, x).workers == s.workers[k := WorkerApply(c, s, k, x).workers[k]];
    case BySender(x) => SenderLeavesCapture(c, s, x);
    case ByConsumer(x) => ReplyLeavesWorkers(c, s, x);
    case RaiseStop =>
  }

  /** A worker is gone exactly when it failed or saw the stop event, and finished exactly when it passed
      its sentinel on; both are for good. */
  lemma {:induction false} WorkerEndsOnce(c: Config, run: seq<State>, steps: seq<Step>, n: nat, i: nat)
    requires IsRun(c, run, steps) && n < |run| && i < c.workers
    ensures |run[n].workers| == c.workers
    ensures run[n].workers[i] == Abandoned <==> Ever(run, steps, (_, x) => GivesUp(x, i), n)
    ensures run[n].workers[i] == Finished <==> Ever(run, steps, (_, x) => PassesOn(x, i), n)
  {
    hide Enabled, Apply;
    if n > 0 {
      WorkerEndsOnce(c, run, steps, n - 1, i);
      EverStep(run, steps, (_, x) => GivesUp(x, i), n - 1);
      EverStep(run, steps, (_, x) => PassesOn(x, i), n - 1);
      assert Moves(c, run[n - 1], steps[n - 1], run[n]);
      WorkerEndsStep(c, run[n - 1], steps[n - 1], i);
      hide IsRun, Ever, GivesUp, PassesOn;
    }
  }

  // ---- The capture queue gives out the frame with the least hint ----

  /** The step puts `item` into the capture queue: a frame with the next number, or a sentinel. */
  predicate Queues(s: State, step: Step, item: Item) {
    && step.ByCapture?
    && match step.capture
       case Accept(hint) => item == Frame(hint, s.nextTicket, s.nextSequence)
       case PutSentinel => item == Sentinel(s.nextTicket)
       case _ => false
  }

  predicate Takes(step: Step, item: Item) {
    step.ByWorker? && step.work == Get(item)
  }

  /** How many sequences a step draws, and how many tickets. */
  function Draws(step: Step): nat {
    One(step.ByCapture? && (step.capture.Accept? || step.capture.Refused?))
  }

  function DrawsTicket(step: Step): nat {
    One(step.ByCapture? && step.capture != NoMoreFrames)
  }

  lemma QueueStep(c: Config, s: State, step: Step, item: Item)
    requires Enabled(c, s, step)
    ensures var t := Apply(c, s, step);
            && (item in t.captureQueue <==> Queues(s, step, item) || (item in s.captureQueue && !Takes(step, item)))
            && t.nextSequence == s.nextSequence + Draws(step) && t.nextTicket == s.nextTicket + DrawsTicket(step)
  {
    hide SenderApply, ReplyApply, SenderEnabled, ReplyEnabled, Before;
    match step
    case ByCapture(x) =>
    case ByWorker(i, x) =>
    case BySender(x) => SenderLeavesCapture(c, s, x);
    case ByConsumer(x) => ReplyLeavesCapture(c, s, x);
    case RaiseStop =>
  }

  /** The capture queue holds what was put into it and not taken since. */
  lemma {:induction false} QueuedIff(c: Config, run: seq<State>, steps: seq<Step>, i: nat, item: Item)
    requires IsRun(c, run, steps) && i < |run|
    ensures item in run[i].captureQueue <==>
            Since(run, steps, (s, x) => Queues(s, x, item), (_, x) => Takes(x, item), i)
  {
    hide Enabled, Apply, Since;
    NothingYet(run, steps);
    if i == 0 {
      NothingHeldYet(c, run[0]);
    } else {
      QueuedIff(c, run, steps, i - 1, item);
      SinceStep(run, steps, (s, x) => Queues(s, x, item), (_, x) => Takes(x, item), i - 1);
      assert Moves(c, run[i - 1], steps[i - 1], run[i]);
      QueueStep(c, run[i - 1], steps[i - 1], item);
      hide IsRun, Queues, Takes;
    }
  }

  /** Numbers and tickets are drawn one after the other. */
  lemma {:induction false} Drawn(c: Config, run: seq<State>, steps: seq<Step>, j: nat, i: nat)
    requires IsRun(c, run, steps) && j <= i < |run|
    ensures run[0].nextSequence == c.first
    ensures run[j].nextSequence <= run[i].nextSequence && run[j].nextTicket <= run[i].nextTicket
    ensures forall k :: j <= k < i && DrawsTicket(steps[k]) == 1 ==> run[k].nextTicket < run[i].nextTicket
    ensures forall k :: j <= k < i && Draws(steps[k]) == 1 ==> run[k].nextSequence < run[i].nextSequence
  {
    hide Enabled, Apply, Draws, DrawsTicket;
    if j < i {
      Drawn(c, run, steps, j, i - 1);
      assert Moves(c, run[i - 1], steps[i - 1], run[i]);
      QueueStep(c, run[i - 1], steps[i - 1], Sentinel(0));
    }
  }

  predicate NoLater(p: Priority, q: Priority) {
    q.Infinite? || (p.Finite? && p.value <= q.value)
  }

  /** A worker that takes an entry while frame `y`, queued at step `j`, waits takes a frame, and one whose
      hint is at most that of `y`; if the hints are equal, one that was queued before `y`. */
  lemma LeastHintFirst(
    c: Config, run: seq<State>, steps: seq<Step>, i: nat, w: nat, x: Item, j: nat, y: Item)
    requires GoodConfig(c) && IsRun(c, run, steps) && j < i < |steps|
    requires steps[i] == ByWorker(w, Get(x)) && x != y && y.Frame?
    requires Queues(run[j], steps[j], y) && forall k :: j < k < i ==> !Takes(steps[k], y)
    ensures x.Frame? && NoLater(x.hint, y.hint)
    ensures exists m :: 0 <= m < i && Queues(run[m], steps[m], x) && (x.hint == y.hint ==> m < j)
  {
    assert NoneBehind(run, steps, (_, z) => Takes(z, y), j, i);
    QueuedIff(c, run, steps, i, x);
    QueuedIff(c, run, steps, i, y);
    RunKeepsInv(c, run, steps, i);
    assert Moves(c, run[i], steps[i], run[i + 1]);
    assert x in run[i].captureQueue && y in run[i].captureQueue && CaptureInv(c, run[i]) && Before(x, y);
    hide IsRun, Inv, CaptureInv, NoneBehind;
    var m :| 0 <= m < i && Queues(run[m], steps[m], x) && NoneBehind(run, steps, (_, z) => Takes(z, x), m, i);
    hide Takes;
    if j <= m {
      TicketsRise(c, run, steps, j, m);
    }
  }

  lemma TicketsRise(c: Config, run: seq<State>, steps: seq<Step>, j: nat, m: nat)
    requires IsRun(c, run, steps) && j <= m < |steps|
    ensures run[j].nextTicket <= run[m].nextTicket
  {
    Drawn(c, run, steps, j, m);
  }

  // ---- The network queue is first in, first out, and so is the wire ----

  /** What a step puts into the network queue. */
  function PutBy(s: State, step: Step): seq<Option<nat>> {
    if !step.ByWorker? || step.i >= |s.workers| then []
    else if step.work == Finish then [None]
    else if step.work == Put && s.workers[step.i].Holding? then [Some(s.workers[step.i].sequence)]
    else []
  }

  ghost function PutSoFar(run: seq<State>, steps: seq<Step>, i: nat): seq<Option<nat>>
    requires |run| == |steps| + 1 && i <= |steps|
  {
    if i == 0 then [] else PutSoFar(run, steps, i - 1) + PutBy(run[i - 1], steps[i - 1])
  }

  ghost function TakenSoFar(steps: seq<Step>, i: nat): nat
    requires i <= |steps|
  {
    if i == 0 then 0 else TakenSoFar(steps, i - 1) + One(steps[i - 1] == BySender(Take))
  }

  lemma NetworkStep(c: Config, s: State, step: Step)
    requires Enabled(c, s, step)
    ensures step == BySender(Take) ==> s.networkQueue != [] && PutBy(s, step) == []
    ensures Apply(c, s, step).networkQueue ==
              if step == BySender(Take) then s.networkQueue[1..] else s.networkQueue + PutBy(s, step)
  {
    assert s.networkQueue + [] == s.networkQueue;
    hide SenderApply, ReplyApply, CaptureApply, ReplyEnabled, CaptureEnabled, Before;
    match step
    case ByCapture(x) => CaptureTouches(c, s, x);
    case ByWorker(i, x) =>
    case BySender(x) => NetworkSender(c, s, x);
    case ByConsumer(x) => ReplyLeavesWorkers(c, s, x);
    case RaiseStop =>
  }

  lemma NetworkSender(c: Config, s: State, step: SenderStep)
    requires SenderEnabled(c, s, step)
    ensures SenderApply(c, s, step).networkQueue == if step == Take then s.networkQueue[1..] else s.networkQueue
  {
    hide MaySendEof, Transition;
  }

  /** The network queue holds what the workers put and the sender has not yet taken, in order. */
  lemma {:induction false} NetworkQueueIsFifo(c: Config, run: seq<State>, steps: seq<Step>, i: nat)
    requires IsRun(c, run, steps) && i < |run|
    ensures IsFifo(PutSoFar(run, steps, i), TakenSoFar(steps, i), run[i].networkQueue)
  {
    hide Enabled, Apply, PutBy, Init, IsFifo;
    NothingQueued<Option<nat>>();
    if i == 0 {
      FirstState(c, run[0]);
    } else {
      NetworkQueueIsFifo(c, run, steps, i - 1);
      var put, taken, queue := PutSoFar(run, steps, i - 1), TakenSoFar(steps, i - 1), run[i - 1].networkQueue;
      assert Moves(c, run[i - 1], steps[i - 1], run[i]);
      hide IsRun;
      NetworkStep(c, run[i - 1], steps[i - 1]);
      FifoStep(put, taken, queue, PutBy(run[i - 1], steps[i - 1]), steps[i - 1] == BySender(Take));
    }
  }

  lemma FirstState(c: Config, s: State)
    requires Init(c, s)
    ensures s.networkQueue == [] && s.wire == [] && s.sender == AtLoop && !s.eofSent
  {
  }

  function FramesIn(entries: seq<Option<nat>>): seq<nat> {
    if entries == [] then []
    else FramesIn(entries[..|entries| - 1]) + FrameOf(entries[|entries| - 1])
  }

  function FrameOf(entry: Option<nat>): seq<nat> {
    if entry.Some? then [entry.value] else []
  }

  /** The frames begun on the wire, in order. */
  function Begun(wire: seq<WireMessage>): seq<nat> {
    if wire == [] then []
    else
      var m := wire[|wire| - 1];
      Begun(wire[..|wire| - 1]) + if m.Data? && m.index == 0 then [m.sequence] else []
  }

  /** The frames taken from the network queue have been begun on the wire in this order, but for the one
      at hand, or one the sender stopped with. */
  predicate Follows(sender: Sender, begun: seq<nat>, taken: seq<nat>) {
    match sender
    case Waiting(q) => taken == begun + [q]
    case Sending(q, sent) => if sent == 0 then taken == begun + [q] else taken == begun
    case Stopped => taken == begun || (taken != [] && taken[..|taken| - 1] == begun)
    case _ => taken == begun
  }

  predicate WireFollows(s: State, taken: seq<nat>) {
    Follows(s.sender, Begun(s.wire), taken)
  }

  lemma BegunMore(wire: seq<WireMessage>, m: WireMessage)
    ensures Begun(wire + [m]) == Begun(wire) + if m.Data? && m.index == 0 then [m.sequence] else []
  {
    assert (wire + [m])[..|wire|] == wire;
  }

  lemma FollowsTaken(begun: seq<nat>, q: nat, taken: seq<nat>)
    requires Follows(Getting, begun, taken)
    ensures Follows(Waiting(q), begun, taken + [q])
  {
  }

  lemma FollowsFragment(begun: seq<nat>, q: nat, sent: nat, taken: seq<nat>)
    requires Follows(Sending(q, sent), begun, taken)
    ensures Follows(Sending(q, sent + 1), begun + if sent == 0 then [q] else [], taken)
  {
    assert begun + [] == begun;
  }

  lemma FollowsAdmitted(begun: seq<nat>, q: nat, taken: seq<nat>)
    requires Follows(Waiting(q), begun, taken)
    ensures Follows(Sending(q, 0), begun, taken) && Follows(Stopped, begun, taken)
  {
  }

  /** A sender with no frame at hand, or one already begun. */
  lemma FollowsElsewhere(from: Sender, to: Sender, begun: seq<nat>, taken: seq<nat>)
    requires Follows(from, begun, taken) && !to.Waiting? && !to.Sending?
    requires if from.Sending? then from.sent > 0 || to == Stopped else !from.Waiting? && from != Stopped
    ensures Follows(to, begun, taken)
  {
  }

  lemma FollowSender(c: Config, s: State, step: SenderStep, taken: seq<nat>)
    requires GoodConfig(c) && SenderEnabled(c, s, step) && WireFollows(s, taken)
    ensures step == Take ==> s.networkQueue != []
    ensures WireFollows(SenderApply(c, s, step), if step == Take then taken + FrameOf(s.networkQueue[0]) else taken)
  {
    SenderLeads(c, s, step);
    SenderBegins(c, s, step);
    var begun, from, to := Begun(s.wire), s.sender, SenderApply(c, s, step).sender;
    hide Begun, SenderApply, Follows;
    assert begun + [] == begun;
    match step
    case Take =>
      if s.networkQueue[0].Some? {
        FollowsTaken(begun, s.networkQueue[0].value, taken);
      } else {
        FollowsElsewhere(from, to, begun, taken);
        assert taken + [] == taken;
      }
    case SendFragment => FollowsFragment(begun, from.sequence, from.sent, taken);
    case Admitted => FollowsAdmitted(begun, from.sequence, taken);
    case _ => FollowsElsewhere(from, to, begun, taken);
  }

  /** Where a step of the sender leads. */
  predicate Leads(c: Config, s: State, step: SenderStep, to: Sender)
    requires SenderEnabled(c, s, step)
  {
    match step
    case Take =>
      if s.networkQueue[0].Some? then to == Waiting(s.networkQueue[0].value) else to == DrainWait || to == AtLoop
    case Admitted => to == Sending(s.sender.sequence, 0) || to == Stopped
    case SendFragment => to == Sending(s.sender.sequence, s.sender.sent + 1)
    case SendFails => to == Stopped
    case Register => to == AtLoop && s.sender.sent == c.fragments(s.sender.sequence)
    case Loop => to == if s.stop then Stopped else Getting
    case GiveUp => to == Stopped
    case Drained => to == AtLoop || (to == SendingEof && !s.stop)
    case _ => to == AtLoop || to == Stopped
  }

  lemma SenderLeads(c: Config, s: State, step: SenderStep)
    requires SenderEnabled(c, s, step)
    ensures Leads(c, s, step, SenderApply(c, s, step).sender)
  {
    hide Transition;
  }

  lemma SenderBegins(c: Config, s: State, step: SenderStep)
    requires SenderEnabled(c, s, step)
    ensures Begun(SenderApply(c, s, step).wire) ==
              Begun(s.wire) + (if step == SendFragment && s.sender.sent == 0 then [s.sender.sequence] else [])
  {
    var wire := SenderApply(c, s, step).wire;
    match step
    case SendFragment => BegunMore(s.wire, Data(s.sender.sequence, s.sender.sent));
    case EofWritten => BegunMore(s.wire, Eof);
    case EofFails(_) => BegunMore(s.wire, Eof);
    case _ => assert wire == s.wire;
    hide Begun, SenderApply, SenderEnabled;
    assert Begun(s.wire) + [] == Begun(s.wire);
  }

  lemma FollowStep(c: Config, s: State, step: Step, taken: seq<nat>)
    requires GoodConfig(c) && Enabled(c, s, step) && WireFollows(s, taken)
    ensures step == BySender(Take) ==> s.networkQueue != []
    ensures WireFollows(Apply(c, s, step),
                        if step == BySender(Take) then taken + FrameOf(s.networkQueue[0]) else taken)
  {
    hide CaptureApply, WorkerApply, SenderApply, ReplyApply, CaptureEnabled, WorkerEnabled, SenderEnabled, ReplyEnabled;
    match step
    case ByCapture(x) => CaptureTouches(c, s, x);
    case ByWorker(i, x) => WorkerTouches(c, s, i, x);
    case BySender(x) => FollowSender(c, s, x, taken);
    case ByConsumer(x) => ReplyLeavesSender(c, s, x);
    case RaiseStop =>
  }

  lemma OneEntryMore(entries: seq<Option<nat>>, entry: Option<nat>)
    ensures FramesIn(entries + [entry]) == FramesIn(entries) + FrameOf(entry)
  {
    assert (entries + [entry])[..|entries|] == entries;
  }

  /** Frames go out in the order in which the workers put them. */
  lemma {:induction false} FramesKeepOrder(c: Config, run: seq<State>, steps: seq<Step>, i: nat)
    requires GoodConfig(c) && IsRun(c, run, steps) && i < |run|
    ensures IsFifo(PutSoFar(run, steps, i), TakenSoFar(steps, i), run[i].networkQueue)
    ensures WireFollows(run[i], FramesIn(PutSoFar(run, steps, i)[..TakenSoFar(steps, i)]))
  {
    NetworkQueueIsFifo(c, run, steps, i);
    hide Enabled, Apply, Init, GoodConfig, WireFollows, FramesIn, FrameOf;
    if i == 0 {
      FirstFollows(c, run[0]);
    } else {
      FramesKeepOrder(c, run, steps, i - 1);
      FramesTaken(c, run, steps, i);
      hide PutSoFar, TakenSoFar;
      assert Moves(c, run[i - 1], steps[i - 1], run[i]);
      FollowStep(c, run[i - 1], steps[i - 1], FramesIn(PutSoFar(run, steps, i - 1)[..TakenSoFar(steps, i - 1)]));
    }
  }

  lemma FramesTaken(c: Config, run: seq<State>, steps: seq<Step>, i: nat)
    requires IsRun(c, run, steps) && 0 < i < |run|
    ensures TakenSoFar(steps, i - 1) <= |PutSoFar(run, steps, i - 1)| && TakenSoFar(steps, i) <= |PutSoFar(run, steps, i)|
    ensures steps[i - 1] == BySender(Take) ==> run[i - 1].networkQueue != []
    ensures var before := FramesIn(PutSoFar(run, steps, i - 1)[..TakenSoFar(steps, i - 1)]);
            FramesIn(PutSoFar(run, steps, i)[..TakenSoFar(steps, i)]) ==
              if steps[i - 1] == BySender(Take) then before + FrameOf(run[i - 1].networkQueue[0]) else before
  {
    hide Enabled, Apply, PutBy, FramesIn, FrameOf, IsFifo;
    NetworkQueueIsFifo(c, run, steps, i - 1);
    assert Moves(c, run[i - 1], steps[i - 1], run[i]);
    hide IsRun;
    NetworkStep(c, run[i - 1], steps[i - 1]);
    FifoBound(PutSoFar(run, steps, i - 1), TakenSoFar(steps, i - 1), run[i - 1].networkQueue);
    PrefixTaken(PutSoFar(run, steps, i - 1), TakenSoFar(steps, i - 1), run[i - 1].networkQueue,
                PutBy(run[i - 1], steps[i - 1]), steps[i - 1] == BySender(Take));
  }

  lemma FifoBound(put: seq<Option<nat>>, taken: nat, queue: seq<Option<nat>>)
    requires IsFifo(put, taken, queue)
    ensures taken <= |put|
  {
  }

  /** What is added to the entries taken when something is put, or when the next one is taken. */
  lemma PrefixTaken(put: seq<Option<nat>>, taken: nat, queue: seq<Option<nat>>, more: seq<Option<nat>>, takes: bool)
    requires IsFifo(put, taken, queue) && (takes ==> queue != [] && more == [])
    ensures taken + One(takes) <= |put + more|
    ensures FramesIn((put + more)[..taken + One(takes)])
         == if takes then FramesIn(put[..taken]) + FrameOf(queue[0]) else FramesIn(put[..taken])
  {
    FifoPut(put, taken, queue, more);
    if takes {
      assert put + more == put;
      FifoTake(put, taken, queue);
      OneEntryMore(put[..taken], queue[0]);
    }
    hide FramesIn, IsFifo;
  }

  lemma FirstFollows(c: Config, s: State)
    requires Init(c, s)
    ensures WireFollows(s, FramesIn([]))
  {
  }

  // ---- After the stop event ----

  /** The frames a sender at this place can still begin once the stop event is set. */
  function StillAllowed(s: Sender): nat {
    match s
    case Getting => 1
    case Waiting(_) => 1
    case Sending(_, sent) => One(sent == 0)
    case _ => 0
  }

  predicate Winds(s: State, t: State) {
    && t.stop && |Begun(t.wire)| + StillAllowed(t.sender) <= |Begun(s.wire)| + StillAllowed(s.sender)
    && (t.sender == SendingEof ==> s.sender == SendingEof)
    && (Eof in t.wire ==> Eof in s.wire || s.sender == SendingEof)
  }

  lemma AfterStopSender(c: Config, s: State, step: SenderStep)
    requires s.stop && SenderEnabled(c, s, step)
    ensures Winds(s, SenderApply(c, s, step))
  {
    SenderLeads(c, s, step);
    SenderBegins(c, s, step);
    SenderLeavesHistory(c, s, step);
    SenderWritesEof(c, s, step);
    LessAllowed(c, s, step, SenderApply(c, s, step).sender);
    hide Begun, SenderApply, SenderEnabled, Leads, StillAllowed;
  }

  lemma LessAllowed(c: Config, s: State, step: SenderStep, to: Sender)
    requires s.stop && SenderEnabled(c, s, step) && Leads(c, s, step, to)
    ensures One(step == SendFragment && s.sender.sent == 0) + StillAllowed(to) <= StillAllowed(s.sender)
    ensures to == SendingEof ==> s.sender == SendingEof
  {
  }

  lemma SenderWritesEof(c: Config, s: State, step: SenderStep)
    requires SenderEnabled(c, s, step)
    ensures Eof in SenderApply(c, s, step).wire ==> Eof in s.wire || s.sender == SendingEof
  {
    hide MaySendEof, Transition;
  }

  lemma AfterStopStep(c: Config, s: State, step: Step)
    requires s.stop && Enabled(c, s, step)
    ensures Winds(s, Apply(c, s, step))
  {
    hide CaptureApply, WorkerApply, SenderApply, ReplyApply, CaptureEnabled, WorkerEnabled, SenderEnabled, ReplyEnabled;
    match step
    case ByCapture(x) => CaptureTouches(c, s, x);
    case ByWorker(i, x) => WorkerTouches(c, s, i, x);
    case BySender(x) => AfterStopSender(c, s, x);
    case ByConsumer(x) => ReplyLeavesSender(c, s, x);
    case RaiseStop =>
  }

  lemma {:induction false} WindsDown(c: Config, run: seq<State>, steps: seq<Step>, i: nat, k: nat)
    requires IsRun(c, run, steps) && i <= k < |run| && run[i].stop
    ensures Winds(run[i], run[k])
  {
    hide Enabled, Apply, Init;
    if i < k {
      WindsDown(c, run, steps, i, k - 1);
      assert Moves(c, run[k - 1], steps[k - 1], run[k]);
      AfterStopStep(c, run[k - 1], steps[k - 1]);
      hide Begun;
    }
  }

  /** Once the stop event is set, at most the frame at hand is still begun on the wire, and EOF is sent
      only if that had been decided. */
  lemma OneFrameAfterStop(c: Config, run: seq<State>, steps: seq<Step>, i: nat, k: nat)
    requires IsRun(c, run, steps) && i <= k < |run| && run[i].stop
    ensures |Begun(run[k].wire)| <= |Begun(run[i].wire)| + 1
    ensures run[i].sender == AtLoop ==> |Begun(run[k].wire)| <= |Begun(run[i].wire)|
    ensures Eof in run[k].wire ==> Eof in run[i].wire || run[i].sender == SendingEof
  {
    WindsDown(c, run, steps, i, k);
  }
}
