/** nodes/stream_client.py: a session in which nothing has failed can always be brought to EOF. */
module ClientProgress {
  import opened Common
  import opened ClientPipeline
  import opened ClientRuns
  import R = Reorder

  // ---- Every worker gets its sentinel ----

  ghost function Sentinels(queue: set<Item>): set<Item> {
    set x | x in queue && x.Sentinel?
  }

  ghost function SentinelsTaken(workers: seq<Worker>): nat {
    Count(workers, Finishing) + Count(workers, Finished)
  }

  /** Sentinels owed, queued, taken and passed on: one for each worker, from the last frame on. Workers
      that give up take none, so as many as have given up stay owed or queued. No two entries share a
      ticket. */
  ghost predicate OwedInv(c: Config, s: State) {
    && |s.workers| == c.workers
    && (s.capture.Signalling? ==>
          s.capture.left + |Sentinels(s.captureQueue)| + SentinelsTaken(s.workers) == c.workers)
    && (s.capture == Capturing ==> Sentinels(s.captureQueue) == {} && SentinelsTaken(s.workers) == 0)
    && (forall i, j :: i in s.captureQueue && j in s.captureQueue && i.ticket == j.ticket ==> i == j)
  }

  /** An entry with the next ticket: the sentinels grow by it if it is one. */
  lemma EntryQueued(c: Config, s: State, x: Item)
    requires OwedInv(c, s) && CaptureInv(c, s) && x.ticket == s.nextTicket
    ensures var queue := s.captureQueue + {x};
            && |Sentinels(queue)| == |Sentinels(s.captureQueue)| + One(x.Sentinel?)
            && (x.Frame? ==> Sentinels(queue) == Sentinels(s.captureQueue))
            && (forall i, j :: i in queue && j in queue && i.ticket == j.ticket ==> i == j)
  {
    hide SentinelsTaken, Started;
    assert x !in s.captureQueue;
    var now := Sentinels(s.captureQueue + {x});
    if x.Sentinel? {
      assert now == Sentinels(s.captureQueue) + {x};
    } else {
      assert now == Sentinels(s.captureQueue);
    }
  }

  lemma OwedCapture(c: Config, s: State, step: CaptureStep)
    requires OwedInv(c, s) && CaptureInv(c, s) && CaptureEnabled(c, s, step)
    ensures OwedInv(c, CaptureApply(c, s, step))
  {
    hide SentinelsTaken, Sentinels;
    match step
    case Accept(hint) => EntryQueued(c, s, Frame(hint, s.nextTicket, s.nextSequence));
    case PutSentinel => EntryQueued(c, s, Sentinel(s.nextTicket));
    case _ =>
    hide CaptureInv;
  }

  lemma TakenUpdate(workers: seq<Worker>, i: nat, w: Worker)
    requires i < |workers|
    ensures SentinelsTaken(workers[i := w]) + One(workers[i] == Finishing || workers[i] == Finished)
         == SentinelsTaken(workers) + One(w == Finishing || w == Finished)
  {
    CountUpdate(workers, i, w, Finishing);
    CountUpdate(workers, i, w, Finished);
    hide Count;
  }

  lemma EntryTaken(queue: set<Item>, x: Item)
    requires x in queue
    ensures |Sentinels(queue - {x})| + One(x.Sentinel?) == |Sentinels(queue)|
    ensures Sentinels(queue) == {} ==> Sentinels(queue - {x}) == {} && x.Frame?
  {
    var now := Sentinels(queue - {x});
    if x.Sentinel? {
      assert Sentinels(queue) == now + {x};
    } else {
      assert Sentinels(queue) == now;
    }
  }

  lemma OwedWorker(c: Config, s: State, i: nat, step: WorkerStep)
    requires OwedInv(c, s) && WorkerEnabled(c, s, i, step)
    ensures OwedInv(c, WorkerApply(c, s, i, step))
  {
    hide OwedInv, Before;
    var t := WorkerApply(c, s, i, step);
    if step.Get? {
      OwedGet(c, s, t, i, step.item);
    } else {
      OwedPlain(c, s, t, i);
    }
  }

  lemma OwedGet(c: Config, s: State, t: State, i: nat, x: Item)
    requires OwedInv(c, s) && x in s.captureQueue && i < |s.workers| && s.workers[i] == Idle
    requires t.captureQueue == s.captureQueue - {x} && t.capture == s.capture
    requires t.workers == s.workers[i := if x.Sentinel? then Finishing else Holding(x.sequence)]
    ensures OwedInv(c, t)
  {
    hide SentinelsTaken, Sentinels;
    TakenUpdate(s.workers, i, t.workers[i]);
    EntryTaken(s.captureQueue, x);
  }

  lemma OwedPlain(c: Config, s: State, t: State, i: nat)
    requires OwedInv(c, s) && t.captureQueue == s.captureQueue && t.capture == s.capture
    requires i < |s.workers| == |t.workers| && t.workers == s.workers[i := t.workers[i]]
    requires (t.workers[i] == Finishing || t.workers[i] == Finished) == (s.workers[i] == Finishing || s.workers[i] == Finished)
    ensures OwedInv(c, t)
  {
    hide SentinelsTaken, Sentinels;
    TakenUpdate(s.workers, i, t.workers[i]);
  }

  lemma OwedElsewhere(c: Config, s: State, t: State)
    requires OwedInv(c, s) && t.captureQueue == s.captureQueue && t.capture == s.capture && t.workers == s.workers
    ensures OwedInv(c, t)
  {
    hide SentinelsTaken, Sentinels;
  }

  lemma OwedStep(c: Config, s: State, step: Step)
    requires OwedInv(c, s) && CaptureInv(c, s) && Enabled(c, s, step)
    ensures OwedInv(c, Apply(c, s, step))
  {
    hide OwedInv, CaptureInv, CaptureEnabled, WorkerEnabled, SenderEnabled, ReplyEnabled;
    hide CaptureApply, WorkerApply, SenderApply, ReplyApply;
    match step
    case ByCapture(x) => OwedCapture(c, s, x);
    case ByWorker(i, x) => OwedWorker(c, s, i, x);
    case BySender(x) =>
      SenderLeavesCapture(c, s, x);
      OwedElsewhere(c, s, SenderApply(c, s, x));
    case ByConsumer(x) =>
      ReplyLeavesCapture(c, s, x);
      ReplyLeavesWorkers(c, s, x);
      OwedElsewhere(c, s, ReplyApply(c, s, x));
    case RaiseStop => OwedElsewhere(c, s, Apply(c, s, step));
  }

  // ---- A sender that has counted all sentinels drains or has ended ----

  /** While nothing has failed, the sender has not stopped; EOF closes the session, and once all sentinels
      are counted it waits for the tables to empty or sends EOF. */
  ghost predicate EndInv(c: Config, s: State) {
    && (s.eofSent ==> s.session == Closing)
    && (s.sender == Stopped ==> s.stop || !s.accepting)
    && (!s.eofSent && !s.stop && s.session in {Healthy, SoftDegraded} && s.finished >= c.workers ==>
          s.sender in {DrainWait, SendingEof})
    && (s.sender.Sending? ==> s.sender.sent <= c.fragments(s.sender.sequence))
  }

  lemma EndSender(c: Config, s: State, step: SenderStep)
    requires EndInv(c, s) && SenderEnabled(c, s, step)
    ensures EndInv(c, SenderApply(c, s, step))
  {
    match step
    case Take =>
    case Drained =>
    case Admitted =>
    case EofWritten =>
    case EofFails(_) =>
    case _ =>
  }

  lemma EndReply(c: Config, s: State, step: ReplyStep)
    requires EndInv(c, s) && ReplyEnabled(c, s, step)
    ensures EndInv(c, ReplyApply(c, s, step))
  {
    ReplyLeavesSender(c, s, step);
    NeverBack(c, s, step);
    hide ReplyApply, ReplyEnabled;
  }

  /** Replies do not undo a failure. */
  lemma NeverBack(c: Config, s: State, step: ReplyStep)
    requires ReplyEnabled(c, s, step)
    ensures var t := ReplyApply(c, s, step);
            && (s.session == Closing ==> t.session == Closing)
            && (s.session == Degraded ==> t.session in {Degraded, Closing})
            && (!s.accepting ==> !t.accepting)
  {
    hide Clamp, Discard, Answers;
  }

  lemma EndStep(c: Config, s: State, step: Step)
    requires EndInv(c, s) && Enabled(c, s, step)
    ensures EndInv(c, Apply(c, s, step))
  {
    hide SenderApply, ReplyApply, SenderEnabled, ReplyEnabled, Before;
    match step
    case ByCapture(x) =>
    case ByWorker(i, x) =>
    case BySender(x) => EndSender(c, s, x);
    case ByConsumer(x) => EndReply(c, s, x);
    case RaiseStop =>
  }

  // ---- Both in every run ----

  lemma AtFirst(c: Config, s: State)
    requires GoodConfig(c) && Init(c, s)
    ensures OwedInv(c, s) && EndInv(c, s)
  {
    CountNone(s.workers, Finishing);
    CountNone(s.workers, Finished);
    assert Sentinels(s.captureQueue) == {};
  }

  /** In every run, from the last frame on: sentinels owed, queued, taken and passed on are as many as
      there are workers, whatever fails. */
  lemma {:induction false} OneSentinelForEachWorker(c: Config, run: seq<State>, steps: seq<Step>, i: nat)
    requires GoodConfig(c) && IsRun(c, run, steps) && i < |run|
    ensures OwedInv(c, run[i]) && EndInv(c, run[i])
  {
    hide OwedInv, EndInv, CaptureInv, Enabled, Apply, Init, GoodConfig;
    if i == 0 {
      AtFirst(c, run[0]);
    } else {
      OneSentinelForEachWorker(c, run, steps, i - 1);
      RunKeepsInv(c, run, steps, i - 1);
      assert Moves(c, run[i - 1], steps[i - 1], run[i]);
      OwedStep(c, run[i - 1], steps[i - 1]);
      EndStep(c, run[i - 1], steps[i - 1]);
    }
  }

  ghost predicate GoodState(c: Config, s: State) {
    GoodConfig(c) && c.captureCap > 0 && c.networkCap > 0 && Inv(c, s) && OwedInv(c, s) && EndInv(c, s)
  }

  lemma ReachedIsGood(c: Config, steps: seq<Step>, s: State)
    requires GoodConfig(c) && c.captureCap > 0 && c.networkCap > 0 && ReachedBy(c, steps, s)
    ensures GoodState(c, s)
  {
    hide Inv, OwedInv, EndInv, GoodConfig;
    var run :| IsRun(c, run, steps) && run[|steps|] == s;
    RunKeepsInv(c, run, steps, |steps|);
    OneSentinelForEachWorker(c, run, steps, |steps|);
  }

  // ---- The next entry of the capture queue ----

  lemma {:induction false} FirstEntry(queue: set<Item>) returns (x: Item)
    requires queue != {} && forall i, j :: i in queue && j in queue && i.ticket == j.ticket ==> i == j
    ensures x in queue && forall y :: y in queue && y != x ==> Before(x, y)
    decreases |queue|
  {
    x := AnyOf(queue);
    var rest := queue - {x};
    assert forall y :: y in queue && y != x ==> y in rest;
    if rest != {} {
      var m := FirstEntry(rest);
      if Before(m, x) {
        assert forall y :: y in queue && y != m ==> y == x || y in rest;
        x := m;
      } else {
        assert Before(x, m);
        forall y | y in queue && y != x ensures Before(x, y) {
          assert y in rest;
          assert y != m ==> Before(m, y);
        }
      }
    }
  }

  // ---- Progress ----

  ghost predicate Fine(s: State) {
    && !s.stop && s.session in {Healthy, SoftDegraded} && s.accepting
    && forall i :: 0 <= i < |s.workers| ==> s.workers[i] != Abandoned
  }

  function Work(w: Worker): nat {
    if w.Holding? || w == Finishing then 5 else 0
  }

  function WorkOf(workers: seq<Worker>): nat {
    if workers == [] then 0 else Work(workers[0]) + WorkOf(workers[1..])
  }

  lemma {:induction false} WorkUpdate(workers: seq<Worker>, i: nat, w: Worker)
    requires i < |workers|
    ensures WorkOf(workers[i := w]) + Work(workers[i]) == WorkOf(workers) + Work(w)
  {
    if i == 0 {
      assert workers[0 := w][1..] == workers[1..];
    } else {
      WorkUpdate(workers[1..], i - 1, w);
      assert workers[i := w][1..] == workers[1..][i - 1 := w];
    }
  }

  /** What is left to do when no more frames come. */
  function Measure(c: Config, s: State): nat {
    (match s.capture case Capturing => 7 * c.workers + 1 case Signalling(left) => 7 * left)
    + 6 * |s.captureQueue| + WorkOf(s.workers) + 4 * |s.networkQueue| + |s.inflight|
    + (match s.sender
       case AtLoop => 1 case Waiting(_) => 3 case Sending(_, _) => 3 case DrainWait => 1 case _ => 0)
  }

  /** The step brings a session that is fine nearer to its end, and accepts no frame. */
  ghost predicate Advances(c: Config, s: State, step: Step) {
    && Enabled(c, s, step)
    && var t := Apply(c, s, step);
       Fine(t) && Measure(c, t) < Measure(c, s) && t.nextSequence == s.nextSequence && t.eofSent == s.eofSent
  }

  lemma CaptureAdvances(c: Config, s: State) returns (step: Step)
    requires c.captureCap > 0 && Fine(s) && s.captureQueue == {} && (s.capture.Signalling? ==> s.capture.left > 0)
    ensures Advances(c, s, step)
  {
    step := ByCapture(if s.capture == Capturing then NoMoreFrames else PutSentinel);
    hide WorkOf;
  }

  lemma WorkerAdvances(c: Config, s: State, i: nat) returns (step: Step)
    requires GoodState(c, s) && Fine(s) && s.networkQueue == [] && i < |s.workers|
    requires s.workers[i].Holding? || s.workers[i] == Finishing || (s.workers[i] == Idle && s.captureQueue != {})
    ensures Advances(c, s, step)
  {
    if s.workers[i] == Idle {
      step := WorkerGets(c, s, i);
    } else {
      step := ByWorker(i, if s.workers[i].Holding? then Put else Finish);
      var t := Apply(c, s, step);
      WorkUpdate(s.workers, i, t.workers[i]);
      hide GoodState, WorkOf;
    }
  }

  lemma WorkerGets(c: Config, s: State, i: nat) returns (step: Step)
    requires GoodState(c, s) && Fine(s) && i < |s.workers| && s.workers[i] == Idle && s.captureQueue != {}
    ensures Advances(c, s, step)
  {
    assert OwedInv(c, s);
    hide GoodState, WorkOf, Before, Sentinels, SentinelsTaken;
    var x := FirstEntry(s.captureQueue);
    step := ByWorker(i, Get(x));
    var w := if x.Sentinel? then Finishing else Holding(x.sequence);
    WorkUpdate(s.workers, i, w);
    assert |s.captureQueue - {x}| == |s.captureQueue| - 1;
    GetMeasured(c, s, Apply(c, s, step), i, w);
  }

  lemma GetMeasured(c: Config, s: State, t: State, i: nat, w: Worker)
    requires Fine(s) && i < |s.workers| && s.workers[i] == Idle && (w.Holding? || w == Finishing)
    requires t == s.(captureQueue := t.captureQueue, workers := s.workers[i := w], place := t.place)
    requires |t.captureQueue| == |s.captureQueue| - 1
    requires WorkOf(s.workers[i := w]) + Work(s.workers[i]) == WorkOf(s.workers) + Work(w)
    ensures Fine(t) && Measure(c, t) < Measure(c, s)
  {
    hide WorkOf;
  }

  /** A frame in flight can always be answered. */
  lemma ReplyAdvances(c: Config, s: State, q: nat) returns (step: Step)
    requires Fine(s) && q in s.inflight
    ensures Advances(c, s, step)
  {
    step := ByConsumer(DataReply(Some(q), c.name(q), q, None, Some(0)));
    assert |s.inflight - {q}| == |s.inflight| - 1;
    hide WorkOf;
  }

  /** The sender goes on where it has something to do and need not wait. */
  lemma SenderAdvances(c: Config, s: State) returns (step: Step)
    requires Fine(s) && EndInv(c, s) && !s.eofSent
    requires s.sender == AtLoop || (s.sender == Getting && s.networkQueue != [])
             || (s.sender == DrainWait && s.inflight == {} && s.acksPending == {})
    ensures Advances(c, s, step)
  {
    step := BySender(if s.sender == AtLoop then Loop else if s.sender == Getting then Take else Drained);
    hide WorkOf;
  }

  /** All workers idle or finished with nothing queued for the sender: there is an entry for an idle
      worker, or the capture stage still has something to put. */
  lemma SomethingComes(c: Config, s: State)
    requires GoodState(c, s) && Fine(s) && !s.eofSent && s.sender == Getting && s.networkQueue == []
    requires forall i :: 0 <= i < |s.workers| ==> s.workers[i] == Idle || s.workers[i] == Finished
    ensures exists i :: 0 <= i < |s.workers| && s.workers[i] == Idle
    ensures s.captureQueue == {} && s.capture.Signalling? ==> s.capture.left > 0
  {
    CountNone(s.workers, Finishing);
    CountNone(s.networkQueue, None);
    CountIsBounded(s.workers, Finished);
    if forall i :: 0 <= i < |s.workers| ==> s.workers[i] != Idle {
      CountAll(s.workers, Finished);
      assert false;
    }
    assert s.captureQueue == {} ==> Sentinels(s.captureQueue) == {};
  }

  lemma {:induction false} CountAll<T>(s: seq<T>, x: T)
    requires forall i :: 0 <= i < |s| ==> s[i] == x
    ensures Count(s, x) == |s|
  {
    if s != [] {
      CountTail(s, x);
      CountAll(s[1..], x);
    }
  }

  /** With the sender awaiting the network queue some coroutine can go on. */
  lemma FeedAdvances(c: Config, s: State) returns (step: Step)
    requires GoodState(c, s) && Fine(s) && !s.eofSent && s.sender == Getting && s.networkQueue == []
    ensures Advances(c, s, step)
  {
    hide Advances;
    if i :| 0 <= i < |s.workers| && (s.workers[i].Holding? || s.workers[i] == Finishing) {
      step := WorkerAdvances(c, s, i);
    } else {
      assert forall i :: 0 <= i < |s.workers| ==> s.workers[i] == Idle || s.workers[i] == Finished;
      SomethingComes(c, s);
      if s.captureQueue != {} {
        var i :| 0 <= i < |s.workers| && s.workers[i] == Idle;
        step := WorkerAdvances(c, s, i);
      } else {
        hide GoodState, Fine;
        step := CaptureAdvances(c, s);
      }
    }
  }

  // ---- The frame at hand is sent in full and registered in one go ----

  lemma {:induction false} SendFragments(c: Config, steps: seq<Step>, s: State)
    returns (further: seq<Step>, t: State)
    requires ReachedBy(c, steps, s) && s.sender.Sending? && s.sender.sent <= c.fragments(s.sender.sequence)
    ensures ReachedBy(c, further, t) && steps <= further
    ensures t == s.(wire := t.wire, sender := Sending(s.sender.sequence, c.fragments(s.sender.sequence)))
    decreases c.fragments(s.sender.sequence) - s.sender.sent
  {
    hide ReachedBy;
    if s.sender.sent == c.fragments(s.sender.sequence) {
      further, t := steps, s;
    } else {
      further, t := Then(c, steps, s, BySender(SendFragment));
      further, t := SendFragments(c, further, t);
    }
  }

  /** What a session has left to do goes down, and nothing else that matters changes. */
  ghost predicate Nearer(c: Config, s: State, t: State) {
    Fine(t) && Measure(c, t) < Measure(c, s) && t.nextSequence == s.nextSequence && t.eofSent == s.eofSent
  }

  lemma FrameIsSent(c: Config, steps: seq<Step>, s: State) returns (further: seq<Step>, t: State)
    requires ReachedBy(c, steps, s) && Fine(s)
    requires s.sender.Sending? && s.sender.sent <= c.fragments(s.sender.sequence)
    ensures ReachedBy(c, further, t) && steps <= further && Nearer(c, s, t)
  {
    hide ReachedBy;
    var q := s.sender.sequence;
    further, t := SendFragments(c, steps, s);
    further, t := Then(c, further, t, BySender(Register));
    OneMore(s.inflight, q);
    hide WorkOf;
  }

  lemma OneMore(s: set<nat>, q: nat)
    ensures |s + {q}| <= |s| + 1
  {
    assert q in s ==> s + {q} == s;
  }

  lemma FrameIsAdmitted(c: Config, steps: seq<Step>, s: State) returns (further: seq<Step>, t: State)
    requires ReachedBy(c, steps, s) && Fine(s) && s.sender.Waiting? && |s.acksPending| < s.limit
    ensures ReachedBy(c, further, t) && steps <= further && Nearer(c, s, t)
  {
    hide ReachedBy;
    further, t := Then(c, steps, s, BySender(Admitted));
    assert Fine(t) && Measure(c, t) == Measure(c, s);
    hide Fine, Measure;
    further, t := FrameIsSent(c, further, t);
  }

  /** No deadlock: while nothing has failed, the session can always be brought nearer to EOF. */
  lemma NoDeadlock(c: Config, steps: seq<Step>, s: State) returns (further: seq<Step>, t: State)
    requires ReachedBy(c, steps, s) && GoodState(c, s) && Fine(s) && !s.eofSent && s.sender != SendingEof
    ensures ReachedBy(c, further, t) && steps <= further && Nearer(c, s, t)
  {
    hide ReachedBy;
    var step: Step;
    assert EndInv(c, s) && s.sender != Stopped && WindowInv(c, s);
    if s.sender.Sending? {
      hide GoodState, Fine, Nearer;
      further, t := FrameIsSent(c, steps, s);
      return;
    }
    if s.sender.Waiting? && |s.acksPending| < s.limit {
      hide GoodState, Fine, Nearer;
      further, t := FrameIsAdmitted(c, steps, s);
      return;
    }
    if s.sender.Waiting? || (s.sender == DrainWait && s.inflight != {}) {
      if s.sender.Waiting? {
        assert s.acksPending != {} && s.acksPending <= s.inflight;
      }
      assert s.inflight != {};
      hide GoodState, Fine;
      step := ReplyAdvances(c, s, AnyOf(s.inflight));
    } else if s.sender == Getting && s.networkQueue == [] {
      step := FeedAdvances(c, s);
    } else {
      hide GoodState, Fine;
      step := SenderAdvances(c, s);
    }
    hide Enabled, Apply, Fine, Measure;
    further, t := Then(c, steps, s, step);
  }

  /** From every state of every run in which nothing has failed (the stop event unset, the session not
      degraded, the control plane accepting frames, no worker gone), for any number of workers and any
      bounds of window and queues, the run can go on until EOF is sent, without a new frame: then every
      frame drawn so far has been answered and EOF is last on the wire. */
  lemma {:induction false} EofStaysReachable(c: Config, steps: seq<Step>, s: State)
    returns (further: seq<Step>, t: State)
    requires GoodConfig(c) && c.captureCap > 0 && c.networkCap > 0 && ReachedBy(c, steps, s) && Fine(s)
    ensures ReachedBy(c, further, t) && steps <= further && t.eofSent && t.nextSequence == s.nextSequence
    ensures t.wire != [] && t.wire[|t.wire| - 1] == Eof
    ensures forall q: nat :: c.first <= q < s.nextSequence ==> q in t.answered
    decreases Measure(c, s)
  {
    hide ReachedBy, GoodConfig;
    ReachedIsGood(c, steps, s);
    assert !s.eofSent;
    if s.sender == SendingEof {
      further, t := Then(c, steps, s, BySender(EofWritten));
      ReachedIsGood(c, further, t);
    } else {
      hide GoodState, Fine, Measure;
      further, t := NoDeadlock(c, steps, s);
      further, t := EofStaysReachable(c, further, t);
    }
  }

  // ---- After the stop event every coroutine can end, where there is room for the sentinels ----

  predicate HasEnded(w: Worker) {
    w == Finished || w == Abandoned
  }

  /** A sender that waits gets on, what it waits for being given up under the stop event. */
  lemma SenderGetsOn(c: Config, steps: seq<Step>, s: State) returns (further: seq<Step>, t: State)
    requires ReachedBy(c, steps, s) && s.stop
    ensures ReachedBy(c, further, t) && steps <= further && t.stop && t.sender != DrainWait && !t.sender.Waiting?
    ensures t.capture == s.capture && t.captureQueue == s.captureQueue
    ensures t.workers == s.workers && t.networkQueue == s.networkQueue
  {
    hide ReachedBy;
    if s.sender == DrainWait {
      further, t := Then(c, steps, s, BySender(Drained));
    } else if s.sender.Waiting? {
      further, t := Then(c, steps, s, BySender(Admitted));
    } else {
      further, t := steps, s;
    }
  }

  lemma SenderEnds(c: Config, steps: seq<Step>, s: State) returns (further: seq<Step>, t: State)
    requires ReachedBy(c, steps, s) && s.stop
    ensures ReachedBy(c, further, t) && steps <= further && t.stop && t.sender == Stopped
    ensures t.capture == s.capture && t.captureQueue == s.captureQueue
    ensures t.workers == s.workers && t.networkQueue == s.networkQueue
  {
    hide ReachedBy;
    further, t := SenderGetsOn(c, steps, s);
    match t.sender
    case AtLoop => further, t := Then(c, further, t, BySender(Loop));
    case Getting => further, t := Then(c, further, t, BySender(GiveUp));
    case Sending(_, _) => further, t := Then(c, further, t, BySender(SendFails));
    case SendingEof => further, t := Then(c, further, t, BySender(EofFails(false)));
    case _ =>
  }

  lemma WorkerEnds(c: Config, steps: seq<Step>, s: State, i: nat) returns (further: seq<Step>, t: State)
    requires ReachedBy(c, steps, s) && s.stop && i < |s.workers|
    requires s.workers[i] == Finishing ==> |s.networkQueue| < c.networkCap
    ensures ReachedBy(c, further, t) && steps <= further && t.stop && t.sender == s.sender
    ensures t.capture == s.capture && t.captureQueue == s.captureQueue
    ensures |t.workers| == |s.workers| && HasEnded(t.workers[i]) && t.workers == s.workers[i := t.workers[i]]
    ensures |t.networkQueue| == |s.networkQueue| + One(s.workers[i] == Finishing)
  {
    hide ReachedBy;
    if HasEnded(s.workers[i]) {
      further, t := steps, s;
    } else {
      further, t := Then(c, steps, s, ByWorker(i, if s.workers[i] == Finishing then ClientPipeline.Finish else Quit));
    }
  }

  lemma {:induction false} FirstWorkersEnd(c: Config, steps: seq<Step>, s: State, n: nat)
    returns (further: seq<Step>, t: State)
    requires ReachedBy(c, steps, s) && s.stop && n <= |s.workers|
    requires |s.networkQueue| + Count(s.workers, Finishing) <= c.networkCap
    ensures ReachedBy(c, further, t) && steps <= further && t.stop && t.sender == s.sender
    ensures t.capture == s.capture && t.captureQueue == s.captureQueue
    ensures |t.workers| == |s.workers| && forall k :: 0 <= k < n ==> HasEnded(t.workers[k])
    ensures |t.networkQueue| + Count(t.workers, Finishing) <= c.networkCap
  {
    hide ReachedBy, Count;
    if n == 0 {
      further, t := steps, s;
    } else {
      further, t := FirstWorkersEnd(c, steps, s, n - 1);
      var before := t;
      LastIsCounted(before.workers, Finishing);
      further, t := WorkerEnds(c, further, t, n - 1);
      CountUpdate(before.workers, n - 1, t.workers[n - 1], Finishing);
    }
  }

  function Owed(c: Config, s: State): nat {
    if s.capture.Signalling? then s.capture.left else c.workers
  }

  lemma {:induction false} CaptureEnds(c: Config, steps: seq<Step>, s: State) returns (further: seq<Step>, t: State)
    requires ReachedBy(c, steps, s) && |s.captureQueue| + Owed(c, s) <= c.captureCap
    ensures ReachedBy(c, further, t) && steps <= further && t.capture == Signalling(0)
    ensures t.sender == s.sender && t.workers == s.workers && t.stop == s.stop
    decreases if s.capture.Signalling? then 0 else 1, Owed(c, s)
  {
    hide ReachedBy;
    if s.capture == Signalling(0) {
      further, t := steps, s;
    } else if s.capture == Capturing {
      further, t := Then(c, steps, s, ByCapture(NoMoreFrames));
      further, t := CaptureEnds(c, further, t);
    } else {
      further, t := Then(c, steps, s, ByCapture(PutSentinel));
      OneMoreItem(s.captureQueue, Sentinel(s.nextTicket));
      further, t := CaptureEnds(c, further, t);
    }
  }

  lemma OneMoreItem(s: set<Item>, x: Item)
    ensures |s + {x}| <= |s| + 1
  {
    assert x in s ==> s + {x} == s;
  }

  /** From every state of every run with the stop event set, whatever has failed, the run can go on until
      sender, workers and capture stage have all ended, if the network queue has room for the sentinels
      that workers hold and the capture queue for those still owed. */
  lemma ShutdownStaysReachable(c: Config, steps: seq<Step>, s: State) returns (further: seq<Step>, t: State)
    requires ReachedBy(c, steps, s) && s.stop
    requires |s.networkQueue| + Count(s.workers, Finishing) <= c.networkCap
    requires |s.captureQueue| + Owed(c, s) <= c.captureCap
    ensures ReachedBy(c, further, t) && steps <= further
    ensures t.sender == Stopped && t.capture == Signalling(0)
    ensures forall k :: 0 <= k < |t.workers| ==> HasEnded(t.workers[k])
  {
    hide ReachedBy, Count;
    further, t := SenderEnds(c, steps, s);
    further, t := FirstWorkersEnd(c, further, t, |t.workers|);
    further, t := CaptureEnds(c, further, t);
  }

  lemma StuckStep(c: Config, s: State, step: Step, w: nat)
    requires s.sender == Stopped && |s.networkQueue| >= c.networkCap && w < |s.workers| && s.workers[w] == Finishing
    requires Enabled(c, s, step)
    ensures var t := Apply(c, s, step);
            t.sender == Stopped && t.networkQueue == s.networkQueue && |t.workers| == |s.workers| && t.workers[w] == Finishing
  {
    hide CaptureApply, ReplyApply, CaptureEnabled, ReplyEnabled, Before, MaySendEof, Transition;
    match step
    case ByCapture(x) => CaptureTouches(c, s, x);
    case ByWorker(i, x) =>
    case BySender(x) =>
    case ByConsumer(x) =>
      ReplyLeavesWorkers(c, s, x);
      ReplyLeavesSender(c, s, x);
    case RaiseStop =>
  }

  /** The room is needed. A worker passes its sentinel on without looking at the stop event: once the sender
      has stopped and the network queue is full, it waits for ever, whatever else happens. */
  lemma {:induction false} SentinelIsStuck(c: Config, run: seq<State>, steps: seq<Step>, i: nat, k: nat, w: nat)
    requires IsRun(c, run, steps) && i <= k < |run|
    requires run[i].sender == Stopped && |run[i].networkQueue| >= c.networkCap
    requires w < |run[i].workers| && run[i].workers[w] == Finishing
    ensures run[k].sender == Stopped && run[k].networkQueue == run[i].networkQueue
    ensures w < |run[k].workers| && run[k].workers[w] == Finishing
  {
    hide Enabled, Apply, Init;
    if i < k {
      SentinelIsStuck(c, run, steps, i, k - 1, w);
      assert Moves(c, run[k - 1], steps[k - 1], run[k]);
      StuckStep(c, run[k - 1], steps[k - 1], w);
    }
  }

  // ---- What can happen to a frame ----

  /** A frame that a worker holds can fail to encode, and is then told to the reorder buffer as skipped. */
  lemma SkipHappens(c: Config, steps: seq<Step>, s: State, i: nat, q: nat, detail: string)
    returns (further: seq<Step>, t: State)
    requires ReachedBy(c, steps, s) && i < |s.workers| && s.workers[i] == Holding(q)
    ensures ReachedBy(c, further, t) && t.reports == s.reports + [R.Skipped(q, detail)]
  {
    hide ReachedBy;
    further, t := Then(c, steps, s, ByWorker(i, Fail));
    further, t := Then(c, further, t, ByConsumer(LocalSkip(q, detail)));
  }

  /** After the stop event a number can be drawn for a frame that is never accepted: without that event
      there are no such gaps. */
  lemma NumberIsLost(c: Config, steps: seq<Step>, s: State) returns (further: seq<Step>, t: State)
    requires ReachedBy(c, steps, s) && s.capture == Capturing
    ensures ReachedBy(c, further, t) && t.nextSequence == s.nextSequence + 1 && t.place == s.place
  {
    hide ReachedBy;
    further, t := Then(c, steps, s, RaiseStop);
    further, t := Then(c, further, t, ByCapture(Refused));
  }
}
