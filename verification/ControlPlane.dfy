/** utils/stream_protocol.py: the control-plane state machine and its table of pending ACKs. */
module ControlPlanes {
  import opened Common

  datatype Phase = Init | Handshaking | Streaming | Draining | Terminated | Failed

  datatype ErrorCode = NoError | ProtocolViolation | Timeout | InternalError | ShutdownError

  datatype Deadline = Deadline(at: int, timeout: int)

  datatype Plane = Plane(
    phase: Phase, pending: map<int, Deadline>, startedAt: Option<int>, endedAt: Option<int>,
    lastHeartbeat: Option<int>, errorCode: ErrorCode, errorMessage: Option<string>)

  const NEW := Plane(Init, map[], None, None, None, NoError, None)

  predicate Allowed(from: Phase, to: Phase) {
    match from
    case Init => to == Handshaking
    case Handshaking => to == Streaming || to == Failed
    case Streaming => to == Draining || to == Failed
    case Draining => to == Terminated || to == Failed
    case Terminated => false
    case Failed => false
  }

  /** `_transition`; None is the ControlPlaneError. `clock` is what the monotonic clock shows. */
  function MoveTo(p: Plane, target: Phase, clock: int): Option<Plane> {
    if target == p.phase then Some(p)
    else if !Allowed(p.phase, target) then None
    else Some(p.(phase := target, endedAt := if target == Terminated || target == Failed then Some(clock) else p.endedAt))
  }

  datatype Call =
    | Connected(now: int) | FirstData | FrameSent(sequence: int, now: int, timeout: int) | Ack(acked: int)
    | EofSent | EofReceived | ErrorSeen(code: ErrorCode, message: Option<string>) | Shutdown
    | Heartbeat(now: int) | Expire(now: int)

  /** What a call leaves behind and whether it raised; a raising call may leave something behind. */
  datatype Outcome = Outcome(plane: Plane, raised: bool)

  function Try(p: Plane, moved: Option<Plane>): Outcome {
    if moved == None then Outcome(p, true) else Outcome(moved.value, false)
  }

  function IsExpired(d: Deadline, now: int): bool {
    now >= d.at
  }

  function Rearmed(pending: map<int, Deadline>, now: int): (r: map<int, Deadline>)
    ensures r.Keys == pending.Keys
  {
    map q | q in pending :: if IsExpired(pending[q], now) then Deadline(now + pending[q].timeout, pending[q].timeout) else pending[q]
  }

  function Do(p: Plane, call: Call, clock: int): Outcome {
    match call
    case Connected(now) =>
      var r := Try(p, MoveTo(p, Handshaking, clock));
      if r.raised then r else r.(plane := r.plane.(startedAt := Some(now), lastHeartbeat := Some(now)))
    case FirstData =>
      if p.phase != Handshaking && p.phase != Streaming then Outcome(p, true) else Try(p, MoveTo(p, Streaming, clock))
    case FrameSent(q, now, timeout) =>
      var r :=
        if p.phase == Streaming || p.phase == Draining then Outcome(p, false)
        else if p.phase != Handshaking then Outcome(p, true)
        else Try(p, MoveTo(p, Streaming, clock));
      if r.raised then r else r.(plane := r.plane.(pending := r.plane.pending[q := Deadline(now + timeout, timeout)]))
    case Ack(q) =>
      if q !in p.pending then Outcome(p, true)
      else
        var r := p.(pending := p.pending - {q});
        if r.phase == Draining && r.pending == map[] then Try(r, MoveTo(r, Terminated, clock)) else Outcome(r, false)
    case EofSent =>
      if p.phase != Streaming && p.phase != Draining then Outcome(p, true) else Try(p, MoveTo(p, Draining, clock))
    case EofReceived =>
      if p.phase == Init || p.phase == Handshaking then Outcome(p, true)
      else
        var r := if p.phase == Streaming then Try(p, MoveTo(p, Draining, clock)) else Outcome(p, false);
        if r.plane.phase == Draining && r.plane.pending == map[]
        then Try(r.plane, MoveTo(r.plane, Terminated, clock)) else r
    case ErrorSeen(code, message) =>
      var r := p.(errorCode := code, errorMessage := message);
      Try(r, MoveTo(r, Failed, clock))
    case Shutdown =>
      var r := if p.phase == Terminated || p.phase == Failed then Outcome(p, false) else Try(p, MoveTo(p, Failed, clock));
      if r.raised then r else r.(plane := r.plane.(endedAt := Some(clock)))
    case Heartbeat(now) =>
      var r := p.(lastHeartbeat := Some(now));
      if r.phase == Handshaking then Try(r, MoveTo(r, Streaming, clock)) else Outcome(r, false)
    case Expire(now) => Outcome(p.(pending := Rearmed(p.pending, now)), false)
  }

  const HEARTBEAT_LIVENESS_NS := 6_000_000_000

  predicate HeartbeatTimedOut(p: Plane, now: int) {
    p.lastHeartbeat.Some? && now - p.lastHeartbeat.value >= HEARTBEAT_LIVENESS_NS
  }

  // ---- One call ----

  /** Nothing is pending before streaming begins or after termination. */
  predicate Settled(p: Plane) {
    p.phase == Init || p.phase == Handshaking || p.phase == Terminated ==> p.pending == map[]
  }

  function Rank(phase: Phase): nat {
    match phase
    case Init => 0
    case Handshaking => 1
    case Streaming => 2
    case Draining => 3
    case Terminated => 4
    case Failed => 5
  }

  /** Exactly when a call raises, and what it has changed by then: nothing but the error it reports. */
  lemma RaisesIff(p: Plane, call: Call, clock: int)
    ensures Do(p, call, clock).raised <==>
              match call
              case Connected(_) => p.phase !in {Init, Handshaking}
              case FirstData => p.phase !in {Handshaking, Streaming}
              case FrameSent(_, _, _) => p.phase !in {Handshaking, Streaming, Draining}
              case Ack(q) => q !in p.pending
              case EofSent => p.phase !in {Streaming, Draining}
              case EofReceived => p.phase in {Init, Handshaking}
              case ErrorSeen(_, _) => p.phase in {Init, Terminated}
              case Shutdown => p.phase == Init
              case Heartbeat(_) => false
              case Expire(_) => false
    ensures Do(p, call, clock).raised ==>
              Do(p, call, clock).plane ==
                if call.ErrorSeen? then p.(errorCode := call.code, errorMessage := call.message) else p
  {
  }

  lemma CallKeepsSettled(p: Plane, call: Call, clock: int)
    requires Settled(p)
    ensures Settled(Do(p, call, clock).plane)
  {
  }

  /** The phase only moves forward; TERMINATED and FAILED are absorbing, whatever is called. */
  lemma PhaseMovesForward(p: Plane, call: Call, clock: int)
    ensures Rank(p.phase) <= Rank(Do(p, call, clock).plane.phase)
    ensures p.phase == Terminated || p.phase == Failed ==> Do(p, call, clock).plane.phase == p.phase
  {
  }

  /** How a call changes the pending sequences: only a frame sent and an ACK that did not raise do. */
  function Tracked(before: set<int>, call: Call, raised: bool): set<int> {
    if raised then before
    else
      match call
      case FrameSent(q, _, _) => before + {q}
      case Ack(q) => before - {q}
      case _ => before
  }

  lemma CallTracksPending(p: Plane, call: Call, clock: int)
    ensures Do(p, call, clock).plane.pending.Keys == Tracked(p.pending.Keys, call, Do(p, call, clock).raised)
  {
    var r := Do(p, call, clock);
    match call
    case FrameSent(q, now, timeout) =>
      assert !r.raised ==> r.plane.pending.Keys == p.pending.Keys + {q};
    case Ack(q) =>
      assert !r.raised ==> r.plane.pending.Keys == p.pending.Keys - {q};
    case Expire(now) =>
      assert r.plane.pending.Keys == p.pending.Keys;
    case _ =>
  }

  /** Expired deadlines are armed again and no sequence is forgotten; asked a second time at the same
      instant nothing has expired, exactly when every re-armed timeout is positive. */
  lemma ExpiringTwice(pending: map<int, Deadline>, now: int)
    ensures Rearmed(pending, now).Keys == pending.Keys
    ensures (forall q :: q in pending ==> !IsExpired(Rearmed(pending, now)[q], now))
       <==> (forall q :: q in pending && IsExpired(pending[q], now) ==> pending[q].timeout > 0)
  {
    var r := Rearmed(pending, now);
    if forall q :: q in pending ==> !IsExpired(r[q], now) {
      forall q | q in pending && IsExpired(pending[q], now) ensures pending[q].timeout > 0 {
        assert !IsExpired(r[q], now);
      }
    }
  }

  /** The expired ones among `order`, in its order. */
  function ExpiredIn(order: seq<int>, pending: map<int, Deadline>, now: int): (r: seq<int>)
    requires forall q :: q in order ==> q in pending
    ensures forall q :: q in r <==> q in order && IsExpired(pending[q], now)
  {
    if order == [] then []
    else
      var front, q := order[..|order| - 1], order[|order| - 1];
      assert q in order && forall x :: x in order <==> x == q || x in front by { assert order == front + [q]; }
      ExpiredIn(front, pending, now) + if IsExpired(pending[q], now) then [q] else []
  }

  lemma ExpiredInStep(order: seq<int>, n: nat, pending: map<int, Deadline>, now: int)
    requires n < |order| && forall q :: q in order ==> q in pending
    ensures forall q :: q in order[..n] || q in order[..n + 1] ==> q in pending
    ensures order[n] in pending
    ensures ExpiredIn(order[..n + 1], pending, now)
         == ExpiredIn(order[..n], pending, now) + if IsExpired(pending[order[n]], now) then [order[n]] else []
  {
    assert order[n] in order && forall q :: q in order[..n] || q in order[..n + 1] ==> q in order;
    assert order[..n + 1][..n] == order[..n];
  }

  // ---- Whole runs ----

  datatype Timed = Timed(call: Call, clock: int)

  function After(calls: seq<Timed>): Plane {
    if calls == [] then NEW
    else Do(After(calls[..|calls| - 1]), calls[|calls| - 1].call, calls[|calls| - 1].clock).plane
  }

  /** Whether call number `i` of the run raised. */
  function Raised(calls: seq<Timed>, i: nat): bool
    requires i < |calls|
  {
    Do(After(calls[..i]), calls[i].call, calls[i].clock).raised
  }

  /** Every run, raising calls included. */
  lemma {:induction false} RunStaysSettled(calls: seq<Timed>)
    ensures Settled(After(calls))
  {
    if calls != [] {
      RunStaysSettled(calls[..|calls| - 1]);
      CallKeepsSettled(After(calls[..|calls| - 1]), calls[|calls| - 1].call, calls[|calls| - 1].clock);
    }
  }

  /** Once reached, TERMINATED and FAILED stay. */
  lemma {:induction false} FinalPhasesStay(calls: seq<Timed>, i: nat)
    requires i <= |calls|
    requires After(calls[..i]).phase == Terminated || After(calls[..i]).phase == Failed
    ensures After(calls).phase == After(calls[..i]).phase
  {
    if i < |calls| {
      var n := |calls| - 1;
      assert calls[..n][..i] == calls[..i];
      FinalPhasesStay(calls[..n], i);
      PhaseMovesForward(After(calls[..n]), calls[n].call, calls[n].clock);
    } else {
      assert calls[..i] == calls;
    }
  }

  ghost predicate SentAt(calls: seq<Timed>, q: int, i: nat)
    requires i < |calls|
  {
    calls[i].call.FrameSent? && calls[i].call.sequence == q && !Raised(calls, i)
  }

  ghost predicate AckedAt(calls: seq<Timed>, q: int, i: nat)
    requires i < |calls|
  {
    calls[i].call == Ack(q) && !Raised(calls, i)
  }

  /** `q` was sent, and not successfully acknowledged since. */
  ghost predicate Outstanding(calls: seq<Timed>, q: int) {
    exists i :: 0 <= i < |calls| && SentAt(calls, q, i) && UnackedSince(calls, q, i)
  }

  ghost predicate UnackedSince(calls: seq<Timed>, q: int, i: nat) {
    forall k :: i < k < |calls| ==> !AckedAt(calls, q, k)
  }

  lemma SamePast(calls: seq<Timed>, n: nat, q: int)
    requires n <= |calls|
    ensures forall i :: 0 <= i < n ==> SentAt(calls[..n], q, i) == SentAt(calls, q, i)
    ensures forall i :: 0 <= i < n ==> AckedAt(calls[..n], q, i) == AckedAt(calls, q, i)
  {
    forall i | 0 <= i < n ensures Raised(calls[..n], i) == Raised(calls, i) {
      assert calls[..n][..i] == calls[..i];
    }
  }

  /** In every run the pending sequences are exactly those sent since their last successful ACK. */
  lemma {:induction false} PendingIsOutstanding(calls: seq<Timed>, q: int)
    ensures q in After(calls).pending <==> Outstanding(calls, q)
  {
    if calls != [] {
      var n := |calls| - 1;
      var p := After(calls[..n]);
      PendingIsOutstanding(calls[..n], q);
      CallTracksPending(p, calls[n].call, calls[n].clock);
      hide Do, After;
      SamePast(calls, n, q);
      if SentAt(calls, q, n) {
        assert Outstanding(calls, q);
      } else if AckedAt(calls, q, n) {
        assert !Outstanding(calls, q);
      } else {
        OutstandingStays(calls, q);
      }
    }
  }

  lemma OutstandingStays(calls: seq<Timed>, q: int)
    requires calls != [] && !SentAt(calls, q, |calls| - 1) && !AckedAt(calls, q, |calls| - 1)
    ensures Outstanding(calls, q) == Outstanding(calls[..|calls| - 1], q)
  {
    if Outstanding(calls, q) {
      OutstandingBefore(calls, q);
    }
    if Outstanding(calls[..|calls| - 1], q) {
      OutstandingAfter(calls, q);
    }
  }

  lemma OutstandingBefore(calls: seq<Timed>, q: int)
    requires calls != [] && !SentAt(calls, q, |calls| - 1) && Outstanding(calls, q)
    ensures Outstanding(calls[..|calls| - 1], q)
  {
    var n := |calls| - 1;
    SamePast(calls, n, q);
    hide SentAt, AckedAt, Raised, After;
    var i :| 0 <= i < |calls| && SentAt(calls, q, i) && UnackedSince(calls, q, i);
    assert SentAt(calls[..n], q, i) && UnackedSince(calls[..n], q, i);
  }

  lemma OutstandingAfter(calls: seq<Timed>, q: int)
    requires calls != [] && !AckedAt(calls, q, |calls| - 1) && Outstanding(calls[..|calls| - 1], q)
    ensures Outstanding(calls, q)
  {
    var n := |calls| - 1;
    var before := calls[..n];
    hide SentAt, AckedAt, Raised, After, UnackedSince;
    var i :| 0 <= i < n && SentAt(before, q, i) && UnackedSince(before, q, i);
    SamePast(calls, n, q);
    UnackedStill(calls, q, i);
    assert SentAt(calls, q, i);
  }

  lemma UnackedStill(calls: seq<Timed>, q: int, i: nat)
    requires i < |calls| - 1 && UnackedSince(calls[..|calls| - 1], q, i) && !AckedAt(calls, q, |calls| - 1)
    ensures UnackedSince(calls, q, i)
  {
    var n := |calls| - 1;
    SamePast(calls, n, q);
    hide AckedAt, SentAt, Raised, After;
    forall k | i < k < |calls| ensures !AckedAt(calls, q, k) {
      assert k < n ==> !AckedAt(calls[..n], q, k);
    }
  }

  /** What a call does to the insertion order of the pending sequences: a sequence sent again keeps its
      place. */
  function OrderAfter(order: seq<int>, call: Call, raised: bool): seq<int> {
    if raised then order
    else
      match call
      case FrameSent(q, _, _) => if q in order then order else order + [q]
      case Ack(q) => Without(order, q)
      case _ => order
  }

  // ---- The object ----

  class ControlPlane {
    var state: Phase
    var pendingDeadlines: map<int, Deadline>
    var order: seq<int>  // the insertion order of the dict `pendingDeadlines`
    var startedAt: Option<int>
    var endedAt: Option<int>
    var lastHeartbeat: Option<int>
    var errorCode: ErrorCode
    var errorMessage: Option<string>

    constructor ()
      ensures View() == NEW && Valid() && order == []
    {
      state, pendingDeadlines, startedAt, endedAt := Init, map[], None, None;
      order := [];
      lastHeartbeat, errorCode, errorMessage := None, NoError, None;
    }

    ghost predicate Valid()
      reads this
    {
      Distinct(order) && forall q :: q in order <==> q in pendingDeadlines
    }

    function View(): Plane
      reads this
    {
      Plane(state, pendingDeadlines, startedAt, endedAt, lastHeartbeat, errorCode, errorMessage)
    }

    method MoveState(target: Phase, clock: int) returns (raised: bool)
      modifies this`state, this`endedAt
      ensures Outcome(View(), raised) == Try(old(View()), MoveTo(old(View()), target, clock))
    {
      if target == state {
        return false;
      }
      if !Allowed(state, target) {
        return true;
      }
      state := target;
      if target == Terminated || target == Failed {
        endedAt := Some(clock);
      }
      return false;
    }

    method OnConnected(now: int, clock: int) returns (raised: bool)
      requires Valid()
      modifies this
      ensures Valid()
      ensures Outcome(View(), raised) == Do(old(View()), Connected(now), clock)
      ensures order == OrderAfter(old(order), Connected(now), raised)
    {
      raised := MoveState(Handshaking, clock);
      if !raised {
        startedAt, lastHeartbeat := Some(now), Some(now);
      }
    }

    method OnFirstData(clock: int) returns (raised: bool)
      requires Valid()
      modifies this
      ensures Valid()
      ensures Outcome(View(), raised) == Do(old(View()), FirstData, clock)
      ensures order == OrderAfter(old(order), FirstData, raised)
    {
      if state != Handshaking && state != Streaming {
        return true;
      }
      raised := MoveState(Streaming, clock);
    }

    method OnFrameSent(sequence: int, now: int, timeout: int, clock: int) returns (raised: bool)
      requires Valid()
      modifies this
      ensures Valid()
      ensures Outcome(View(), raised) == Do(old(View()), FrameSent(sequence, now, timeout), clock)
      ensures order == OrderAfter(old(order), FrameSent(sequence, now, timeout), raised)
    {
      raised := false;
      if state != Streaming && state != Draining {
        raised := OnFirstData(clock);
      }
      if !raised {
        if sequence !in pendingDeadlines {
          order := order + [sequence];
        }
        pendingDeadlines := pendingDeadlines[sequence := Deadline(now + timeout, timeout)];
      }
    }

    method OnAck(sequence: int, clock: int) returns (raised: bool)
      requires Valid()
      modifies this
      ensures Valid()
      ensures Outcome(View(), raised) == Do(old(View()), Ack(sequence), clock)
      ensures order == OrderAfter(old(order), Ack(sequence), raised)
    {
      if sequence !in pendingDeadlines {
        return true;
      }
      WithoutIsDistinct(order, sequence);
      pendingDeadlines, order := pendingDeadlines - {sequence}, Without(order, sequence);
      raised := false;
      if state == Draining && pendingDeadlines == map[] {
        raised := MoveState(Terminated, clock);
      }
    }

    method OnEofSent(clock: int) returns (raised: bool)
      requires Valid()
      modifies this
      ensures Valid()
      ensures Outcome(View(), raised) == Do(old(View()), EofSent, clock)
      ensures order == OrderAfter(old(order), EofSent, raised)
    {
      if state != Streaming && state != Draining {
        return true;
      }
      raised := MoveState(Draining, clock);
    }

    method OnEofReceived(clock: int) returns (raised: bool)
      requires Valid()
      modifies this
      ensures Valid()
      ensures Outcome(View(), raised) == Do(old(View()), EofReceived, clock)
      ensures order == OrderAfter(old(order), EofReceived, raised)
    {
      if state == Init || state == Handshaking {
        return true;
      }
      raised := false;
      if state == Streaming {
        raised := MoveState(Draining, clock);
      }
      if state == Draining && pendingDeadlines == map[] {
        raised := MoveState(Terminated, clock);
      }
    }

    method OnError(code: ErrorCode, message: Option<string>, clock: int) returns (raised: bool)
      requires Valid()
      modifies this
      ensures Valid()
      ensures Outcome(View(), raised) == Do(old(View()), ErrorSeen(code, message), clock)
      ensures order == OrderAfter(old(order), ErrorSeen(code, message), raised)
    {
      errorCode, errorMessage := code, message;
      raised := MoveState(Failed, clock);
    }

    method OnShutdown(clock: int) returns (raised: bool)
      requires Valid()
      modifies this
      ensures Valid()
      ensures Outcome(View(), raised) == Do(old(View()), Shutdown, clock)
      ensures order == OrderAfter(old(order), Shutdown, raised)
    {
      raised := false;
      if state != Terminated && state != Failed {
        raised := MoveState(Failed, clock);
      }
      if !raised {
        endedAt := Some(clock);
      }
    }

    method OnHeartbeat(now: int, clock: int) returns (raised: bool)
      requires Valid()
      modifies this
      ensures Valid()
      ensures Outcome(View(), raised) == Do(old(View()), Heartbeat(now), clock)
      ensures order == OrderAfter(old(order), Heartbeat(now), raised)
    {
      lastHeartbeat := Some(now);
      raised := false;
      if state == Handshaking {
        raised := MoveState(Streaming, clock);
      }
    }

    /** No heartbeat for too long. */
    method IsSilent(now: int) returns (silent: bool)
      ensures silent == HeartbeatTimedOut(View(), now)
    {
      if lastHeartbeat == None {
        return false;
      }
      silent := now - lastHeartbeat.value >= HEARTBEAT_LIVENESS_NS;
    }

    /** The expired sequences, in the order they were entered; their deadlines are armed again. */
    method ExpiredSequences(now: int) returns (expired: seq<int>)
      requires Valid()
      modifies this`pendingDeadlines
      ensures Valid()
      ensures View() == Do(old(View()), Expire(now), now).plane
      ensures expired == ExpiredIn(order, old(pendingDeadlines), now)
    {
      hide Distinct, RearmedUpTo, ExpiredIn, Rearmed;
      var items := pendingDeadlines;
      expired := [];
      NothingRearmed(order, items, now);
      for i := 0 to |order|
        invariant RearmedUpTo(order, i, items, pendingDeadlines, expired, now)
      {
        ghost var before := pendingDeadlines;
        RearmStep(order, i, items, before, expired, now);
        var q := order[i];
        var d := items[q];
        if now >= d.at {
          expired := expired + [q];
          pendingDeadlines := pendingDeadlines[q := Deadline(now + d.timeout, d.timeout)];
        }
      }
      AllRearmed(order, items, pendingDeadlines, expired, now);
    }
  }

  /** The deadlines `pending` and the list `expired` when the first `i` sequences were looked at. */
  ghost predicate RearmedUpTo(
    order: seq<int>, i: nat, items: map<int, Deadline>, pending: map<int, Deadline>, expired: seq<int>, now: int)
  {
    && i <= |order| && Distinct(order) && (forall q :: q in order <==> q in items)
    && pending.Keys == items.Keys
    && (forall k :: 0 <= k < |order| ==>
          order[k] in items
          && pending[order[k]] == if k < i then Rearmed(items, now)[order[k]] else items[order[k]])
    && (forall q :: q in order[..i] ==> q in items)
    && expired == ExpiredIn(order[..i], items, now)
  }

  lemma NothingRearmed(order: seq<int>, items: map<int, Deadline>, now: int)
    requires Distinct(order) && forall q :: q in order <==> q in items
    ensures RearmedUpTo(order, 0, items, items, [], now)
  {
    assert order[..0] == [];
  }

  lemma RearmStep(
    order: seq<int>, i: nat, items: map<int, Deadline>, pending: map<int, Deadline>, expired: seq<int>, now: int)
    requires RearmedUpTo(order, i, items, pending, expired, now) && i < |order|
    ensures order[i] in items && order[i] in pending
    ensures var q := order[i];
            var d := items[q];
            if now >= d.at
            then RearmedUpTo(order, i + 1, items, pending[q := Deadline(now + d.timeout, d.timeout)], expired + [q], now)
            else RearmedUpTo(order, i + 1, items, pending, expired, now)
  {
    var q := order[i];
    assert q in items;
    hide RearmedUpTo;
    if now >= items[q].at {
      RearmExpired(order, i, items, pending, expired, now);
    } else {
      RearmOther(order, i, items, pending, expired, now);
    }
    assert q in pending by {
      RearmedKeys(order, i, items, pending, expired, now);
    }
  }

  lemma RearmedKeys(
    order: seq<int>, i: nat, items: map<int, Deadline>, pending: map<int, Deadline>, expired: seq<int>, now: int)
    requires RearmedUpTo(order, i, items, pending, expired, now)
    ensures pending.Keys == items.Keys
  {
  }

  lemma RearmExpired(
    order: seq<int>, i: nat, items: map<int, Deadline>, pending: map<int, Deadline>, expired: seq<int>, now: int)
    requires RearmedUpTo(order, i, items, pending, expired, now) && i < |order| && order[i] in items
    requires now >= items[order[i]].at
    ensures var q := order[i];
            var d := items[q];
            RearmedUpTo(order, i + 1, items, pending[q := Deadline(now + d.timeout, d.timeout)], expired + [q], now)
  {
    ExpiredInStep(order, i, items, now);
    hide ExpiredIn;
    var q, d := order[i], items[order[i]];
    var armed := pending[q := Deadline(now + d.timeout, d.timeout)];
    assert armed.Keys == pending.Keys;
    forall k | 0 <= k < |order|
      ensures armed[order[k]] == if k < i + 1 then Rearmed(items, now)[order[k]] else items[order[k]]
    {
      assert k != i ==> order[k] != q;
    }
  }

  lemma RearmOther(
    order: seq<int>, i: nat, items: map<int, Deadline>, pending: map<int, Deadline>, expired: seq<int>, now: int)
    requires RearmedUpTo(order, i, items, pending, expired, now) && i < |order| && order[i] in items
    requires now < items[order[i]].at
    ensures RearmedUpTo(order, i + 1, items, pending, expired, now)
  {
    ExpiredInStep(order, i, items, now);
    hide ExpiredIn;
    assert expired + [] == expired;
  }

  lemma AllRearmed(
    order: seq<int>, items: map<int, Deadline>, pending: map<int, Deadline>, expired: seq<int>, now: int)
    requires RearmedUpTo(order, |order|, items, pending, expired, now)
    ensures pending == Rearmed(items, now) && expired == ExpiredIn(order, items, now)
  {
    assert order[..|order|] == order;
    hide ExpiredIn;
    forall q | q in items ensures pending[q] == Rearmed(items, now)[q] {
      var k :| 0 <= k < |order| && order[k] == q;
    }
  }
}
