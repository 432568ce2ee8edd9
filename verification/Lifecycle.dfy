/** common/state_machine.py: the lifecycle machine and its history. */
module Lifecycles {
  import opened Common

  datatype StreamState = Init | Handshaking | Streaming | Draining | Terminated | Failed

  /** A history entry with a "from" field records a change of state, one without a new reason. */
  datatype Record =
    | Changed(from: StreamState, to: StreamState, reason: Option<string>)
    | Reworded(state: StreamState, reason: Option<string>)

  datatype Machine = Machine(state: StreamState, reason: Option<string>, history: seq<Record>)

  const NEW := Machine(Init, None, [])

  predicate Allowed(from: StreamState, to: StreamState) {
    match from
    case Init => to == Handshaking || to == Failed
    case Handshaking => to == Streaming || to == Draining || to == Failed
    case Streaming => to == Draining || to == Failed
    case Draining => to == Terminated || to == Failed
    case Terminated => false
    case Failed => false
  }

  function Enter(m: Machine, target: StreamState, reason: Option<string>): Machine {
    Machine(target, reason, m.history + [Changed(m.state, target, reason)])
  }

  /** Staying in a state takes over a reason that is given, not empty and new. */
  function Reword(m: Machine, reason: Option<string>): Machine {
    if reason != None && reason != Some("") && reason != m.reason
    then m.(reason := reason, history := m.history + [Reworded(m.state, reason)])
    else m
  }

  function Fail(m: Machine, reason: Option<string>): Machine {
    if m.state == Failed then Reword(m, reason) else Enter(m, Failed, reason)
  }

  /** `transition`; the flag is the StateTransitionError. FAILED is entered from everywhere, even
      TERMINATED, and is never left: asked for another state a failed machine stays without error. */
  function Transition(m: Machine, target: StreamState, reason: Option<string>): (Machine, bool) {
    if target == Failed then (Fail(m, reason), false)
    else if m.state == Failed then (m, false)
    else if target == m.state then (Reword(m, reason), false)
    else if !Allowed(m.state, target) then (m, true)
    else (Enter(m, target, reason), false)
  }

  // ---- The history is a path ----

  /** Follows a history from INIT; None if an entry does not start where the one before it ended. */
  function Replay(history: seq<Record>): Option<(StreamState, Option<string>)> {
    if history == [] then Some((Init, None))
    else
      match Replay(history[..|history| - 1])
      case None => None
      case Some((state, reason)) =>
        match history[|history| - 1]
        case Changed(from, to, why) => if from == state && to != state then Some((to, why)) else None
        case Reworded(same, why) => if same == state then Some((state, why)) else None
  }

  function Changes(history: seq<Record>): nat {
    if history == [] then 0
    else Changes(history[..|history| - 1]) + if history[|history| - 1].Changed? then 1 else 0
  }

  function Rank(s: StreamState): nat {
    match s
    case Init => 0
    case Handshaking => 1
    case Streaming => 2
    case Draining => 3
    case Terminated => 4
    case Failed => 5
  }

  /** The history replays to the current state and reason, with no more changes than the rank of the
      state, and never leaves a state for an earlier one. */
  ghost predicate Faithful(m: Machine) {
    Replay(m.history) == Some((m.state, m.reason)) && Changes(m.history) <= Rank(m.state)
  }

  lemma EnterKeepsFaithful(m: Machine, target: StreamState, reason: Option<string>)
    requires Faithful(m) && (Allowed(m.state, target) || (target == Failed && m.state != Failed))
    ensures Faithful(Enter(m, target, reason))
  {
    assert Enter(m, target, reason).history[..|m.history|] == m.history;
  }

  lemma RewordKeepsFaithful(m: Machine, reason: Option<string>)
    requires Faithful(m)
    ensures Faithful(Reword(m, reason))
  {
    assert (m.history + [Reworded(m.state, reason)])[..|m.history|] == m.history;
  }

  lemma TransitionKeepsFaithful(m: Machine, target: StreamState, reason: Option<string>)
    requires Faithful(m)
    ensures Faithful(Transition(m, target, reason).0) && Faithful(Fail(m, reason))
    ensures Rank(m.state) <= Rank(Transition(m, target, reason).0.state)
    ensures m.state == Failed ==> Transition(m, target, reason).0.state == Failed
    ensures m.state == Terminated ==> Transition(m, target, reason).0.state in {Terminated, Failed}
  {
    hide Faithful;
    RewordKeepsFaithful(m, reason);
    if m.state != Failed {
      EnterKeepsFaithful(m, Failed, reason);
    }
    if Allowed(m.state, target) {
      EnterKeepsFaithful(m, target, reason);
    }
  }

  // ---- Whole runs ----

  datatype Request = Move(target: StreamState, reason: Option<string>) | GiveUp(reason: Option<string>) | Reset

  function Apply(m: Machine, r: Request): Machine {
    match r
    case Move(target, reason) => Transition(m, target, reason).0
    case GiveUp(reason) => Fail(m, reason)
    case Reset => NEW
  }

  function After(requests: seq<Request>): Machine {
    if requests == [] then NEW else Apply(After(requests[..|requests| - 1]), requests[|requests| - 1])
  }

  /** After any requests, refused ones and resets included, the history is a connected path from INIT
      that replays to the current state and reason, with at most five changes of state since the
      last reset. */
  lemma {:induction false} HistoryReplays(requests: seq<Request>)
    ensures var m := After(requests);
            Replay(m.history) == Some((m.state, m.reason)) && Changes(m.history) <= 5
    ensures Faithful(After(requests))
  {
    if requests != [] {
      var before := requests[..|requests| - 1];
      HistoryReplays(before);
      match requests[|requests| - 1]
      case Move(target, reason) => TransitionKeepsFaithful(After(before), target, reason);
      case GiveUp(reason) => TransitionKeepsFaithful(After(before), Failed, reason);
      case Reset => assert Faithful(NEW);
    }
  }

  // ---- Told from the requests ----

  /** Which moves are refused, and where the others lead: of the moves between two different states other
      than FAILED exactly five are made. */
  lemma RefusedIff(m: Machine, target: StreamState, reason: Option<string>)
    ensures var (r, refused) := Transition(m, target, reason);
            && (refused <==>
                && m.state != Failed && target != Failed && target != m.state
                && (m.state, target) !in
                     {(Init, Handshaking), (Handshaking, Streaming), (Handshaking, Draining), (Streaming, Draining),
                      (Draining, Terminated)})
            && (refused ==> r == m)
            && (m.state != Failed && !refused ==> r.state == target)
            && (m.state == Failed ==> r.state == Failed)
            && Fail(m, reason).state == Failed
  {
  }

  /** A request adds at most one entry to the history and changes none; it adds one exactly when it
      changes the state or the reason. */
  lemma HistoryGrows(m: Machine, r: Request)
    requires r != Reset
    ensures var n := Apply(m, r);
            && m.history <= n.history && |n.history| <= |m.history| + 1
            && (n.state != m.state || n.reason != m.reason ==> |n.history| == |m.history| + 1)
            && (n.state == m.state && n.reason == m.reason ==> n.history == m.history)
  {
  }

  /** The machine after the first `n` requests. */
  function At(requests: seq<Request>, n: nat): Machine
    requires n <= |requests|
  {
    if n == 0 then NEW else Apply(At(requests, n - 1), requests[n - 1])
  }

  lemma {:induction false} AtIsAfter(requests: seq<Request>, n: nat)
    requires n <= |requests|
    ensures At(requests, n) == After(requests[..n])
  {
    hide Apply;
    if n > 0 {
      AtIsAfter(requests, n - 1);
      assert requests[..n][..n - 1] == requests[..n - 1];
    }
  }

  function ReasonOf(r: Request): Option<string> {
    if r.Reset? then None else r.reason
  }

  /** Request `i` moves the machine to another state, or back to the start, or gives the state it is in a
      reason that is not empty. */
  predicate GivesReason(requests: seq<Request>, i: nat)
    requires i < |requests|
  {
    var r, state := requests[i], At(requests, i).state;
    || r.Reset? || At(requests, i + 1).state != state
    || (((r.Move? && r.target == state) || (r.GiveUp? && state == Failed)) && r.reason != None && r.reason != Some(""))
  }

  lemma ReasonStep(requests: seq<Request>, i: nat)
    requires i < |requests|
    ensures At(requests, i + 1).reason ==
              if GivesReason(requests, i) then ReasonOf(requests[i]) else At(requests, i).reason
  {
    assert At(requests, i + 1) == Apply(At(requests, i), requests[i]);
    hide At;
  }

  /** The reason is that of the last request, request `i`, that gave one, and nothing was ever given when
      there is none. */
  lemma {:induction false} ReasonIsLast(requests: seq<Request>, n: nat, i: nat)
    requires n <= |requests|
    ensures i < n && GivesReason(requests, i) && (forall k :: i < k < n ==> !GivesReason(requests, k)) ==>
              At(requests, n).reason == ReasonOf(requests[i])
    ensures (forall k :: 0 <= k < n ==> !GivesReason(requests, k)) ==> At(requests, n).reason == None
  {
    if n > 0 {
      ReasonIsLast(requests, n - 1, i);
      ReasonStep(requests, n - 1);
      hide GivesReason, At;
    }
  }

  /** Five changes do happen. */
  lemma FiveChangesHappen()
    ensures var m := After([Move(Handshaking, None), Move(Streaming, None), Move(Draining, None),
                            Move(Terminated, None), GiveUp(None)]);
            m.state == Failed && Changes(m.history) == 5
  {
    var m1 := Enter(NEW, Handshaking, None);
    var m2 := Enter(m1, Streaming, None);
    var m3 := Enter(m2, Draining, None);
    var m4 := Enter(m3, Terminated, None);
    var m5 := Enter(m4, Failed, None);
    var r := [Move(Handshaking, None), Move(Streaming, None), Move(Draining, None), Move(Terminated, None), GiveUp(None)];
    AfterAppend([], Move(Handshaking, None));
    AfterAppend(r[..1], Move(Streaming, None));
    AfterAppend(r[..2], Move(Draining, None));
    AfterAppend(r[..3], Move(Terminated, None));
    AfterAppend(r[..4], GiveUp(None));
    assert [] + [Move(Handshaking, None)] == r[..1] && r[..1] + [Move(Streaming, None)] == r[..2];
    assert r[..2] + [Move(Draining, None)] == r[..3] && r[..3] + [Move(Terminated, None)] == r[..4];
    assert r[..4] + [GiveUp(None)] == r;
    hide After;
    assert After(r) == m5;
    ChangesOfEnter(NEW, Handshaking);
    ChangesOfEnter(m1, Streaming);
    ChangesOfEnter(m2, Draining);
    ChangesOfEnter(m3, Terminated);
    ChangesOfEnter(m4, Failed);
  }

  lemma AfterAppend(requests: seq<Request>, r: Request)
    ensures After(requests + [r]) == Apply(After(requests), r) && After([]) == NEW
  {
    assert (requests + [r])[..|requests|] == requests;
  }

  lemma ChangesOfEnter(m: Machine, target: StreamState)
    ensures Changes(Enter(m, target, None).history) == Changes(m.history) + 1
  {
    assert Enter(m, target, None).history[..|m.history|] == m.history;
  }

  // ---- The object ----

  class StreamStateMachine {
    var state: StreamState
    var reason: Option<string>
    var history: seq<Record>

    constructor ()
      ensures View() == NEW
    {
      state, reason, history := Init, None, [];
    }

    function View(): Machine
      reads this
    {
      Machine(state, reason, history)
    }

    method TransitionTo(target: StreamState, why: Option<string>) returns (raised: bool)
      modifies this
      ensures (View(), raised) == Transition(old(View()), target, why)
    {
      if target == Failed {
        EnterFailed(why);
        return false;
      }
      if state == Failed {
        return false;
      }
      if target == state {
        if why != None && why != Some("") && why != reason {
          reason := why;
          history := history + [Reworded(state, why)];
        }
        return false;
      }
      if !Allowed(state, target) {
        return true;
      }
      var previous := state;
      state := target;
      reason := why;
      history := history + [Changed(previous, target, why)];
      return false;
    }

    method EnterFailed(why: Option<string>)
      modifies this
      ensures View() == Fail(old(View()), why)
    {
      if state == Failed {
        if why != None && why != Some("") && why != reason {
          reason := why;
          history := history + [Reworded(state, why)];
        }
        return;
      }
      var previous := state;
      state := Failed;
      reason := why;
      history := history + [Changed(previous, Failed, why)];
    }

    method ResetToInit()
      modifies this
      ensures View() == NEW
    {
      state, reason, history := Init, None, [];
    }
  }
}

/** nodes/stream_client.py and nodes/stream_server.py: the call sites that drive the two machines. */
module Sessions {
  import opened Common
  import C = ControlPlanes
  import L = Lifecycles

  datatype Session = Session(control: C.Plane, lifecycle: L.Machine)

  const NEW := Session(C.NEW, L.NEW)

  /** What a node does to the two machines in one go. `reason` is the text it passes. */
  datatype Site =
    | Connect(now: int)                              // both nodes, connection established
    | ControlCall(call: C.Call)                      // frames sent, heartbeats, errors, timeouts, shutdown
    | FirstFrameSent                                 // client sender
    | FirstFrameReceived                             // server receive loop
    | EofSent                                        // client sender
    | EofReplied                                     // server send loop
    | AckReceived(acked: int)                        // client reply consumer
    | EofFromServer                                  // client reply consumer
    | EofFromClient                                  // server receive loop
    | GiveUp(reason: Option<string>)                 // every failure path
    | SessionComplete                                // server, end of connection

  function Call(s: Session, call: C.Call, clock: int): (Session, bool) {
    var r := C.Do(s.control, call, clock);
    (s.(control := r.plane), r.raised)
  }

  function Move(s: Session, target: L.StreamState, why: string): Session {
    s.(lifecycle := L.Transition(s.lifecycle, target, Some(why)).0)
  }

  /** The guarded move to TERMINATED that every site uses. */
  function Finish(s: Session, why: string): Session {
    if s.control.phase == C.Terminated then Move(s, L.Terminated, why) else s
  }

  /** Draining, and the move to TERMINATED behind it, unless the first of the two is refused. */
  function DrainThenFinish(s: Session, why: string): Session {
    if L.Transition(s.lifecycle, L.Draining, Some(why)).1 then s else Finish(Move(s, L.Draining, why), why)
  }

  function Visit(s: Session, site: Site, clock: int): Session {
    match site
    case Connect(now) =>
      var (r, raised) := Call(s, C.Connected(now), clock);
      if raised then r else Move(r, L.Handshaking, "connected")
    case ControlCall(call) => Call(s, call, clock).0
    case FirstFrameSent => Move(s, L.Streaming, "first frame sent")
    case FirstFrameReceived =>
      if s.control.phase != C.Init && s.control.phase != C.Handshaking then s
      else
        var (r, raised) := Call(s, C.FirstData, clock);
        if raised then r else Move(r, L.Streaming, "first frame")
    case EofSent =>
      var (r, raised) := Call(s, C.EofSent, clock);
      if raised then r else Move(r, L.Draining, "EOF sent")
    case EofReplied =>
      if s.control.phase == C.Failed || s.control.phase == C.Terminated then Move(s, L.Draining, "EOF sent")
      else
        var (r, raised) := Call(s, C.EofSent, clock);
        if raised then r else Move(r, L.Draining, "EOF sent")
    case AckReceived(q) =>
      var (r, raised) := Call(s, C.Ack(q), clock);
      if !raised then Finish(r, "acks drained")
      else
        var (e, again) := Call(r, C.ErrorSeen(C.ProtocolViolation, Some("ack for unknown sequence")), clock);
        if again then e else e.(lifecycle := L.Fail(e.lifecycle, Some("ack processing error")))
    case EofFromServer =>
      var (r, raised) := Call(s, C.EofReceived, clock);
      if !raised then DrainThenFinish(r, "server EOF")
      else
        var (e, again) := Call(r, C.ErrorSeen(C.ProtocolViolation, Some("EOF received before streaming began")), clock);
        if again then e else DrainThenFinish(e, "server EOF")
    case EofFromClient =>
      var (r, raised) := Call(s, C.EofReceived, clock);
      if raised then r else DrainThenFinish(r, "client EOF")
    case GiveUp(reason) => s.(lifecycle := L.Fail(s.lifecycle, reason))
    case SessionComplete =>
      var (r, raised) := Call(s, C.Shutdown, clock);
      if raised || r.lifecycle.state == L.Failed then r else Finish(r, "session complete")
  }

  /** A terminated lifecycle means a terminated control plane with nothing pending. */
  ghost predicate Agree(s: Session) {
    && C.Settled(s.control) && L.Faithful(s.lifecycle)
    && (s.lifecycle.state == L.Terminated ==> s.control.phase == C.Terminated)
  }

  lemma CallKeepsAgreement(s: Session, call: C.Call, clock: int)
    requires Agree(s)
    ensures Agree(Call(s, call, clock).0)
  {
    C.CallKeepsSettled(s.control, call, clock);
    C.PhaseMovesForward(s.control, call, clock);
    hide C.Do, C.Settled, L.Faithful;
  }

  lemma MoveKeepsAgreement(s: Session, target: L.StreamState, why: string)
    requires Agree(s) && (target == L.Terminated ==> s.control.phase == C.Terminated)
    ensures Agree(Move(s, target, why))
  {
    L.TransitionKeepsFaithful(s.lifecycle, target, Some(why));
    hide C.Settled, L.Faithful;
  }

  lemma FailKeepsAgreement(s: Session, reason: Option<string>)
    requires Agree(s)
    ensures Agree(s.(lifecycle := L.Fail(s.lifecycle, reason)))
  {
    L.TransitionKeepsFaithful(s.lifecycle, L.Failed, reason);
    hide C.Settled, L.Faithful;
  }

  lemma FinishKeepsAgreement(s: Session, why: string)
    requires Agree(s)
    ensures Agree(Finish(s, why))
  {
    if s.control.phase == C.Terminated {
      MoveKeepsAgreement(s, L.Terminated, why);
    }
  }

  lemma VisitKeepsAgreement(s: Session, site: Site, clock: int)
    requires Agree(s)
    ensures Agree(Visit(s, site, clock))
  {
    hide Agree, Call, Move, Finish, DrainThenFinish;
    match site
    case Connect(now) =>
      CallKeepsAgreement(s, C.Connected(now), clock);
      MoveKeepsAgreement(Call(s, C.Connected(now), clock).0, L.Handshaking, "connected");
    case ControlCall(call) => CallKeepsAgreement(s, call, clock);
    case FirstFrameSent => MoveKeepsAgreement(s, L.Streaming, "first frame sent");
    case FirstFrameReceived =>
      CallKeepsAgreement(s, C.FirstData, clock);
      MoveKeepsAgreement(Call(s, C.FirstData, clock).0, L.Streaming, "first frame");
    case EofSent =>
      CallKeepsAgreement(s, C.EofSent, clock);
      MoveKeepsAgreement(Call(s, C.EofSent, clock).0, L.Draining, "EOF sent");
    case EofReplied =>
      MoveKeepsAgreement(s, L.Draining, "EOF sent");
      CallKeepsAgreement(s, C.EofSent, clock);
      MoveKeepsAgreement(Call(s, C.EofSent, clock).0, L.Draining, "EOF sent");
    case AckReceived(q) =>
      var r := Call(s, C.Ack(q), clock).0;
      var e := C.ErrorSeen(C.ProtocolViolation, Some("ack for unknown sequence"));
      CallKeepsAgreement(s, C.Ack(q), clock);
      FinishKeepsAgreement(r, "acks drained");
      CallKeepsAgreement(r, e, clock);
      FailKeepsAgreement(Call(r, e, clock).0, Some("ack processing error"));
    case EofFromServer =>
      var r := Call(s, C.EofReceived, clock).0;
      var e := C.ErrorSeen(C.ProtocolViolation, Some("EOF received before streaming began"));
      CallKeepsAgreement(s, C.EofReceived, clock);
      DrainKeepsAgreement(r, "server EOF");
      CallKeepsAgreement(r, e, clock);
      DrainKeepsAgreement(Call(r, e, clock).0, "server EOF");
    case EofFromClient =>
      CallKeepsAgreement(s, C.EofReceived, clock);
      DrainKeepsAgreement(Call(s, C.EofReceived, clock).0, "client EOF");
    case GiveUp(reason) => FailKeepsAgreement(s, reason);
    case SessionComplete =>
      CallKeepsAgreement(s, C.Shutdown, clock);
      FinishKeepsAgreement(Call(s, C.Shutdown, clock).0, "session complete");
  }

  lemma DrainKeepsAgreement(s: Session, why: string)
    requires Agree(s)
    ensures Agree(DrainThenFinish(s, why))
  {
    MoveKeepsAgreement(s, L.Draining, why);
    FinishKeepsAgreement(Move(s, L.Draining, why), why);
  }

  datatype Timed = Timed(site: Site, clock: int)

  function After(visits: seq<Timed>): Session {
    if visits == [] then NEW
    else Visit(After(visits[..|visits| - 1]), visits[|visits| - 1].site, visits[|visits| - 1].clock)
  }

  /** In every run over the call sites of both nodes, in any order and with raising calls, a
      terminated lifecycle implies a terminated control plane with no pending ACK. */
  lemma {:induction false} LifecycleAgrees(visits: seq<Timed>)
    ensures var s := After(visits);
            s.lifecycle.state == L.Terminated ==> s.control.phase == C.Terminated && s.control.pending == map[]
    ensures Agree(After(visits))
  {
    if visits == [] {
      assert L.Replay([]) == Some((L.Init, None));
    } else {
      var n := |visits| - 1;
      LifecycleAgrees(visits[..n]);
      VisitKeepsAgreement(After(visits[..n]), visits[n].site, visits[n].clock);
    }
    hide Visit;
  }

  // ---- And a terminated control plane a terminated lifecycle, on regular runs ----

  /** What the sites themselves do: connection, end of stream and ACKs reach the control plane only there. */
  predicate IsRegular(site: Site) {
    && !site.GiveUp?
    && (site.ControlCall? ==> !site.call.Connected? && !site.call.Ack? && !site.call.EofSent? && !site.call.EofReceived?)
  }

  /** The lifecycle has come as far as the control plane, and no further than it may. */
  ghost predicate InStep(s: Session) {
    match s.control.phase
    case Init => s.lifecycle.state == L.Init
    case Handshaking => s.lifecycle.state == L.Handshaking || s.lifecycle.state == L.Streaming
    case Streaming => s.lifecycle.state == L.Handshaking || s.lifecycle.state == L.Streaming
    case Draining => s.lifecycle.state == L.Draining
    case Terminated => s.lifecycle.state == L.Terminated
    case Failed => s.lifecycle.state != L.Init
  }

  /** Where a call leads, as far as the lifecycle has to follow. */
  lemma CallLeads(s: Session, call: C.Call, clock: int)
    ensures var (r, raised) := Call(s, call, clock);
            && r.lifecycle == s.lifecycle
            && (raised ==> r.control.phase == s.control.phase)
            && match call
               case Connected(_) => raised || r.control.phase == C.Handshaking
               case FirstData => (raised || r.control.phase == C.Streaming) && (raised <==> s.control.phase !in {C.Handshaking, C.Streaming})
               case EofSent => (raised || r.control.phase == C.Draining) && (raised <==> s.control.phase !in {C.Streaming, C.Draining})
               case EofReceived =>
                 && (raised <==> s.control.phase in {C.Init, C.Handshaking})
                 && (s.control.phase in {C.Streaming, C.Draining} ==> r.control.phase in {C.Draining, C.Terminated})
                 && (s.control.phase in {C.Terminated, C.Failed} ==> r.control.phase == s.control.phase)
               case Ack(_) =>
                 r.control.phase == s.control.phase || (s.control.phase == C.Draining && r.control.phase == C.Terminated && !raised)
               case ErrorSeen(_, _) => (raised <==> s.control.phase in {C.Init, C.Terminated}) && (raised || r.control.phase == C.Failed)
               case Shutdown =>
                 (raised <==> s.control.phase == C.Init)
                 && (raised || r.control.phase == if s.control.phase == C.Terminated then C.Terminated else C.Failed)
               case _ =>
                 r.control.phase == s.control.phase
                 || (s.control.phase == C.Handshaking && r.control.phase == C.Streaming)
  {
    C.RaisesIff(s.control, call, clock);
  }

  lemma MoveLeads(s: Session, target: L.StreamState, why: string)
    ensures var r := Move(s, target, why);
            && r.control == s.control
            && r.lifecycle.state ==
                 if s.lifecycle.state == L.Failed || L.Transition(s.lifecycle, target, Some(why)).1 then s.lifecycle.state
                 else target
    ensures L.Transition(s.lifecycle, target, Some(why)).1 <==>
              && s.lifecycle.state != L.Failed && target != L.Failed && target != s.lifecycle.state
              && !L.Allowed(s.lifecycle.state, target)
  {
    L.RefusedIff(s.lifecycle, target, Some(why));
  }

  lemma DrainLeads(s: Session, why: string)
    requires match s.control.phase
             case Draining => s.lifecycle.state in {L.Handshaking, L.Streaming, L.Draining}
             case Terminated => s.lifecycle.state in {L.Handshaking, L.Streaming, L.Draining, L.Terminated}
             case Failed => s.lifecycle.state != L.Init
             case _ => false
    ensures InStep(DrainThenFinish(s, why))
  {
    MoveLeads(s, L.Draining, why);
    MoveLeads(Move(s, L.Draining, why), L.Terminated, why);
    hide Move, L.Transition;
  }

  lemma RegularCall(s: Session, call: C.Call, clock: int)
    requires InStep(s) && IsRegular(ControlCall(call))
    ensures InStep(Call(s, call, clock).0)
  {
    CallLeads(s, call, clock);
    hide Call;
  }

  lemma RegularEof(s: Session, clock: int)
    requires InStep(s)
    ensures InStep(Visit(s, EofFromServer, clock)) && InStep(Visit(s, EofFromClient, clock))
  {
    var (r, raised) := Call(s, C.EofReceived, clock);
    var e := C.ErrorSeen(C.ProtocolViolation, Some("EOF received before streaming began"));
    var (f, again) := Call(r, e, clock);
    CallLeads(s, C.EofReceived, clock);
    CallLeads(r, e, clock);
    hide Call, DrainThenFinish;
    if !raised {
      DrainLeads(r, "server EOF");
      DrainLeads(r, "client EOF");
    } else if !again {
      DrainLeads(f, "server EOF");
    }
  }

  lemma RegularAck(s: Session, q: int, clock: int)
    requires InStep(s)
    ensures InStep(Visit(s, AckReceived(q), clock))
  {
    var (r, raised) := Call(s, C.Ack(q), clock);
    var e := C.ErrorSeen(C.ProtocolViolation, Some("ack for unknown sequence"));
    CallLeads(s, C.Ack(q), clock);
    CallLeads(r, e, clock);
    MoveLeads(r, L.Terminated, "acks drained");
    L.RefusedIff(Call(r, e, clock).0.lifecycle, L.Failed, Some("ack processing error"));
    hide Call, Move, L.Transition, L.Fail;
  }

  lemma RegularVisit(s: Session, site: Site, clock: int)
    requires InStep(s) && IsRegular(site)
    ensures InStep(Visit(s, site, clock))
  {
    hide InStep;
    match site
    case Connect(now) => RegularConnect(s, now, clock);
    case ControlCall(call) => RegularCall(s, call, clock);
    case AckReceived(q) => RegularAck(s, q, clock);
    case EofFromServer => RegularEof(s, clock);
    case EofFromClient => RegularEof(s, clock);
    case SessionComplete => RegularEnd(s, clock);
    case _ => RegularStream(s, site, clock);
  }

  lemma RegularConnect(s: Session, now: int, clock: int)
    requires InStep(s)
    ensures InStep(Visit(s, Connect(now), clock))
  {
    CallLeads(s, C.Connected(now), clock);
    C.RaisesIff(s.control, C.Connected(now), clock);
    MoveLeads(Call(s, C.Connected(now), clock).0, L.Handshaking, "connected");
    hide Move, L.Transition, C.Do;
  }

  lemma RegularEnd(s: Session, clock: int)
    requires InStep(s)
    ensures InStep(Visit(s, SessionComplete, clock))
  {
    CallLeads(s, C.Shutdown, clock);
    MoveLeads(Call(s, C.Shutdown, clock).0, L.Terminated, "session complete");
    hide Call, Move, L.Transition;
  }

  lemma RegularStream(s: Session, site: Site, clock: int)
    requires InStep(s) && (site.FirstFrameSent? || site.FirstFrameReceived? || site.EofSent? || site.EofReplied?)
    ensures InStep(Visit(s, site, clock))
  {
    var call := if site.FirstFrameReceived? then C.FirstData else C.EofSent;
    var r := Call(s, call, clock).0;
    CallLeads(s, call, clock);
    C.RaisesIff(s.control, call, clock);
    MoveLeads(s, L.Streaming, "first frame sent");
    MoveLeads(r, L.Streaming, "first frame");
    MoveLeads(r, L.Draining, "EOF sent");
    MoveLeads(s, L.Draining, "EOF sent");
    hide Move, L.Transition, C.Do;
  }

  /** In every run in which no failure path is taken, the lifecycle is terminated exactly when the control
      plane is, drains when it drains, and has not ended before it. */
  lemma {:induction false} TerminatedTogether(visits: seq<Timed>)
    requires forall i :: 0 <= i < |visits| ==> IsRegular(visits[i].site)
    ensures var s := After(visits);
            && (s.control.phase == C.Terminated ==> s.lifecycle.state == L.Terminated)
            && (s.lifecycle.state == L.Terminated ==> s.control.phase == C.Terminated)
            && (s.control.phase == C.Draining ==> s.lifecycle.state == L.Draining)
    ensures InStep(After(visits))
  {
    hide Visit, IsRegular;
    LifecycleAgrees(visits);
    if visits != [] {
      var n := |visits| - 1;
      TerminatedTogether(visits[..n]);
      RegularVisit(After(visits[..n]), visits[n].site, visits[n].clock);
    }
  }

  lemma AfterAppend(visits: seq<Timed>, site: Site, clock: int)
    ensures After(visits + [Timed(site, clock)]) == Visit(After(visits), site, clock)
  {
    assert (visits + [Timed(site, clock)])[..|visits|] == visits;
    hide Visit;
  }

  lemma ClientStreams(now: int, timeout: int) returns (visits: seq<Timed>)
    ensures visits == [Timed(Connect(now), now), Timed(FirstFrameSent, now),
                       Timed(ControlCall(C.FrameSent(0, now, timeout)), now)]
    ensures var s := After(visits);
            && s.control.phase == C.Streaming && s.lifecycle.state == L.Streaming
            && s.control.pending == map[0 := C.Deadline(now + timeout, timeout)]
  {
    AfterAppend([], Connect(now), now);
    AfterAppend([Timed(Connect(now), now)], FirstFrameSent, now);
    AfterAppend([Timed(Connect(now), now), Timed(FirstFrameSent, now)], ControlCall(C.FrameSent(0, now, timeout)), now);
    visits := [Timed(Connect(now), now), Timed(FirstFrameSent, now)] + [Timed(ControlCall(C.FrameSent(0, now, timeout)), now)];
    assert After([]) == NEW;
    hide After;
    assert [] + [Timed(Connect(now), now)] == [Timed(Connect(now), now)];
    assert [Timed(Connect(now), now)] + [Timed(FirstFrameSent, now)] == [Timed(Connect(now), now), Timed(FirstFrameSent, now)];
  }

  /** Such runs end: a client that connects, sends a frame, then EOF, and gets its ACK. */
  lemma ClientTerminates(now: int, timeout: int)
    ensures var visits := [Timed(Connect(now), now), Timed(FirstFrameSent, now),
                           Timed(ControlCall(C.FrameSent(0, now, timeout)), now),
                           Timed(EofSent, now), Timed(AckReceived(0), now)];
            After(visits).control.phase == C.Terminated && After(visits).lifecycle.state == L.Terminated
  {
    var sent := ClientStreams(now, timeout);
    AfterAppend(sent, EofSent, now);
    AfterAppend(sent + [Timed(EofSent, now)], AckReceived(0), now);
    hide After;
    var s := After(sent + [Timed(EofSent, now)]);
    assert s.control.phase == C.Draining && s.lifecycle.state == L.Draining;
    assert s.control.pending - {0} == map[];
    var visits := [Timed(Connect(now), now), Timed(FirstFrameSent, now),
                   Timed(ControlCall(C.FrameSent(0, now, timeout)), now), Timed(EofSent, now), Timed(AckReceived(0), now)];
    assert sent + [Timed(EofSent, now)] + [Timed(AckReceived(0), now)] == visits;
  }

  // ---- Failure paths ----

  /** A site that fails the lifecycle: a failure path, or an ACK of a frame that is not pending in a session
      under way. */
  predicate Fails(s: Session, site: Site) {
    || site.GiveUp?
    || (site.AckReceived? && site.acked !in s.control.pending && s.control.phase !in {C.Init, C.Terminated})
  }

  lemma FailStep(s: Session, site: Site, clock: int)
    ensures Visit(s, site, clock).lifecycle.state == L.Failed <==> s.lifecycle.state == L.Failed || Fails(s, site)
  {
    match site
    case Connect(now) => OnlyMoves(s, L.Handshaking);
    case FirstFrameSent => OnlyMoves(s, L.Streaming);
    case FirstFrameReceived => OnlyMoves(s, L.Streaming);
    case EofSent => OnlyMoves(s, L.Draining);
    case EofReplied => OnlyMoves(s, L.Draining);
    case AckReceived(q) =>
      C.RaisesIff(s.control, C.Ack(q), clock);
      OnlyMoves(s, L.Terminated);
    case EofFromServer =>
      OnlyMoves(s, L.Draining);
      OnlyMoves(s, L.Terminated);
    case EofFromClient =>
      OnlyMoves(s, L.Draining);
      OnlyMoves(s, L.Terminated);
    case SessionComplete => OnlyMoves(s, L.Terminated);
    case _ =>
  }

  /** A move to another state than FAILED neither enters nor leaves FAILED. */
  lemma OnlyMoves(s: Session, target: L.StreamState)
    requires target != L.Failed
    ensures forall m: L.Machine, why :: L.Transition(m, target, why).0.state == L.Failed <==> m.state == L.Failed
  {
  }

  /** The session after the first `n` visits. */
  function At(visits: seq<Timed>, n: nat): Session
    requires n <= |visits|
  {
    if n == 0 then NEW else Visit(At(visits, n - 1), visits[n - 1].site, visits[n - 1].clock)
  }

  lemma {:induction false} AtIsAfter(visits: seq<Timed>, n: nat)
    requires n <= |visits|
    ensures At(visits, n) == After(visits[..n])
  {
    hide Visit;
    if n > 0 {
      AtIsAfter(visits, n - 1);
      assert visits[..n][..n - 1] == visits[..n - 1];
    }
  }

  ghost predicate FailedBy(visits: seq<Timed>, n: nat)
    requires n <= |visits|
  {
    exists i :: 0 <= i < n && Fails(At(visits, i), visits[i].site)
  }

  /** In every run the lifecycle is FAILED exactly when one of these sites was visited. */
  lemma {:induction false} FailedIff(visits: seq<Timed>, n: nat)
    requires n <= |visits|
    ensures At(visits, n).lifecycle.state == L.Failed <==> FailedBy(visits, n)
  {
    hide Visit, Fails;
    if n > 0 {
      FailedIff(visits, n - 1);
      FailStep(At(visits, n - 1), visits[n - 1].site, visits[n - 1].clock);
      FailedByStep(visits, n - 1);
    }
  }

  lemma FailedByStep(visits: seq<Timed>, n: nat)
    requires n < |visits|
    ensures FailedBy(visits, n + 1) <==> FailedBy(visits, n) || Fails(At(visits, n), visits[n].site)
  {
    hide At, Fails;
  }

  /** The end of a connection settles a session that has begun: the control plane has ended, and the
      lifecycle with it if it was draining. */
  lemma CompletionSettles(s: Session, clock: int)
    requires s.control.phase != C.Init
    ensures var t := Visit(s, SessionComplete, clock);
            && t.control.phase == (if s.control.phase == C.Terminated then C.Terminated else C.Failed)
            && t.control.endedAt == Some(clock)
            && (s.control.phase == C.Terminated && s.lifecycle.state == L.Draining ==> t.lifecycle.state == L.Terminated)
            && (s.control.phase != C.Terminated ==> t.lifecycle == s.lifecycle)
  {
    L.RefusedIff(s.lifecycle, L.Terminated, Some("session complete"));
  }
}
