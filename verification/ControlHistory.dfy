/** utils/stream_protocol.py: what the state of a control plane says about the calls that led to it. */
module ControlHistory {
  import opened Common
  import opened ControlPlanes

  /** The plane after the first `n` calls. */
  function At(calls: seq<Timed>, n: nat): Plane
    requires n <= |calls|
  {
    if n == 0 then NEW else Do(At(calls, n - 1), calls[n - 1].call, calls[n - 1].clock).plane
  }

  lemma {:induction false} AtIsAfter(calls: seq<Timed>, n: nat)
    requires n <= |calls|
    ensures At(calls, n) == After(calls[..n])
    ensures n < |calls| ==> Succeeds(calls, n) == !Raised(calls, n)
  {
    hide Do;
    if n > 0 {
      AtIsAfter(calls, n - 1);
      assert calls[..n][..n - 1] == calls[..n - 1];
    }
  }

  /** Call `i` did not raise. */
  predicate Succeeds(calls: seq<Timed>, i: nat)
    requires i < |calls|
  {
    !Do(At(calls, i), calls[i].call, calls[i].clock).raised
  }

  // ---- The calls that decide on the phase ----

  predicate Connects(calls: seq<Timed>, i: nat)
    requires i < |calls|
  {
    calls[i].call.Connected? && Succeeds(calls, i)
  }

  ghost predicate ConnectedBy(calls: seq<Timed>, n: nat)
    requires n <= |calls|
  {
    exists i :: 0 <= i < n && Connects(calls, i)
  }

  /** Data, a frame sent, or a heartbeat of a connected peer. */
  ghost predicate Begins(calls: seq<Timed>, i: nat)
    requires i < |calls|
  {
    || ((calls[i].call.FirstData? || calls[i].call.FrameSent?) && Succeeds(calls, i))
    || (calls[i].call.Heartbeat? && ConnectedBy(calls, i))
  }

  ghost predicate BegunBy(calls: seq<Timed>, n: nat)
    requires n <= |calls|
  {
    exists i :: 0 <= i < n && Begins(calls, i)
  }

  predicate SeesEof(calls: seq<Timed>, i: nat)
    requires i < |calls|
  {
    (calls[i].call.EofSent? || calls[i].call.EofReceived?) && Succeeds(calls, i)
  }

  ghost predicate EofBy(calls: seq<Timed>, n: nat)
    requires n <= |calls|
  {
    exists i :: 0 <= i < n && SeesEof(calls, i)
  }

  /** An error or a shutdown. */
  predicate Stops(calls: seq<Timed>, i: nat)
    requires i < |calls|
  {
    (calls[i].call.ErrorSeen? || calls[i].call.Shutdown?) && Succeeds(calls, i)
  }

  ghost predicate StoppedBy(calls: seq<Timed>, n: nat)
    requires n <= |calls|
  {
    exists i :: 0 <= i < n && Stops(calls, i)
  }

  /** The reception of EOF, or behind an EOF an ACK, that finds nothing pending any more. */
  ghost predicate Finishes(calls: seq<Timed>, i: nat)
    requires i < |calls|
  {
    && Succeeds(calls, i) && !StoppedBy(calls, i) && At(calls, i + 1).pending == map[]
    && (calls[i].call.EofReceived? || (calls[i].call.Ack? && EofBy(calls, i)))
  }

  ghost predicate FinishedBy(calls: seq<Timed>, n: nat)
    requires n <= |calls|
  {
    exists i :: 0 <= i < n && Finishes(calls, i)
  }

  /** An error or a shutdown of a session that had not finished. */
  ghost predicate FailedBy(calls: seq<Timed>, n: nat)
    requires n <= |calls|
  {
    exists i :: 0 <= i < n && Stops(calls, i) && !FinishedBy(calls, i)
  }

  /** The phase that these calls make. */
  ghost function Expected(calls: seq<Timed>, n: nat): Phase
    requires n <= |calls|
  {
    if FailedBy(calls, n) then Failed
    else if FinishedBy(calls, n) then Terminated
    else if EofBy(calls, n) then Draining
    else if BegunBy(calls, n) then Streaming
    else if ConnectedBy(calls, n) then Handshaking
    else Init
  }

  lemma OneCallMore(calls: seq<Timed>, n: nat)
    requires n < |calls|
    ensures ConnectedBy(calls, n + 1) <==> ConnectedBy(calls, n) || Connects(calls, n)
    ensures BegunBy(calls, n + 1) <==> BegunBy(calls, n) || Begins(calls, n)
    ensures EofBy(calls, n + 1) <==> EofBy(calls, n) || SeesEof(calls, n)
    ensures StoppedBy(calls, n + 1) <==> StoppedBy(calls, n) || Stops(calls, n)
    ensures FinishedBy(calls, n + 1) <==> FinishedBy(calls, n) || Finishes(calls, n)
    ensures FailedBy(calls, n + 1) <==> FailedBy(calls, n) || (Stops(calls, n) && !FinishedBy(calls, n))
  {
    hide Connects, Begins, SeesEof, Stops, Finishes;
  }

  /** The law of one call, with what the calls before say of the phase. */
  lemma PhaseStep(p: Plane, call: Call, clock: int, connected: bool, begun: bool, eof: bool, stopped: bool, finished: bool, failed: bool)
    requires Settled(p)
    requires p.phase ==
               if failed then Failed else if finished then Terminated else if eof then Draining
               else if begun then Streaming else if connected then Handshaking else Init
    requires (failed ==> stopped) && (stopped ==> failed || finished)
    ensures var r := Do(p, call, clock);
            var ok := !r.raised;
            var connected' := connected || (call.Connected? && ok);
            var begun' := begun || ((call.FirstData? || call.FrameSent?) && ok) || (call.Heartbeat? && connected);
            var eof' := eof || ((call.EofSent? || call.EofReceived?) && ok);
            var stops := (call.ErrorSeen? || call.Shutdown?) && ok;
            var finishes := ok && !stopped && r.plane.pending == map[] && (call.EofReceived? || (call.Ack? && eof));
            && (r.plane.phase ==
                  if failed || (stops && !finished) then Failed else if finished || finishes then Terminated
                  else if eof' then Draining else if begun' then Streaming else if connected' then Handshaking else Init)
            && (stopped || stops ==> failed || (stops && !finished) || finished || finishes)
  {
  }

  /** The whole run. The phase is the one its calls make: FAILED after an error or a shutdown of a session
      that had not finished; else TERMINATED when the reception of EOF, or behind an EOF an ACK, found
      nothing pending; else DRAINING once an EOF was sent or received; else STREAMING once streaming
      had begun; else HANDSHAKING once connected. */
  lemma PhaseIsExpected(calls: seq<Timed>)
    ensures After(calls).phase == Expected(calls, |calls|)
  {
    hide Expected;
    AtIsAfter(calls, |calls|);
    assert calls[..|calls|] == calls;
    PhaseAt(calls, |calls|);
  }

  lemma {:induction false} PhaseAt(calls: seq<Timed>, n: nat)
    requires n <= |calls|
    ensures At(calls, n).phase == Expected(calls, n)
    ensures StoppedBy(calls, n) ==> FailedBy(calls, n) || FinishedBy(calls, n)
  {
    hide Do;
    if n > 0 {
      PhaseAt(calls, n - 1);
      OneCallMore(calls, n - 1);
      SettledAt(calls, n - 1);
      hide Settled, ConnectedBy, BegunBy, EofBy, StoppedBy, FinishedBy, FailedBy;
      FailedWasStopped(calls, n - 1);
      var p, x := At(calls, n - 1), calls[n - 1];
      PhaseStep(p, x.call, x.clock, ConnectedBy(calls, n - 1), BegunBy(calls, n - 1), EofBy(calls, n - 1),
                StoppedBy(calls, n - 1), FinishedBy(calls, n - 1), FailedBy(calls, n - 1));
    }
  }

  lemma FailedWasStopped(calls: seq<Timed>, n: nat)
    requires n <= |calls|
    ensures FailedBy(calls, n) ==> StoppedBy(calls, n)
  {
  }

  lemma SettledAt(calls: seq<Timed>, n: nat)
    requires n <= |calls|
    ensures Settled(At(calls, n))
  {
    AtIsAfter(calls, n);
    RunStaysSettled(calls[..n]);
  }

  /** Nothing is pending exactly when every frame sent has been acknowledged since. */
  lemma NothingPendingIff(calls: seq<Timed>, n: nat)
    requires n <= |calls|
    ensures At(calls, n).pending == map[] <==> forall q :: !Outstanding(calls[..n], q)
  {
    AtIsAfter(calls, n);
    forall q ensures q in At(calls, n).pending <==> Outstanding(calls[..n], q) {
      PendingIsOutstanding(calls[..n], q);
    }
    hide At, Outstanding;
    if At(calls, n).pending != map[] {
      var q := AnyOf(At(calls, n).pending.Keys);
      assert q in At(calls, n).pending;
    }
  }

  // ---- Deadlines ----

  predicate Sends(calls: seq<Timed>, q: int, i: nat)
    requires i < |calls|
  {
    calls[i].call.FrameSent? && calls[i].call.sequence == q && Succeeds(calls, i)
  }

  predicate Acks(calls: seq<Timed>, q: int, i: nat)
    requires i < |calls|
  {
    calls[i].call == Ack(q) && Succeeds(calls, i)
  }

  /** `expired_sequences` reported `q` and armed it again. */
  predicate Rearms(calls: seq<Timed>, q: int, i: nat)
    requires i < |calls|
  {
    && calls[i].call.Expire? && q in At(calls, i).pending
    && IsExpired(At(calls, i).pending[q], calls[i].call.now)
  }

  lemma DeadlineStep(p: Plane, call: Call, clock: int, q: int)
    ensures var r := Do(p, call, clock);
            if call.FrameSent? && call.sequence == q && !r.raised
            then q in r.plane.pending && r.plane.pending[q] == Deadline(call.now + call.timeout, call.timeout)
            else if q in p.pending && !(call == Ack(q) && !r.raised)
            then q in r.plane.pending && r.plane.pending[q] ==
              if call.Expire? && IsExpired(p.pending[q], call.now)
              then Deadline(call.now + p.pending[q].timeout, p.pending[q].timeout) else p.pending[q]
            else q !in r.plane.pending
  {
  }

  /** A frame sent by call `i`, neither sent again nor acknowledged since, and last sent or armed again by
      call `m`, expires when its time-out has passed since then. */
  lemma {:induction false} DeadlineIs(calls: seq<Timed>, n: nat, q: int, i: nat, m: nat, now: int)
    requires i <= m < n <= |calls| && Sends(calls, q, i)
    requires forall k :: i < k < n ==> !Sends(calls, q, k) && !Acks(calls, q, k)
    requires (m == i || Rearms(calls, q, m)) && forall k :: m < k < n ==> !Rearms(calls, q, k)
    ensures q in At(calls, n).pending && At(calls, n).pending[q].timeout == calls[i].call.timeout
    ensures calls[m].call.FrameSent? || calls[m].call.Expire?
    ensures IsExpired(At(calls, n).pending[q], now) <==> now >= calls[m].call.now + calls[i].call.timeout
  {
    hide Do, At;
    var p, x := At(calls, n - 1), calls[n - 1];
    DeadlineStep(p, x.call, x.clock, q);
    AtNext(calls, n - 1);
    assert At(calls, n - 1 + 1) == At(calls, n);
    assert i < n - 1 ==> !Sends(calls, q, n - 1) && !Acks(calls, q, n - 1);
    if m < n - 1 {
      assert !Rearms(calls, q, n - 1);
      DeadlineIs(calls, n - 1, q, i, m, now);
    } else if i < m {
      TimeoutStays(calls, m, q, i);
    }
  }

  lemma AtNext(calls: seq<Timed>, n: nat)
    requires n < |calls|
    ensures At(calls, n + 1) == Do(At(calls, n), calls[n].call, calls[n].clock).plane
  {
  }

  lemma {:induction false} TimeoutStays(calls: seq<Timed>, n: nat, q: int, i: nat)
    requires i < n <= |calls| && Sends(calls, q, i)
    requires forall k :: i < k < n ==> !Sends(calls, q, k) && !Acks(calls, q, k)
    ensures q in At(calls, n).pending && At(calls, n).pending[q].timeout == calls[i].call.timeout
  {
    hide Do, At;
    var p, x := At(calls, n - 1), calls[n - 1];
    DeadlineStep(p, x.call, x.clock, q);
    AtNext(calls, n - 1);
    assert At(calls, n - 1 + 1) == At(calls, n);
    assert i < n - 1 ==> !Sends(calls, q, n - 1) && !Acks(calls, q, n - 1);
    if i < n - 1 {
      TimeoutStays(calls, n - 1, q, i);
    }
  }

  // ---- The order in which expired sequences are reported ----

  /** The insertion order of the pending sequences after the first `n` calls. */
  function OrderAt(calls: seq<Timed>, n: nat): seq<int>
    requires n <= |calls|
  {
    if n == 0 then [] else OrderAfter(OrderAt(calls, n - 1), calls[n - 1].call, !Succeeds(calls, n - 1))
  }

  /** `x` stands before an occurrence of `y`. */
  predicate Ahead(order: seq<int>, x: int, y: int) {
    order != [] && ((order[0] == x && y in order[1..]) || Ahead(order[1..], x, y))
  }

  lemma {:induction false} AheadOfNew(order: seq<int>, x: int, y: int)
    requires x in order
    ensures Ahead(order + [y], x, y)
  {
    assert (order + [y])[1..] == order[1..] + [y];
    assert order == [order[0]] + order[1..];
    if order[0] != x {
      AheadOfNew(order[1..], x, y);
    }
  }

  lemma {:induction false} AheadStays(order: seq<int>, more: seq<int>, x: int, y: int)
    requires Ahead(order, x, y)
    ensures Ahead(order + more, x, y)
  {
    assert (order + more)[1..] == order[1..] + more;
    if !(order[0] == x && y in order[1..]) {
      AheadStays(order[1..], more, x, y);
    }
  }

  lemma {:induction false} AheadWithout(order: seq<int>, k: int, x: int, y: int)
    requires Ahead(order, x, y) && x != k && y != k
    ensures Ahead(Without(order, k), x, y)
  {
    var first, rest := order[0], order[1..];
    var left := Without(rest, k);
    assert Without(order, k) == (if first == k then [] else [first]) + left;
    assert ([first] + left)[1..] == left && [] + left == left;
    if !(first == x && y in rest) {
      AheadWithout(rest, k, x, y);
    }
  }

  lemma {:induction false} OrderIsPending(calls: seq<Timed>, n: nat)
    requires n <= |calls|
    ensures forall q :: q in OrderAt(calls, n) <==> q in At(calls, n).pending.Keys
  {
    hide Do;
    if n > 0 {
      OrderIsPending(calls, n - 1);
      CallTracksPending(At(calls, n - 1), calls[n - 1].call, calls[n - 1].clock);
    }
  }

  /** Call `i` makes `q` pending, and it has stayed so. */
  ghost predicate Enters(calls: seq<Timed>, n: nat, q: int, i: nat)
    requires i < n <= |calls|
  {
    Sends(calls, q, i) && q !in At(calls, i).pending && forall k :: i < k < n ==> !Acks(calls, q, k)
  }

  lemma {:induction false} EnteredIsPending(calls: seq<Timed>, n: nat, q: int, i: nat)
    requires i < n <= |calls| && Enters(calls, n, q, i)
    ensures q in At(calls, n).pending
  {
    hide Do, At;
    DeadlineStep(At(calls, n - 1), calls[n - 1].call, calls[n - 1].clock, q);
    AtNext(calls, n - 1);
    assert At(calls, n - 1 + 1) == At(calls, n);
    if i < n - 1 {
      assert !Acks(calls, q, n - 1);
      EnteredIsPending(calls, n - 1, q, i);
    }
  }

  /** Of two pending sequences the one that became pending first stands first. */
  lemma {:induction false} OrderIsEntry(calls: seq<Timed>, n: nat, x: int, i: nat, y: int, j: nat)
    requires i < j < n <= |calls| && Enters(calls, n, x, i) && Enters(calls, n, y, j)
    ensures Ahead(OrderAt(calls, n), x, y)
  {
    var order := OrderAt(calls, n - 1);
    var call := calls[n - 1].call;
    OrderIsPending(calls, n - 1);
    hide At, Do, Ahead;
    if j == n - 1 {
      EnteredIsPending(calls, n - 1, x, i);
      assert x in At(calls, n - 1).pending.Keys;
      AheadOfNew(order, x, y);
    } else {
      OrderIsEntry(calls, n - 1, x, i, y, j);
      assert !Acks(calls, x, n - 1) && !Acks(calls, y, n - 1);
      if call.FrameSent? {
        AheadStays(order, [call.sequence], x, y);
      } else if call.Ack? && Succeeds(calls, n - 1) {
        AheadWithout(order, call.acked, x, y);
      }
    }
  }

  // ---- Times and the error ----

  /** A connection or a heartbeat. */
  predicate Beats(calls: seq<Timed>, i: nat)
    requires i < |calls|
  {
    Connects(calls, i) || calls[i].call.Heartbeat?
  }

  predicate IsFinal(p: Plane) {
    p.phase == Terminated || p.phase == Failed
  }

  /** The session ends, or is shut down. */
  predicate Ends(calls: seq<Timed>, i: nat)
    requires i < |calls|
  {
    || (calls[i].call.Shutdown? && Succeeds(calls, i))
    || (!IsFinal(At(calls, i)) && IsFinal(At(calls, i + 1)))
  }

  lemma FieldsStep(p: Plane, call: Call, clock: int)
    ensures var r := Do(p, call, clock);
            var q := r.plane;
            && q.startedAt == (if call.Connected? && !r.raised then Some(call.now) else p.startedAt)
            && q.lastHeartbeat ==
                 (if (call.Connected? && !r.raised) || call.Heartbeat? then Some(call.now) else p.lastHeartbeat)
            && q.errorCode == (if call.ErrorSeen? then call.code else p.errorCode)
            && q.errorMessage == (if call.ErrorSeen? then call.message else p.errorMessage)
            && q.endedAt == (if (call.Shutdown? && !r.raised) || (!IsFinal(p) && IsFinal(q)) then Some(clock) else p.endedAt)
  {
  }

  lemma FieldsNext(calls: seq<Timed>, n: nat)
    requires n < |calls|
    ensures var p, q, x := At(calls, n), At(calls, n + 1), calls[n];
            && q.startedAt == (if Connects(calls, n) then Some(x.call.now) else p.startedAt)
            && q.lastHeartbeat == (if Beats(calls, n) then Some(x.call.now) else p.lastHeartbeat)
            && q.errorCode == (if x.call.ErrorSeen? then x.call.code else p.errorCode)
            && q.errorMessage == (if x.call.ErrorSeen? then x.call.message else p.errorMessage)
            && q.endedAt == (if Ends(calls, n) then Some(x.clock) else p.endedAt)
  {
    FieldsStep(At(calls, n), calls[n].call, calls[n].clock);
    AtNext(calls, n);
    hide Do, At;
  }

  /** Each of these is what the last call that sets it, call `i`, has set: the start the last connection,
      the last sign of life the last connection or heartbeat, the error the last one reported, even when
      the report raised, and the end the last end or shutdown. */
  lemma {:induction false} FieldsAreLast(calls: seq<Timed>, n: nat, i: nat)
    requires i < n <= |calls|
    ensures var p, x := At(calls, n), calls[i];
            && (Connects(calls, i) && (forall k :: i < k < n ==> !Connects(calls, k)) ==> p.startedAt == Some(x.call.now))
            && (Beats(calls, i) && (forall k :: i < k < n ==> !Beats(calls, k)) ==> p.lastHeartbeat == Some(x.call.now))
            && (x.call.ErrorSeen? && (forall k :: i < k < n ==> !calls[k].call.ErrorSeen?) ==>
                  p.errorCode == x.call.code && p.errorMessage == x.call.message)
            && (Ends(calls, i) && (forall k :: i < k < n ==> !Ends(calls, k)) ==> p.endedAt == Some(x.clock))
  {
    FieldsNext(calls, n - 1);
    assert At(calls, n - 1 + 1) == At(calls, n);
    hide At, Succeeds, IsFinal, Connects, Beats, Ends;
    if i < n - 1 {
      FieldsAreLast(calls, n - 1, i);
    }
  }

  /** Until a call sets them they are unset. */
  lemma {:induction false} FieldsUnset(calls: seq<Timed>, n: nat)
    requires n <= |calls|
    ensures var p := At(calls, n);
            && ((forall k :: 0 <= k < n ==> !Connects(calls, k)) ==> p.startedAt == Option.None)
            && ((forall k :: 0 <= k < n ==> !Beats(calls, k)) ==> p.lastHeartbeat == Option.None)
            && ((forall k :: 0 <= k < n ==> !calls[k].call.ErrorSeen?) ==>
                  p.errorCode == NoError && p.errorMessage == Option.None)
            && ((forall k :: 0 <= k < n ==> !Ends(calls, k)) ==> p.endedAt == Option.None)
  {
    hide Do, Succeeds, IsFinal, Connects, Beats, Ends;
    if n > 0 {
      FieldsNext(calls, n - 1);
      assert At(calls, n - 1 + 1) == At(calls, n);
      hide At;
      FieldsUnset(calls, n - 1);
    }
  }

  /** The peer is given up for silent exactly when the last connection or heartbeat, call `i`, is
      6,000,000,000 ns ago; never before the first. */
  lemma SilentIff(calls: seq<Timed>, i: nat, now: int)
    requires i < |calls| && Beats(calls, i) && forall k :: i < k < |calls| ==> !Beats(calls, k)
    ensures HeartbeatTimedOut(After(calls), now) <==> now - calls[i].call.now >= 6_000_000_000
  {
    hide At, Beats;
    AtIsAfter(calls, |calls|);
    assert calls[..|calls|] == calls;
    FieldsAreLast(calls, |calls|, i);
  }
}
