/** Both ends of a session together: what the client's pipeline tells its reorder buffer leaves it in
    sequence order, and so do replies scrambled by the server's workers. */
module Redelivery {
  import opened Common
  import C = ClientPipeline
  import P = ServerPipeline
  import R = Reorder

  /** The replies as they reach the client; job `j` is the frame of sequence `sequences[j]`. */
  ghost function Arrivals(replies: seq<nat>, sequences: seq<int>): (events: seq<R.Event<nat>>)
    requires forall k :: 0 <= k < |replies| ==> replies[k] < |sequences|
    ensures |events| == |replies|
    ensures forall k :: 0 <= k < |replies| ==> events[k] == R.Arrived(sequences[replies[k]], replies[k])
  {
    seq(|replies|, k requires 0 <= k < |replies| => R.Arrived(sequences[replies[k]], replies[k]))
  }

  lemma CountedTwice<T>(s: seq<T>, i: nat, j: nat)
    requires i < j < |s| && s[i] == s[j]
    ensures Count(s, s[i]) >= 2
  {
    assert s == s[..j] + [s[j]] + s[j + 1..];
    assert s[..j][i] == s[i];
    assert s[i] in multiset(s[..j]);
  }

  /** `n` different numbers below `n` are all of them. */
  lemma EveryNumberIsTaken(s: seq<int>, q: int)
    requires Distinct(s) && (forall j :: 0 <= j < |s| ==> 0 <= s[j] < |s|) && 0 <= q < |s|
    ensures exists j :: 0 <= j < |s| && s[j] == q
  {
    DistinctSize(s);
    var taken, all := Elements(s), Indices(|s|);
    forall x | x in taken ensures x in all {
      var j :| 0 <= j < |s| && s[j] == x;
    }
    var missing := all - taken;
    assert all == taken + missing;
    assert missing == {};
    assert q in all && q in taken;
  }

  lemma {:induction false} ResultIsReported<T>(events: seq<R.Event<T>>, q: int)
    requires q in R.Results(events)
    ensures exists k :: 0 <= k < |events| && events[k] == R.Arrived(q, R.Results(events)[q])
  {
    var n := |events| - 1;
    if events[n].Arrived? && events[n].sequence == q {
      assert events[n] == R.Arrived(q, R.Results(events)[q]);
    } else {
      ResultIsReported(events[..n], q);
      var k :| 0 <= k < n && events[..n][k] == R.Arrived(q, R.Results(events[..n])[q]);
      assert events[k] == R.Arrived(q, R.Results(events)[q]);
    }
  }

  /** Jobs 0..n-1 replied to once each, in any order, for frames 0..n-1: each frame's own job comes
      out, in sequence order. */
  lemma PermutedRepliesAreSorted(replies: seq<nat>, sequences: seq<int>)
    requires forall j: nat :: Count(replies, j) == if j < |sequences| then 1 else 0
    requires Distinct(sequences) && forall j :: 0 <= j < |sequences| ==> 0 <= sequences[j] < |sequences|
    ensures forall k :: 0 <= k < |replies| ==> replies[k] < |sequences|
    ensures var s := R.Run(Arrivals(replies, sequences));
            && s.next == |sequences| == |s.emitted| && s.buffer == map[] && s.dropped == []
            && forall q :: 0 <= q < |sequences| ==>
                 && s.emitted[q].0 == q
                 && s.emitted[q].1 < |sequences| && sequences[s.emitted[q].1] == q
  {
    forall k | 0 <= k < |replies| ensures replies[k] < |sequences| {
      LastIsCounted(replies, replies[k]);
    }
    var n, events := |sequences|, Arrivals(replies, sequences);
    var results := R.Results(events);
    forall i, j | 0 <= i < j < |events| ensures events[i].sequence != events[j].sequence {
      if replies[i] == replies[j] {
        CountedTwice(replies, i, j);
        assert false;
      }
    }
    R.NoSkips(events);
    forall q ensures q in results <==> 0 <= q < n {
      R.ReportedIn(events, q);
      if 0 <= q < n {
        JobArrives(replies, sequences, q);
      }
    }
    R.PermutationComesOutSorted(events, n);
    forall q | 0 <= q < n ensures results[q] < n && sequences[results[q]] == q {
      ResultIsReported(events, q);
    }
  }

  lemma JobArrives(replies: seq<nat>, sequences: seq<int>, q: int)
    requires forall j: nat :: Count(replies, j) == if j < |sequences| then 1 else 0
    requires forall k :: 0 <= k < |replies| ==> replies[k] < |sequences|
    requires Distinct(sequences) && forall j :: 0 <= j < |sequences| ==> 0 <= sequences[j] < |sequences|
    requires 0 <= q < |sequences|
    ensures exists k :: 0 <= k < |replies| && Arrivals(replies, sequences)[k].sequence == q
  {
    EveryNumberIsTaken(sequences, q);
    var j: nat :| j < |sequences| && sequences[j] == q;
    assert Count(replies, j) == 1;
    LastIsCounted(replies, j);
    var k :| 0 <= k < |replies| && replies[k] == j;
    assert Arrivals(replies, sequences)[k].sequence == q;
  }

  /** Once the server's send loop has counted all sentinels, in whatever order its workers finished:
      if the acknowledged jobs are the frames 0..n-1 in some order, the client emits frame 0, frame 1,
      and so on to the last, each with the result of its own job, and keeps nothing back. */
  lemma ServerRepliesAreDeliveredInOrder(
    c: P.Config, run: seq<P.State>, steps: seq<P.Step>, i: nat, sequences: seq<int>)
    requires c.workers > 0 && P.IsRun(c, run, steps) && i < |run| && run[i].sender == P.AllCounted
    requires |sequences| == run[i].nextJob
    requires Distinct(sequences) && forall j :: 0 <= j < |sequences| ==> 0 <= sequences[j] < |sequences|
    ensures forall k :: 0 <= k < |run[i].replies| ==> run[i].replies[k] < |sequences|
    ensures var s := R.Run(Arrivals(run[i].replies, sequences));
            && |s.emitted| == |sequences| && s.buffer == map[] && s.dropped == []
            && forall q :: 0 <= q < |sequences| ==>
                 && s.emitted[q].0 == q
                 && s.emitted[q].1 < |sequences| && sequences[s.emitted[q].1] == q
  {
    P.EveryAcknowledgedJobIsRepliedOnce(c, run, steps, i);
    P.AcknowledgedJobs(c, run, steps, i);
    hide P.IsRun, R.Run;
    PermutedRepliesAreSorted(run[i].replies, sequences);
  }

  // ---- The client's own runs ----

  /** How the loop of `reply_consumer` ends: on a server EOF or error message, on cancellation or an
      exception outside `emit_result` (inside it, see `Reorder.FailureInDrain` and `FailureInFlush`), on
      the stop event, or on a reader that failed or found its connection closed. */
  datatype Ending = ServerEof | ServerError | Cancelled | Raised | StopSeen | ReadFailed | Closed

  predicate Flushes(ending: Ending) {
    ending.ServerEof? || ending.ServerError? || ending.Cancelled? || ending.Raised?
  }

  /** What the buffer has let out when the loop has ended. */
  ghost function AtEnd(events: seq<R.Event<nat>>, ending: Ending): R.State<nat> {
    if Flushes(ending) then R.Flush(R.Run(events)) else R.Run(events)
  }

  /** Of the sequences `keys`, those that have been let out by then. */
  ghost function LetOut(events: seq<R.Event<nat>>, ending: Ending, keys: set<int>): set<int> {
    if Flushes(ending) then keys else R.InTurn(events, keys)
  }

  /** In-order, exactly-once delivery in every run of the client, for every way its consumer can end:
      the results that could be parsed are emitted once each, in strictly ascending sequence order. An
      ending that flushes emits them all; any other emits those with nothing unreported in front of
      them and loses the rest. The skips are counted likewise. */
  lemma EverySessionDeliversInOrder(c: C.Config, run: seq<C.State>, steps: seq<C.Step>, i: nat, ending: Ending)
    requires C.GoodConfig(c) && C.IsRun(c, run, steps) && i < |run|
    ensures var events := run[i].reports;
            var results, s := R.Results(events), AtEnd(events, ending);
            && LetOut(events, ending, results.Keys) <= results.Keys
            && s.emitted == R.Pairs(R.Ascending(LetOut(events, ending, results.Keys)), results)
            && s.dropped == R.Ascending(LetOut(events, ending, R.Skips(events).Keys))
            && R.IsAscending(R.Sequences(s.emitted))
  {
    C.RunReportsOnce(c, run, steps, i);
    hide C.IsRun, R.Run, R.Flush, R.Results, R.Skips, R.InTurn, R.Ascending, R.Pairs;
    R.DeliveryIsInOrder(run[i].reports);
    R.DeliveryWithoutFlush(run[i].reports);
  }

  /** The two kinds of ending on the smallest session in which they differ: a result behind a frame that was
      never reported. */
  lemma EndingsDiffer(v: nat)
    ensures forall e :: e in {ServerEof, ServerError, Cancelled, Raised} ==>
              AtEnd([R.Arrived(1, v)], e).emitted == [(1, v)]
    ensures forall e :: e in {StopSeen, ReadFailed, Closed} ==> AtEnd([R.Arrived(1, v)], e).emitted == []
  {
    var events := [R.Arrived(1, v)];
    assert events[..0] == [] && R.Run(events[..0]) == R.Initial();
    var s := R.Run(events);
    assert s == R.State(map[1 := v], map[], 0, [], []);
    R.AscendingIsUnique(R.Ascending({1}), [1]);
    assert s.buffer.Keys == {1};
  }

  function Numbers(from: int, n: nat): (s: seq<int>)
    ensures |s| == n && R.IsAscending(s) && (forall q :: q in s <==> from <= q < from + n)
    ensures forall k :: 0 <= k < n ==> s[k] == from + k
  {
    var s := seq(n, k => from + k);
    assert forall q :: from <= q < from + n ==> q in s by {
      forall q | from <= q < from + n ensures q in s {
        assert s[q - from] == q;
      }
    }
    s
  }

  /** Reports of `from` to `from + n - 1`, each once and all as arrived. */
  ghost predicate AllArrive(events: seq<R.Event<nat>>, from: nat, n: nat) {
    && R.ReportedOnce(events)
    && (forall k :: 0 <= k < |events| ==> events[k].Arrived? && from <= events[k].sequence < from + n)
    && (forall q :: from <= q < from + n ==> C.ArrivedIn(events, q))
  }

  lemma ResultsOfAll(events: seq<R.Event<nat>>, from: nat, n: nat)
    requires AllArrive(events, from, n)
    ensures R.Skips(events) == map[] && forall q :: q in R.Results(events) <==> from <= q < from + n
  {
    R.NoSkips(events);
    forall q ensures q in R.Results(events) <==> from <= q < from + n {
      R.ReportedIn(events, q);
      if from <= q < from + n {
        assert C.ArrivedIn(events, q);
      }
    }
  }

  /** All of them come out in order with the flush, each with its own result. Without the flush they do
      so exactly when they begin at 0: the buffer waits for sequence 0, and a later session of the same
      process never brings it. */
  lemma ConsecutiveFramesComeOut(events: seq<R.Event<nat>>, from: nat, n: nat)
    requires AllArrive(events, from, n)
    ensures var drained := R.Run(events);
            var all := R.Flush(drained).emitted;
            && R.Sequences(all) == Numbers(from, n) && R.Flush(drained).dropped == []
            && (forall k :: 0 <= k < n ==> R.Arrived(all[k].0, all[k].1) in events)
            && (drained.emitted == all <==> from == 0 || n == 0)
            && (from > 0 ==> drained.emitted == [])
  {
    FlushedPart(events, from, n);
    DrainedPart(events, from, n);
    hide R.Run, R.Flush, AllArrive;
  }

  lemma FlushedPart(events: seq<R.Event<nat>>, from: nat, n: nat)
    requires AllArrive(events, from, n)
    ensures var s := R.Flush(R.Run(events));
            && R.Sequences(s.emitted) == Numbers(from, n) && s.dropped == []
            && (forall k :: 0 <= k < n ==> R.Arrived(s.emitted[k].0, s.emitted[k].1) in events)
  {
    var results := R.Results(events);
    ResultsOfAll(events, from, n);
    R.DeliveryIsInOrder(events);
    hide R.Run, R.Flush, AllArrive, R.Results, R.Ascending;
    R.AscendingIsUnique(R.Ascending(results.Keys), Numbers(from, n));
    R.AscendingIsUnique(R.Ascending(R.Skips(events).Keys), []);
    forall k | 0 <= k < n
      ensures R.Arrived(Numbers(from, n)[k], R.Pairs(Numbers(from, n), results)[k].1) in events
    {
      ResultIsReported(events, Numbers(from, n)[k]);
    }
  }

  lemma DrainedPart(events: seq<R.Event<nat>>, from: nat, n: nat)
    requires AllArrive(events, from, n)
    ensures from == 0 || n == 0 ==> R.Flush(R.Run(events)).emitted == R.Run(events).emitted
    ensures from > 0 ==> R.Run(events).emitted == []
    ensures |R.Flush(R.Run(events)).emitted| == |R.Run(events).emitted| + |R.Run(events).buffer.Keys|
    ensures from > 0 && n > 0 ==> R.Run(events).buffer != map[]
  {
    var s := R.Run(events);
    ResultsOfAll(events, from, n);
    R.RunFollows(events);
    R.DecidedWasReported(s, R.Results(events), R.Skips(events));
    R.EveryDrainAccounts(events);
    FlushedSize(s.buffer.Keys);
    if from == 0 {
      R.PermutationComesOutSorted(events, n);
    }
    if from > 0 {
      assert 0 !in R.Results(events);
      assert s.next == 0;
      FirstIsMember(R.Sequences(s.emitted));
      assert R.Sequences(s.emitted) == [];
      if n > 0 {
        assert from in R.Results(events);
        assert from in s.buffer;
      }
    }
    if n == 0 {
      assert forall q :: q !in s.buffer;
    }
    if s.buffer == map[] {
      R.AscendingIsUnique(R.Ascending(s.buffer.Keys), []);
      assert s.emitted + [] == s.emitted;
    }
  }

  lemma FlushedSize(keys: set<int>)
    ensures |R.Ascending(keys)| == |keys|
  {
    var s := R.Ascending(keys);
    DistinctSize(s);
    assert Elements(s) == keys;
  }

  /** The whole client session: when the sender decides to send EOF and every reply could be parsed,
      the results of all frames of the session come out in order, each with its own reply. */
  lemma AnsweredSessionIsDelivered(c: C.Config, run: seq<C.State>, steps: seq<C.Step>, i: nat)
    requires C.GoodConfig(c) && C.IsRun(c, run, steps) && i < |steps|
    requires steps[i] == C.BySender(C.Drained) && run[i + 1].sender == C.SendingEof && run[i].unread == {}
    ensures c.first <= run[i].nextSequence
    ensures var n := run[i].nextSequence - c.first;
            var drained := R.Run(run[i].reports);
            var all := R.Flush(drained).emitted;
            && R.Sequences(all) == Numbers(c.first, n)
            && (forall k :: 0 <= k < n ==> R.Arrived(all[k].0, all[k].1) in run[i].reports)
            && (drained.emitted == all <==> c.first == 0 || n == 0)
  {
    C.RunKeepsInv(c, run, steps, i);
    C.RunReportsOnce(c, run, steps, i);
    C.EofReportsEverything(c, run, steps, i);
    hide C.IsRun, R.Run, R.Flush;
    assert AllArrive(run[i].reports, c.first, run[i].nextSequence - c.first);
    ConsecutiveFramesComeOut(run[i].reports, c.first, run[i].nextSequence - c.first);
  }

  // ---- Client and server ----

  lemma CountedOnceIsPermutation(s: seq<nat>, from: nat, n: nat)
    requires forall q: nat :: Count(s, q) == One(from <= q < from + n)
    ensures |s| == n && Distinct<int>(s) && forall j :: 0 <= j < |s| ==> from <= s[j] < from + n
  {
    var t: seq<int> := s;
    forall i, j | 0 <= i < j < |t| ensures t[i] != t[j] {
      if s[i] == s[j] {
        CountedTwice(s, i, j);
        assert false;
      }
    }
    forall j | 0 <= j < |s| ensures from <= s[j] < from + n {
      LastIsCounted(s, s[j]);
    }
    forall q: nat | from <= q < from + n ensures q in s {
      LastIsCounted(s, q);
    }
    SameElements(t, Numbers(from, n));
  }

  lemma SameElements(s: seq<int>, t: seq<int>)
    requires Distinct(s) && Distinct(t) && forall x :: x in s <==> x in t
    ensures |s| == |t|
  {
    DistinctSize(s);
    DistinctSize(t);
    assert Elements(s) == Elements(t);
  }

  /** At the EOF decision the frames completed on the wire are those of the session, each once. */
  lemma CompletedFrames(c: C.Config, run: seq<C.State>, steps: seq<C.Step>, i: nat)
    requires C.GoodConfig(c) && C.IsRun(c, run, steps) && i < |steps|
    requires steps[i] == C.BySender(C.Drained) && run[i + 1].sender == C.SendingEof
    ensures c.first <= run[i].nextSequence
    ensures var n := run[i].nextSequence - c.first;
            var frames := C.CompleteFrames(c, run[i].wire);
            && |frames| == n && Distinct<int>(frames)
            && forall j :: 0 <= j < n ==> c.first <= frames[j] < c.first + n
  {
    C.RunKeepsInv(c, run, steps, i);
    var frames := C.CompleteFrames(c, run[i].wire);
    forall q: nat ensures Count(frames, q) == One(c.first <= q < run[i].nextSequence) {
      C.EofCompletesEverything(c, run, steps, i, q);
    }
    hide C.IsRun, C.CompleteFrames;
    CountedOnceIsPermutation(frames, c.first, run[i].nextSequence - c.first);
  }

  /** The server has acknowledged every frame completed on the wire once, in the order of completion, and
      runs until its send loop has counted all sentinels, its workers finishing in any order. Then its
      replies, read by a fresh buffer, come out as frame 0 to frame n-1, each with the reply to its own
      job. */
  lemma ServerAnswersTheSession(
    c: C.Config, run: seq<C.State>, steps: seq<C.Step>, i: nat,
    p: P.Config, served: seq<P.State>, serving: seq<P.Step>, k: nat)
    requires C.GoodConfig(c) && C.IsRun(c, run, steps) && i < |steps| && c.first == 0
    requires steps[i] == C.BySender(C.Drained) && run[i + 1].sender == C.SendingEof
    requires p.workers > 0 && P.IsRun(p, served, serving) && k < |served| && served[k].sender == P.AllCounted
    requires |C.CompleteFrames(c, run[i].wire)| == served[k].nextJob
    ensures var n := run[i].nextSequence;
            var frames := C.CompleteFrames(c, run[i].wire);
            && |frames| == n && Distinct<int>(frames)
            && (forall j :: 0 <= j < |served[k].replies| ==> served[k].replies[j] < |frames|)
            && var s := R.Run(Arrivals(served[k].replies, frames));
               && |s.emitted| == n && s.buffer == map[] && s.dropped == []
               && forall q :: 0 <= q < n ==>
                    s.emitted[q].0 == q && s.emitted[q].1 < n && frames[s.emitted[q].1] == q
  {
    CompletedFrames(c, run, steps, i);
    hide C.IsRun, P.IsRun, R.Run, C.CompleteFrames;
    ServerRepliesAreDeliveredInOrder(p, served, serving, k, C.CompleteFrames(c, run[i].wire));
  }

  /** What the client was told came from the server: each result is the reply to a job, and it was
      reported under the frame of that job. */
  ghost predicate AreReplies(reports: seq<R.Event<nat>>, replies: seq<nat>, frames: seq<nat>) {
    forall q, j {:trigger R.Arrived(q, j)} :: R.Arrived(q, j) in reports ==>
      j in replies && j < |frames| && frames[j] == q
  }

  /** The frames `from` to `from + n - 1` in order, each with the reply to its own job: job `j` is frame
      `frames[j]`, was replied to once, and its reply is used once. */
  ghost predicate OwnReplyEach(all: seq<(int, nat)>, replies: seq<nat>, frames: seq<nat>, from: nat, n: nat) {
    && |frames| == |all| == n
    && (forall q :: 0 <= q < n ==> all[q].0 == from + q && all[q].1 < n && frames[all[q].1] == from + q)
    && (forall j :: 0 <= j < n ==> from <= frames[j] < from + n && all[frames[j] - from].1 == j)
    && (forall j: nat :: Count(replies, j) == One(j < n))
  }

  /** A whole session. The client runs up to its decision to send EOF, every reply having been parsed;
      the server has acknowledged every frame completed on the wire once, in the order of completion, and
      runs until its send loop has counted all sentinels, its workers finishing in any order; what the
      client was told are the server's replies. Then the jobs are the frames of the session, the client
      emits the frames in order, each with the reply to its own job, and uses each reply once. Without
      the flush it does so exactly when the session begins at sequence 0 or has no frames. */
  lemma WholeSessionIsDeliveredInOrder(
    c: C.Config, run: seq<C.State>, steps: seq<C.Step>, i: nat,
    p: P.Config, served: seq<P.State>, serving: seq<P.Step>, k: nat)
    requires C.GoodConfig(c) && C.IsRun(c, run, steps) && i < |steps| && run[i].unread == {}
    requires steps[i] == C.BySender(C.Drained) && run[i + 1].sender == C.SendingEof
    requires p.workers > 0 && P.IsRun(p, served, serving) && k < |served| && served[k].sender == P.AllCounted
    requires |C.CompleteFrames(c, run[i].wire)| == served[k].nextJob
    requires AreReplies(run[i].reports, served[k].replies, C.CompleteFrames(c, run[i].wire))
    ensures c.first <= run[i].nextSequence
    ensures var n := run[i].nextSequence - c.first;
            var frames := C.CompleteFrames(c, run[i].wire);
            var drained := R.Run(run[i].reports);
            var all := R.Flush(drained).emitted;
            && OwnReplyEach(all, served[k].replies, frames, c.first, n)
            && (drained.emitted == all <==> c.first == 0 || n == 0)
  {
    hide R.Run, R.Flush, C.CompleteFrames, C.GoodConfig, Count, AreReplies;
    JobsAreRepliedOnce(p, served, serving, k);
    CompletedFrames(c, run, steps, i);
    AnsweredSessionIsDelivered(c, run, steps, i);
    hide C.IsRun, P.IsRun;
    OwnReplies(R.Flush(R.Run(run[i].reports)).emitted, run[i].reports, served[k].replies,
               C.CompleteFrames(c, run[i].wire), c.first, run[i].nextSequence - c.first);
  }

  lemma JobsAreRepliedOnce(p: P.Config, served: seq<P.State>, serving: seq<P.Step>, k: nat)
    requires p.workers > 0 && P.IsRun(p, served, serving) && k < |served| && served[k].sender == P.AllCounted
    ensures forall j: nat :: Count(served[k].replies, j) == One(j < served[k].nextJob)
  {
    P.EveryAcknowledgedJobIsRepliedOnce(p, served, serving, k);
    P.AcknowledgedJobs(p, served, serving, k);
    hide P.IsRun;
  }

  lemma OwnReplies(
    all: seq<(int, nat)>, reports: seq<R.Event<nat>>, replies: seq<nat>, frames: seq<nat>, from: nat, n: nat)
    requires |frames| == n && Distinct<int>(frames)
    requires forall j :: 0 <= j < n ==> from <= frames[j] < from + n
    requires R.Sequences(all) == Numbers(from, n)
    requires forall q :: 0 <= q < n ==> R.Arrived(all[q].0, all[q].1) in reports
    requires AreReplies(reports, replies, frames)
    requires forall j: nat :: Count(replies, j) == One(j < n)
    ensures OwnReplyEach(all, replies, frames, from, n)
  {
    hide Count;
    forall q | 0 <= q < n ensures all[q].0 == from + q && all[q].1 < n && frames[all[q].1] == from + q {
      assert all[q].0 == R.Sequences(all)[q];
    }
    forall j | 0 <= j < n ensures all[frames[j] - from].1 == j {
      var x := all[frames[j] - from].1;
      assert frames[x] == frames[j];
    }
  }
}
