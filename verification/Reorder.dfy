/** nodes/stream_client.py, inside `reply_consumer`: replies come back in any order and leave in
    sequence order. */
module Reorder {
  import opened Common

  /** What the consumer can be told about a frame. */
  datatype Event<T> =
    | Arrived(sequence: int, result: T)
    | Skipped(sequence: int, detail: string)

  /** `emitted` lists the frames handed to `emit_result`, `dropped` those counted as skipped. */
  datatype State<T> = State(
    buffer: map<int, T>, skips: map<int, string>, next: int, emitted: seq<(int, T)>, dropped: seq<int>)

  // ---- Ascending lists ----

  ghost predicate IsAscending(s: seq<int>) {
    forall i, j :: 0 <= i < j < |s| ==> s[i] < s[j]
  }

  lemma {:induction false} LeastExists(keys: set<int>)
    requires keys != {}
    ensures exists m :: m in keys && forall k :: k in keys ==> m <= k
    decreases |keys|
  {
    var x := AnyOf(keys);
    var rest := keys - {x};
    if rest == {} {
      assert keys == {x};
    } else {
      LeastExists(rest);
      var m :| m in rest && forall k :: k in rest ==> m <= k;
      var l := Min(x, m);
      assert forall k :: k in keys ==> k == x || k in rest;
      assert l in keys && forall k :: k in keys ==> l <= k;
    }
  }

  function Least(keys: set<int>): (m: int)
    requires keys != {}
    ensures m in keys && forall k :: k in keys ==> m <= k
  {
    LeastExists(keys);
    var m :| m in keys && forall k :: k in keys ==> m <= k;
    m
  }

  /** Python's `sorted` on the keys of a dict. */
  function Ascending(keys: set<int>): (r: seq<int>)
    ensures IsAscending(r)
    ensures forall k :: k in r <==> k in keys
    decreases |keys|
  {
    if keys == {} then []
    else
      var m := Least(keys);
      var rest := Ascending(keys - {m});
      assert forall i :: 0 <= i < |rest| ==> rest[i] in keys - {m};
      [m] + rest
  }

  /** An ascending list is determined by its members. */
  lemma {:induction false} AscendingIsUnique(s: seq<int>, t: seq<int>)
    requires IsAscending(s) && IsAscending(t)
    requires forall k :: k in s <==> k in t
    ensures s == t
  {
    FirstIsMember(t);
    if s != [] {
      var a := s[0];
      assert a in s && a in t && t != [];
      var b := t[0];
      assert b in t && b in s;
      assert a == b;
      forall k ensures k in s[1..] <==> k in t[1..] {
        assert k in s[1..] ==> k in s && k != a;
        assert k in t[1..] ==> k in t && k != b;
        assert k in s && k != a ==> k in s[1..];
        assert k in t && k != b ==> k in t[1..];
      }
      AscendingIsUnique(s[1..], t[1..]);
      assert s == [a] + s[1..] && t == [b] + t[1..];
    }
  }

  // ---- The state transitions ----

  function Initial<T>(): State<T> {
    State(map[], map[], 0, [], [])
  }

  /** One round of the loop of `drain_ready`; a skip wins over a result. */
  function Step<T>(s: State<T>): State<T>
    requires s.next in s.skips || s.next in s.buffer
  {
    if s.next in s.skips then
      s.(skips := s.skips - {s.next}, next := s.next + 1, dropped := s.dropped + [s.next])
    else
      s.(buffer := s.buffer - {s.next}, next := s.next + 1,
         emitted := s.emitted + [(s.next, s.buffer[s.next])])
  }

  /** Unforced draining: rounds for as long as the next sequence is known. */
  function Drain<T>(s: State<T>): (r: State<T>)
    ensures r.next !in r.skips && r.next !in r.buffer
    decreases |s.skips| + |s.buffer|
  {
    if s.next in s.skips || s.next in s.buffer then
      StepConsumes(s);
      Drain(Step(s))
    else s
  }

  lemma StepConsumes<T>(s: State<T>)
    requires s.next in s.skips || s.next in s.buffer
    ensures |Step(s).skips| + |Step(s).buffer| < |s.skips| + |s.buffer|
  {
    if s.next in s.skips {
      assert (s.skips - {s.next}).Keys == s.skips.Keys - {s.next};
      assert |s.skips - {s.next}| == |(s.skips - {s.next}).Keys| && |s.skips| == |s.skips.Keys|;
    } else {
      assert (s.buffer - {s.next}).Keys == s.buffer.Keys - {s.next};
      assert |s.buffer - {s.next}| == |(s.buffer - {s.next}).Keys| && |s.buffer| == |s.buffer.Keys|;
    }
  }

  function Pairs<T>(keys: seq<int>, m: map<int, T>): (r: seq<(int, T)>)
    requires forall k :: k in keys ==> k in m
    ensures |r| == |keys|
  {
    seq(|keys|, i requires 0 <= i < |keys| => var k := keys[i]; assert k in keys; (k, m[k]))
  }

  lemma PairsOneMore<T>(keys: seq<int>, m: map<int, T>, n: nat)
    requires n < |keys| && forall k :: k in keys ==> k in m
    ensures keys[n] in m && Pairs(keys, m)[..n + 1] == Pairs(keys, m)[..n] + [(keys[n], m[keys[n]])]
  {
    var k := keys[n];
    assert k in keys;
  }

  /** What a forced drain adds: everything left, in ascending order. */
  function Flush<T>(s: State<T>): State<T> {
    s.(buffer := map[], skips := map[],
       emitted := s.emitted + Pairs(Ascending(s.buffer.Keys), s.buffer),
       dropped := s.dropped + Ascending(s.skips.Keys))
  }

  /** A result for a sequence already passed is discarded; a skip is always recorded. */
  function Take<T>(s: State<T>, e: Event<T>): State<T> {
    match e
    case Arrived(sequence, result) =>
      if sequence < s.next then s else s.(buffer := s.buffer[sequence := result])
    case Skipped(sequence, detail) => s.(skips := s.skips[sequence := detail])
  }

  function Handle<T>(s: State<T>, e: Event<T>): State<T> {
    Drain(Take(s, e))
  }

  function Run<T>(events: seq<Event<T>>): State<T> {
    if events == [] then Initial()
    else Handle(Run(events[..|events| - 1]), events[|events| - 1])
  }

  // ---- Whatever arrives: one decision for each sequence, in order ----

  function Sequences<T>(emitted: seq<(int, T)>): (r: seq<int>)
    ensures |r| == |emitted|
  {
    seq(|emitted|, i requires 0 <= i < |emitted| => emitted[i].0)
  }

  /** Emitted and dropped together are exactly 0..next-1, each sequence in one of the two, and both
      lists are ascending. */
  ghost predicate Accounted<T>(s: State<T>) {
    && s.next >= 0
    && IsAscending(Sequences(s.emitted)) && IsAscending(s.dropped)
    && (forall n :: n in Sequences(s.emitted) || n in s.dropped <==> 0 <= n < s.next)
    && (forall n :: n in Sequences(s.emitted) ==> n !in s.dropped)
  }

  lemma StepAccounts<T>(s: State<T>)
    requires Accounted(s) && (s.next in s.skips || s.next in s.buffer)
    ensures Accounted(Step(s))
  {
    var r := Step(s);
    var was := Sequences(s.emitted);
    assert forall i :: 0 <= i < |was| ==> was[i] in was;
    assert forall i :: 0 <= i < |s.dropped| ==> s.dropped[i] in s.dropped;
    if s.next in s.skips {
      assert forall n :: n in r.dropped <==> n in s.dropped || n == s.next;
    } else {
      assert Sequences(r.emitted) == was + [s.next];
      assert forall n :: n in was + [s.next] <==> n in was || n == s.next;
    }
  }

  lemma {:induction false} DrainAccounts<T>(s: State<T>)
    requires Accounted(s)
    ensures Accounted(Drain(s))
    decreases |s.skips| + |s.buffer|
  {
    if s.next in s.skips || s.next in s.buffer {
      StepConsumes(s);
      StepAccounts(s);
      DrainAccounts(Step(s));
    }
  }

  /** After every unforced drain, whatever arrived and was skipped before it, repeats included. */
  lemma {:induction false} EveryDrainAccounts<T>(events: seq<Event<T>>)
    ensures Accounted(Run(events))
    ensures Run(events).next !in Run(events).buffer && Run(events).next !in Run(events).skips
  {
    if events != [] {
      var before := Run(events[..|events| - 1]);
      EveryDrainAccounts(events[..|events| - 1]);
      DrainAccounts(Take(before, events[|events| - 1]));
    }
  }

  // ---- Each sequence reported once: everything comes out in order ----

  ghost function Results<T>(events: seq<Event<T>>): map<int, T> {
    if events == [] then map[]
    else
      var e := events[|events| - 1];
      var m := Results(events[..|events| - 1]);
      if e.Arrived? then m[e.sequence := e.result] else m
  }

  ghost function Skips<T>(events: seq<Event<T>>): map<int, string> {
    if events == [] then map[]
    else
      var e := events[|events| - 1];
      var m := Skips(events[..|events| - 1]);
      if e.Skipped? then m[e.sequence := e.detail] else m
  }

  /** Sequences are natural numbers, and none is reported twice, as arrived or as skipped. */
  ghost predicate ReportedOnce<T>(events: seq<Event<T>>) {
    && (forall i :: 0 <= i < |events| ==> events[i].sequence >= 0)
    && (forall i, j :: 0 <= i < j < |events| ==> events[i].sequence != events[j].sequence)
  }

  /** The state after results `a` and skips `k` were reported, once each: what is below `next` has
      been decided, in order, and the rest is waiting. */
  ghost predicate Follows<T>(s: State<T>, a: map<int, T>, k: map<int, string>) {
    && Accounted(s)
    && (forall n :: n in a ==> n >= 0 && n !in k)
    && (forall n :: n in k ==> n >= 0)
    && (forall n :: n in s.buffer <==> n in a && n >= s.next)
    && (forall n :: n in s.buffer ==> s.buffer[n] == a[n])
    && (forall n :: n in s.skips <==> n in k && n >= s.next)
    && (forall i :: 0 <= i < |s.emitted| ==> s.emitted[i].0 in a && s.emitted[i].1 == a[s.emitted[i].0])
    && (forall i :: 0 <= i < |s.dropped| ==> s.dropped[i] in k)
  }

  lemma StepFollows<T>(s: State<T>, a: map<int, T>, k: map<int, string>)
    requires Follows(s, a, k) && (s.next in s.skips || s.next in s.buffer)
    ensures Follows(Step(s), a, k)
  {
    StepAccounts(s);
    hide Accounted;
  }

  lemma {:induction false} DrainFollows<T>(s: State<T>, a: map<int, T>, k: map<int, string>)
    requires Follows(s, a, k)
    ensures Follows(Drain(s), a, k)
    decreases |s.skips| + |s.buffer|
  {
    hide Follows;
    if s.next in s.skips || s.next in s.buffer {
      StepConsumes(s);
      StepFollows(s, a, k);
      DrainFollows(Step(s), a, k);
    }
  }

  /** Every sequence below `next` is in exactly one of the two lists, so it was reported. */
  lemma DecidedWasReported<T>(s: State<T>, a: map<int, T>, k: map<int, string>)
    requires Follows(s, a, k)
    ensures forall n :: n in Sequences(s.emitted) <==> n in a && n < s.next
    ensures forall n :: n in s.dropped <==> n in k && n < s.next
    ensures forall n :: 0 <= n < s.next ==> n in a || n in k
  {
    forall n | n in Sequences(s.emitted) ensures n in a && n < s.next {}
    forall n | n in s.dropped ensures n in k && n < s.next {}
  }

  lemma {:induction false} ReportedIn<T>(events: seq<Event<T>>, n: int)
    ensures n in Results(events) || n in Skips(events) <==>
            exists i :: 0 <= i < |events| && events[i].sequence == n
  {
    if events != [] {
      var last := |events| - 1;
      ReportedIn(events[..last], n);
      assert forall i :: 0 <= i < last ==> events[..last][i] == events[i];
      if n in Results(events[..last]) || n in Skips(events[..last]) {
        var i :| 0 <= i < last && events[..last][i].sequence == n;
        assert events[i].sequence == n;
      }
    }
  }

  lemma {:induction false} RunFollows<T>(events: seq<Event<T>>)
    requires ReportedOnce(events)
    ensures Follows(Run(events), Results(events), Skips(events))
  {
    if events != [] {
      var prefix := events[..|events| - 1];
      var e := events[|events| - 1];
      assert forall i :: 0 <= i < |prefix| ==> prefix[i] == events[i];
      RunFollows(prefix);
      var before := Run(prefix);
      ReportedIn(prefix, e.sequence);
      TakeFollows(before, Results(prefix), Skips(prefix), e);
      DrainFollows(Take(before, e), Results(events), Skips(events));
    }
  }

  lemma TakeFollows<T>(s: State<T>, a: map<int, T>, k: map<int, string>, e: Event<T>)
    requires Follows(s, a, k) && e.sequence >= 0 && e.sequence !in a && e.sequence !in k
    ensures Follows(Take(s, e),
                    if e.Arrived? then a[e.sequence := e.result] else a,
                    if e.Skipped? then k[e.sequence := e.detail] else k)
  {
    DecidedWasReported(s, a, k);
    assert e.sequence >= s.next;
    hide Accounted;
  }

  /** Two ascending lists, the first entirely below `n` and the second not, are one ascending list. */
  lemma JoinAscending(low: seq<int>, high: seq<int>, n: int)
    requires IsAscending(low) && IsAscending(high)
    requires forall i :: 0 <= i < |low| ==> low[i] < n
    requires forall i :: 0 <= i < |high| ==> n <= high[i]
    ensures IsAscending(low + high)
  {
  }

  /** In-order, exactly-once delivery. If no sequence is reported twice, then whatever the order of
      the reports, the whole run with its final forced flush emits every result that arrived, once
      each, in strictly ascending sequence order, and counts every skip. */
  lemma DeliveryIsInOrder<T>(events: seq<Event<T>>)
    requires ReportedOnce(events)
    ensures Flush(Run(events)).emitted == Pairs(Ascending(Results(events).Keys), Results(events))
    ensures Flush(Run(events)).dropped == Ascending(Skips(events).Keys)
    ensures Flush(Run(events)).buffer == map[] && Flush(Run(events)).skips == map[]
    ensures IsAscending(Sequences(Flush(Run(events)).emitted))
  {
    var s := Run(events);
    var a := Results(events);
    var k := Skips(events);
    RunFollows(events);
    FlushDelivers(s, a, k);
    assert Sequences(Pairs(Ascending(a.Keys), a)) == Ascending(a.Keys);
  }

  lemma FlushDelivers<T>(s: State<T>, a: map<int, T>, k: map<int, string>)
    requires Follows(s, a, k)
    ensures Flush(s).emitted == Pairs(Ascending(a.Keys), a)
    ensures Flush(s).dropped == Ascending(k.Keys)
  {
    DecidedWasReported(s, a, k);
    var keys := Ascending(s.buffer.Keys);
    assert forall i :: 0 <= i < |keys| ==> keys[i] in keys;
    assert forall i :: 0 <= i < |keys| ==> s.buffer[keys[i]] == a[keys[i]];
    hide Ascending, IsAscending;
    MergeAscending(Sequences(s.emitted), keys, s.next, a.Keys);
    MergeAscending(s.dropped, Ascending(s.skips.Keys), s.next, k.Keys);
    PairsAppend(s.emitted, keys, s.buffer, a);
  }

  /** Two lists of entries of one map, taken together. */
  lemma PairsAppend<T>(emitted: seq<(int, T)>, keys: seq<int>, m: map<int, T>, a: map<int, T>)
    requires forall i :: 0 <= i < |emitted| ==> emitted[i].0 in a && emitted[i].1 == a[emitted[i].0]
    requires forall i :: 0 <= i < |keys| ==> keys[i] in m && keys[i] in a && m[keys[i]] == a[keys[i]]
    ensures forall q :: q in Sequences(emitted) + keys ==> q in a
    ensures emitted + Pairs(keys, m) == Pairs(Sequences(emitted) + keys, a)
  {
  }

  lemma MergeAscending(low: seq<int>, high: seq<int>, n: int, keys: set<int>)
    requires IsAscending(low) && IsAscending(high)
    requires forall j :: j in low <==> j in keys && j < n
    requires forall j :: j in high <==> j in keys && j >= n
    ensures low + high == Ascending(keys)
  {
    assert forall i :: 0 <= i < |low| ==> low[i] in low;
    assert forall i :: 0 <= i < |high| ==> high[i] in high;
    JoinAscending(low, high, n);
    AscendingIsUnique(low + high, Ascending(keys));
  }

  /** Any permutation of the frames 0..n-1 is emitted as 0..n-1 with nothing left to flush. */
  lemma PermutationComesOutSorted<T>(events: seq<Event<T>>, n: nat)
    requires ReportedOnce(events)
    requires forall i :: 0 <= i < |events| ==> events[i].Arrived?
    requires forall q :: q in Results(events) <==> 0 <= q < n
    ensures var s := Run(events);
            && s.next == n && s.buffer == map[] && s.dropped == []
            && |s.emitted| == n
            && forall q :: 0 <= q < n ==> s.emitted[q] == (q, Results(events)[q])
  {
    var s := Run(events);
    var a := Results(events);
    RunFollows(events);
    NoSkips(events);
    EveryDrainAccounts(events);
    DecidedWasReported(s, a, map[]);
    assert s.next !in a;
    assert n !in a;
    assert !(0 <= s.next < n) && !(0 <= n < s.next);
    assert forall m :: m !in s.buffer;
    FirstIsMember(s.dropped);
    var upTo := seq(n, i => i);
    forall m ensures m in Sequences(s.emitted) <==> m in upTo {
      assert 0 <= m < n ==> upTo[m] == m;
      assert m in Sequences(s.emitted) <==> 0 <= m < n;
    }
    AscendingIsUnique(Sequences(s.emitted), upTo);
    forall q | 0 <= q < n ensures s.emitted[q] == (q, a[q]) {
      assert s.emitted[q].0 == Sequences(s.emitted)[q];
    }
  }

  lemma {:induction false} NoSkips<T>(events: seq<Event<T>>)
    requires forall i :: 0 <= i < |events| ==> events[i].Arrived?
    ensures Skips(events) == map[]
  {
    if events != [] {
      NoSkips(events[..|events| - 1]);
    }
  }

  /** Why `DeliveryIsInOrder` needs its hypothesis. Told that a sequence both arrived and was skipped, the
      buffer counts it as skipped when its turn comes, keeps its result, and flushes it after later
      frames. The pipeline never tells it so: `ClientPipeline.RunReportsOnce`. */
  lemma RepeatsBreakTheFlush()
    ensures var events := [Arrived(1, 'b'), Skipped(1, "lost"), Arrived(0, 'a'), Arrived(2, 'c')];
            Flush(Run(events)).emitted == [(0, 'a'), (2, 'c'), (1, 'b')]
  {
    var events := [Arrived(1, 'b'), Skipped(1, "lost"), Arrived(0, 'a'), Arrived(2, 'c')];
    assert events[..3] == [Arrived(1, 'b'), Skipped(1, "lost"), Arrived(0, 'a')];
    ArrivedAndSkipped();
    var v := State(map[1 := 'b'], map[], 2, [(0, 'a')], [1]);
    var w := v.(buffer := map[1 := 'b', 2 := 'c']);
    assert Take(v, events[3]) == w;
    assert w.buffer - {2} == map[1 := 'b'];
    var x := State(map[1 := 'b'], map[], 3, [(0, 'a'), (2, 'c')], [1]);
    assert Step(w) == x;
    assert Run(events) == x;
    AscendingIsUnique(Ascending({1}), [1]);
    assert x.buffer.Keys == {1};
  }

  lemma ArrivedAndSkipped()
    ensures Run([Arrived(1, 'b'), Skipped(1, "lost"), Arrived(0, 'a')])
         == State(map[1 := 'b'], map[], 2, [(0, 'a')], [1])
  {
    var events := [Arrived(1, 'b'), Skipped(1, "lost"), Arrived(0, 'a')];
    var s := State(map[1 := 'b'], map[1 := "lost"], 0, [], []);
    assert events[..2][..1] == [Arrived(1, 'b')];
    assert Run(events[..2][..1][..0]) == Initial();
    assert Run(events[..2]) == s;
    var t := s.(buffer := map[1 := 'b', 0 := 'a']);
    assert Take(s, events[2]) == t;
    var u := State(map[1 := 'b'], map[1 := "lost"], 1, [(0, 'a')], []);
    assert t.buffer - {0} == map[1 := 'b'];
    assert Step(t) == u;
    assert Step(u) == State(map[1 := 'b'], map[], 2, [(0, 'a')], [1]);
  }

  lemma AppendedKeysAscend(low: seq<int>, keys: set<int>)
    requires IsAscending(low)
    ensures IsAscending(low + Ascending(keys)) <==> forall q, r :: q in low && r in keys ==> q < r
  {
    var high := Ascending(keys);
    var all := low + high;
    if IsAscending(all) {
      forall q, r | q in low && r in keys ensures q < r {
        assert r in high;
        var i :| 0 <= i < |low| && low[i] == q;
        var j :| 0 <= j < |high| && high[j] == r;
        assert all[i] == q && all[|low| + j] == r;
      }
    }
    if forall q, r :: q in low && r in keys ==> q < r {
      forall i, j | 0 <= i < j < |all| ensures all[i] < all[j] {
        assert j >= |low| ==> all[j] in high;
        assert i < |low| ==> all[i] in low;
      }
    }
  }

  // ---- Any reports, repeated ones included ----

  ghost predicate Reported<T>(events: seq<Event<T>>, n: int) {
    exists i :: 0 <= i < |events| && events[i].sequence == n
  }

  /** The turn of `q` has not passed: `q` or an earlier sequence has not been reported. */
  ghost predicate Open<T>(events: seq<Event<T>>, q: int) {
    exists n :: 0 <= n <= q && !Reported(events, n)
  }

  /** The sequences reported as arrived before their turn had passed. */
  ghost function ArrivedInTime<T>(events: seq<Event<T>>): set<int> {
    set i | 0 <= i < |events| && events[i].Arrived? && Open(events[..i], events[i].sequence) :: events[i].sequence
  }

  ghost function SkippedInTime<T>(events: seq<Event<T>>): set<int> {
    set i | 0 <= i < |events| && events[i].Skipped? && Open(events[..i], events[i].sequence) :: events[i].sequence
  }

  /** The state after the sequences `a` arrived and `k` were skipped in time. What is both was skipped
      when its turn came, and its result stayed behind. */
  ghost predicate Tracks<T>(s: State<T>, a: set<int>, k: set<int>) {
    && s.next >= 0 && (forall q :: q in a || q in k ==> q >= 0)
    && (forall q :: 0 <= q < s.next ==> q in a || q in k)
    && (forall q :: q in Sequences(s.emitted) <==> q < s.next && q in a && q !in k)
    && (forall q :: q in s.dropped <==> q < s.next && q in k)
    && (forall q :: q in s.buffer <==> q in a && (q >= s.next || q in k))
    && (forall q :: q in s.skips && q >= s.next <==> q in k && q >= s.next)
  }

  lemma StepTracks<T>(s: State<T>, a: set<int>, k: set<int>)
    requires Tracks(s, a, k) && (s.next in s.skips || s.next in s.buffer)
    ensures Tracks(Step(s), a, k)
  {
    if s.next !in s.skips {
      assert Sequences(Step(s).emitted) == Sequences(s.emitted) + [s.next];
    }
  }

  lemma {:induction false} DrainTracks<T>(s: State<T>, a: set<int>, k: set<int>)
    requires Tracks(s, a, k)
    ensures Tracks(Drain(s), a, k)
    decreases |s.skips| + |s.buffer|
  {
    hide Tracks;
    if s.next in s.skips || s.next in s.buffer {
      StepConsumes(s);
      StepTracks(s, a, k);
      DrainTracks(Step(s), a, k);
    }
  }

  lemma TakeTracks<T>(s: State<T>, a: set<int>, k: set<int>, e: Event<T>)
    requires Tracks(s, a, k)
    ensures Tracks(Take(s, e),
                   if e.Arrived? && e.sequence >= s.next then a + {e.sequence} else a,
                   if e.Skipped? && e.sequence >= s.next then k + {e.sequence} else k)
  {
  }

  lemma InTimeGrows<T>(events: seq<Event<T>>)
    requires events != []
    ensures var n := |events| - 1;
            var q := events[n].sequence;
            && ArrivedInTime(events) == ArrivedInTime(events[..n])
                 + (if events[n].Arrived? && Open(events[..n], q) then {q} else {})
            && SkippedInTime(events) == SkippedInTime(events[..n])
                 + (if events[n].Skipped? && Open(events[..n], q) then {q} else {})
  {
    hide Open;
    var n := |events| - 1;
    assert forall i :: 0 <= i < n ==> events[..n][..i] == events[..i];
    assert forall i :: 0 <= i < n ==> events[..n][i] == events[i];
  }

  lemma ReportedGrows<T>(events: seq<Event<T>>, q: int)
    requires events != []
    ensures Reported(events, q) <==>
            Reported(events[..|events| - 1], q) || events[|events| - 1].sequence == q
  {
    var n := |events| - 1;
    if Reported(events[..n], q) {
      var i :| 0 <= i < n && events[..n][i].sequence == q;
      assert events[i].sequence == q;
    }
    if Reported(events, q) && events[n].sequence != q {
      var i :| 0 <= i < |events| && events[i].sequence == q;
      assert events[..n][i].sequence == q;
    }
  }

  /** `next` is the least sequence not reported, and everything reported was once reported in time. */
  ghost predicate Explains<T>(events: seq<Event<T>>, s: State<T>, a: set<int>, k: set<int>) {
    && Tracks(s, a, k)
    && (forall q {:trigger Open(events, q)} :: Open(events, q) <==> q >= s.next)
    && (forall q {:trigger Reported(events, q)} :: q >= 0 ==> (Reported(events, q) <==> q in a || q in k))
  }

  lemma HandleExplains<T>(events: seq<Event<T>>, s: State<T>, a: set<int>, k: set<int>)
    requires events != [] && Explains(events[..|events| - 1], s, a, k)
    ensures var prefix, e := events[..|events| - 1], events[|events| - 1];
            Explains(events, Handle(s, e),
                     if e.Arrived? && Open(prefix, e.sequence) then a + {e.sequence} else a,
                     if e.Skipped? && Open(prefix, e.sequence) then k + {e.sequence} else k)
  {
    var prefix, e := events[..|events| - 1], events[|events| - 1];
    var a', k' := if e.Arrived? && Open(prefix, e.sequence) then a + {e.sequence} else a,
                  if e.Skipped? && Open(prefix, e.sequence) then k + {e.sequence} else k;
    TakeTracks(s, a, k, e);
    DrainTracks(Take(s, e), a', k');
    hide Drain, Take, Open, Reported;
    forall q ensures q >= 0 ==> (Reported(events, q) <==> q in a' || q in k') {
      ReportedGrows(events, q);
    }
    NextIsLeast(events, Handle(s, e), a', k');
  }

  lemma NextIsLeast<T>(events: seq<Event<T>>, s: State<T>, a: set<int>, k: set<int>)
    requires Tracks(s, a, k) && s.next !in s.buffer && s.next !in s.skips
    requires forall q {:trigger Reported(events, q)} :: q >= 0 ==> (Reported(events, q) <==> q in a || q in k)
    ensures forall q {:trigger Open(events, q)} :: Open(events, q) <==> q >= s.next
  {
    assert !Reported(events, s.next);
  }

  lemma NothingExplained<T>()
    ensures Explains<T>([], Initial(), {}, {})
  {
    assert !Reported<T>([], 0);
  }

  lemma NothingInTime<T>(events: seq<Event<T>>)
    requires events == []
    ensures ArrivedInTime(events) == {} && SkippedInTime(events) == {}
  {
  }

  lemma {:induction false} RunTracks<T>(events: seq<Event<T>>)
    ensures Explains(events, Run(events), ArrivedInTime(events), SkippedInTime(events))
  {
    hide Explains, ArrivedInTime, SkippedInTime, Handle, Open;
    if events == [] {
      NothingExplained<T>();
      NothingInTime(events);
    } else {
      var prefix, e := events[..|events| - 1], events[|events| - 1];
      RunTracks(prefix);
      InTimeGrows(events);
      var a, k := ArrivedInTime(prefix), SkippedInTime(prefix);
      HandleExplains(events, Run(prefix), a, k);
      assert a + {} == a && k + {} == k;
    }
  }

  /** What is emitted before the flush, whatever the reports: the sequences that arrived in time, were
      not skipped in time and have nothing unreported in front of them, in ascending order. */
  lemma EmittedBeforeFlush<T>(events: seq<Event<T>>)
    ensures Sequences(Run(events).emitted) == Ascending(ReadyFrames(events))
  {
    RunTracks(events);
    EveryDrainAccounts(events);
    hide Run, ArrivedInTime, SkippedInTime, Open, Reported, Ascending;
    AscendingIsUnique(Sequences(Run(events).emitted), Ascending(ReadyFrames(events)));
  }

  ghost function ReadyFrames<T>(events: seq<Event<T>>): set<int> {
    set q | q in ArrivedInTime(events) && q !in SkippedInTime(events) && !Open(events, q)
  }

  /** One of `ready` comes after a sequence that is in both `a` and `k`. */
  ghost predicate Overtakes(ready: set<int>, a: set<int>, k: set<int>) {
    exists q, r :: q < r && q in a && q in k && r in ready
  }

  /** When the order breaks, whatever the reports: the flush emits a frame after a later one exactly
      when a sequence was reported both as arrived and as skipped before its turn had passed, and a
      later one that only arrived got its turn, nothing up to it being unreported. */
  lemma FlushBreaksOrderIff<T>(events: seq<Event<T>>)
    ensures !IsAscending(Sequences(Flush(Run(events)).emitted)) <==>
            Overtakes(ReadyFrames(events), ArrivedInTime(events), SkippedInTime(events))
  {
    var s := Run(events);
    EmittedBeforeFlush(events);
    ReadyAndWaiting(events);
    FlushedSequences(s);
    hide Run, Flush, ArrivedInTime, SkippedInTime, IsAscending, Ascending, ReadyFrames, Sequences, Overtakes;
    BreaksIff(s.buffer.Keys, s.next, ArrivedInTime(events), SkippedInTime(events), ReadyFrames(events));
  }

  lemma FlushedSequences<T>(s: State<T>)
    ensures Sequences(Flush(s).emitted) == Sequences(s.emitted) + Ascending(s.buffer.Keys)
  {
    SequencesOfPairs(s.emitted, Ascending(s.buffer.Keys), s.buffer);
    hide Pairs, Sequences, Ascending;
  }

  lemma SequencesOfPairs<T>(emitted: seq<(int, T)>, keys: seq<int>, m: map<int, T>)
    requires forall k :: k in keys ==> k in m
    ensures Sequences(emitted + Pairs(keys, m)) == Sequences(emitted) + keys
  {
  }

  lemma ReadyAndWaiting<T>(events: seq<Event<T>>)
    ensures var s, a, k := Run(events), ArrivedInTime(events), SkippedInTime(events);
            && (forall r :: r in ReadyFrames(events) ==> r < s.next && r !in k)
            && (forall q :: q in s.buffer.Keys <==> q in a && (q >= s.next || q in k))
  {
    RunTracks(events);
    hide Run, ArrivedInTime, SkippedInTime, Open, Reported;
  }

  lemma BreaksIff(waiting: set<int>, next: int, a: set<int>, k: set<int>, ready: set<int>)
    requires forall r :: r in ready ==> r < next && r !in k
    requires forall q :: q in waiting <==> q in a && (q >= next || q in k)
    ensures !IsAscending(Ascending(ready) + Ascending(waiting)) <==> Overtakes(ready, a, k)
  {
    AppendedKeysAscend(Ascending(ready), waiting);
    hide IsAscending, Ascending;
    if r, q :| r in Ascending(ready) && q in waiting && !(r < q) {
      assert q < r && q in a && q in k && r in ready;
    }
    if q, r :| q < r && q in a && q in k && r in ready {
      assert r in Ascending(ready) && q in waiting;
    }
  }

  /** Without the flush, each sequence reported at most once: exactly the results with nothing
      unreported in front of them are emitted, in order, and the same holds of the skips counted. */
  lemma DeliveryWithoutFlush<T>(events: seq<Event<T>>)
    requires ReportedOnce(events)
    ensures Run(events).emitted == Pairs(Ascending(InTurn(events, Results(events).Keys)), Results(events))
    ensures Run(events).dropped == Ascending(InTurn(events, Skips(events).Keys))
    ensures IsAscending(Sequences(Run(events).emitted))
  {
    var s, a, k := Run(events), Results(events), Skips(events);
    RunFollows(events);
    RunTracks(events);
    DecidedWasReported(s, a, k);
    hide Run, Open, Ascending;
    AscendingIsUnique(Sequences(s.emitted), Ascending(InTurn(events, a.Keys)));
    AscendingIsUnique(s.dropped, Ascending(InTurn(events, k.Keys)));
    assert Pairs(Sequences(s.emitted), a) == s.emitted;
  }

  /** Those of `keys` with nothing unreported up to them. */
  ghost function InTurn<T>(events: seq<Event<T>>, keys: set<int>): (r: set<int>)
    ensures r <= keys
  {
    set q | q in keys && !Open(events, q)
  }

  /** The results that arrived in time, of a repeated one the last. */
  ghost function InTimeResults<T>(events: seq<Event<T>>): map<int, T> {
    if events == [] then map[]
    else
      var prefix, e := events[..|events| - 1], events[|events| - 1];
      var m := InTimeResults(prefix);
      if e.Arrived? && Open(prefix, e.sequence) then m[e.sequence := e.result] else m
  }

  /** Everything waiting or emitted is the result in `m`. */
  ghost predicate Carries<T>(s: State<T>, m: map<int, T>) {
    && (forall q :: q in s.buffer ==> q in m && s.buffer[q] == m[q])
    && (forall i :: 0 <= i < |s.emitted| ==> s.emitted[i].0 in m && s.emitted[i].0 < s.next && s.emitted[i].1 == m[s.emitted[i].0])
  }

  lemma {:induction false} DrainCarries<T>(s: State<T>, m: map<int, T>)
    requires Carries(s, m)
    ensures Carries(Drain(s), m)
    decreases |s.skips| + |s.buffer|
  {
    if s.next in s.skips || s.next in s.buffer {
      StepConsumes(s);
      DrainCarries(Step(s), m);
    }
  }

  lemma TakeCarries<T>(s: State<T>, m: map<int, T>, e: Event<T>)
    requires Carries(s, m)
    ensures Carries(Take(s, e), if e.Arrived? && e.sequence >= s.next then m[e.sequence := e.result] else m)
  {
  }

  /** Whatever the reports, what is emitted of a sequence, flush included, is the result that was last
      reported for it before its turn had passed. */
  lemma {:induction false} LastResultCounts<T>(events: seq<Event<T>>)
    ensures Carries(Run(events), InTimeResults(events))
    ensures forall i :: 0 <= i < |Flush(Run(events)).emitted| ==>
              var (q, v) := Flush(Run(events)).emitted[i]; q in InTimeResults(events) && v == InTimeResults(events)[q]
  {
    if events != [] {
      var prefix, e := events[..|events| - 1], events[|events| - 1];
      LastResultCounts(prefix);
      RunTracks(prefix);
      hide Drain, Take, Flush, Open, Carries, ArrivedInTime, SkippedInTime, Tracks;
      TakeCarries(Run(prefix), InTimeResults(prefix), e);
      DrainCarries(Take(Run(prefix), e), InTimeResults(events));
    }
    FlushCarries(Run(events), InTimeResults(events));
  }

  lemma FlushCarries<T>(s: State<T>, m: map<int, T>)
    requires Carries(s, m)
    ensures forall i :: 0 <= i < |Flush(s).emitted| ==>
              Flush(s).emitted[i].0 in m && Flush(s).emitted[i].1 == m[Flush(s).emitted[i].0]
  {
    var keys := Ascending(s.buffer.Keys);
    forall i | 0 <= i < |keys| ensures keys[i] in s.buffer {
      assert keys[i] in keys;
    }
  }

  // ---- `emit_result` raising or being cancelled: the consumer's handler flushes ----

  /** The first `n` rounds of draining. */
  function Rounds<T>(s: State<T>, n: nat): State<T>
    decreases n
  {
    if n > 0 && (s.next in s.skips || s.next in s.buffer) then Rounds(Step(s), n - 1) else s
  }

  /** The result was taken out and handed over, and `next_sequence` stays where it was. */
  function EmitFails<T>(s: State<T>): State<T>
    requires s.next in s.buffer
  {
    s.(buffer := s.buffer - {s.next}, emitted := s.emitted + [(s.next, s.buffer[s.next])])
  }

  /** A forced drain cut short with `n` of the waiting results handed over; both tables are still full. */
  function FlushFails<T>(s: State<T>, n: nat): State<T>
    requires n <= |Ascending(s.buffer.Keys)|
  {
    s.(emitted := s.emitted + Pairs(Ascending(s.buffer.Keys), s.buffer)[..n])
  }

  lemma {:induction false} RoundsFollow<T>(s: State<T>, n: nat, a: map<int, T>, k: map<int, string>)
    requires Follows(s, a, k)
    ensures Follows(Rounds(s, n), a, k)
    decreases n
  {
    hide Follows;
    if n > 0 && (s.next in s.skips || s.next in s.buffer) {
      StepFollows(s, a, k);
      RoundsFollow(Step(s), n - 1, a, k);
    }
  }

  lemma TakenFollows<T>(events: seq<Event<T>>)
    requires ReportedOnce(events) && events != []
    ensures Follows(Take(Run(events[..|events| - 1]), events[|events| - 1]), Results(events), Skips(events))
  {
    var prefix, e := events[..|events| - 1], events[|events| - 1];
    RunFollows(prefix);
    ReportedIn(prefix, e.sequence);
    hide Run, Follows, Take;
    TakeFollows(Run(prefix), Results(prefix), Skips(prefix), e);
  }

  /** After a failure in an unforced drain, at whatever round, every result has been handed over in order,
      once each, the one that failed included, and every skip is counted once. */
  lemma FailureInDrain<T>(events: seq<Event<T>>, n: nat)
    requires ReportedOnce(events) && events != []
    requires var s := Rounds(Take(Run(events[..|events| - 1]), events[|events| - 1]), n);
             s.next in s.buffer && s.next !in s.skips
    ensures var s := Rounds(Take(Run(events[..|events| - 1]), events[|events| - 1]), n);
            var r := Flush(Drain(EmitFails(s)));
            && r.emitted == Pairs(Ascending(Results(events).Keys), Results(events))
            && r.dropped == Ascending(Skips(events).Keys)
  {
    var a, k := Results(events), Skips(events);
    var t := Take(Run(events[..|events| - 1]), events[|events| - 1]);
    TakenFollows(events);
    hide Run, Take, Follows, Ascending, Pairs, Results, Skips, Rounds;
    RoundsFollow(t, n, a, k);
    StepFollows(Rounds(t, n), a, k);
    FlushDelivers(Step(Rounds(t, n)), a, k);
  }

  /** After a failure in the forced drain those of the waiting results that had been handed over are
      handed over again, whatever the reports, and the order is lost. */
  lemma FailureInFlush<T>(events: seq<Event<T>>, n: nat)
    requires 0 < n <= |Ascending(Run(events).buffer.Keys)|
    ensures var s := Run(events);
            var waiting := Pairs(Ascending(s.buffer.Keys), s.buffer);
            var r := Flush(Drain(FlushFails(s, n)));
            && r.emitted == s.emitted + waiting[..n] + waiting
            && r.dropped == Flush(s).dropped
            && !IsAscending(Sequences(r.emitted))
  {
    var s := Run(events);
    EveryDrainAccounts(events);
    hide Run, Ascending, Accounted;
    var keys := Ascending(s.buffer.Keys);
    var emitted := s.emitted + Pairs(keys, s.buffer)[..n] + Pairs(keys, s.buffer);
    var i := |s.emitted|;
    assert Sequences(emitted)[i] == keys[0] == Sequences(emitted)[i + n];
  }

  // ---- The closure variables of `reply_consumer` and the functions that update them ----

  class ReorderBuffer<T> {
    var buffer: map<int, T>
    var skips: map<int, string>
    var next: int
    var emitted: seq<(int, T)>
    var dropped: seq<int>

    constructor ()
      ensures View() == Initial<T>()
    {
      buffer, skips, next, emitted, dropped := map[], map[], 0, [], [];
    }

    function View(): State<T>
      reads this
    {
      State(buffer, skips, next, emitted, dropped)
    }

    method DrainReady(force: bool) returns (flushed: nat, skipped: nat)
      modifies this
      ensures View() == if force then Flush(Drain(old(View()))) else Drain(old(View()))
      ensures |emitted| == old(|emitted|) + flushed && |dropped| == old(|dropped|) + skipped
    {
      flushed, skipped := 0, 0;
      while true
        invariant Drain(View()) == Drain(old(View()))
        invariant |emitted| == old(|emitted|) + flushed && |dropped| == old(|dropped|) + skipped
        decreases |skips| + |buffer|
      {
        if next in skips {
          StepConsumes(View());
          skips := skips - {next};
          dropped := dropped + [next];
          skipped := skipped + 1;
          next := next + 1;
          continue;
        }
        if next !in buffer {
          break;
        }
        StepConsumes(View());
        var result := buffer[next];
        buffer := buffer - {next};
        emitted := emitted + [(next, result)];
        next := next + 1;
        flushed := flushed + 1;
      }
      if force {
        var f, k := FlushRest();
        flushed, skipped := flushed + f, skipped + k;
      }
    }

    /** The forced half of `drain_ready`. */
    method FlushRest() returns (flushed: nat, skipped: nat)
      modifies this
      ensures View() == Flush(old(View()))
      ensures |emitted| == old(|emitted|) + flushed && |dropped| == old(|dropped|) + skipped
    {
      hide Ascending, IsAscending, Pairs;
      flushed := EmitWaiting();
      skipped := 0;
      buffer := map[];
      var rest := Ascending(skips.Keys);
      if skips != map[] {
        dropped := dropped + rest;
        skipped := |rest|;
        skips := map[];
      } else {
        FirstIsMember(rest);
        assert dropped + rest == dropped;
      }
    }

    method EmitWaiting() returns (flushed: nat)
      modifies this`emitted
      ensures flushed == |Ascending(buffer.Keys)|
      ensures emitted == old(emitted) + Pairs(Ascending(buffer.Keys), buffer)
    {
      flushed := 0;
      var keys := Ascending(buffer.Keys);
      hide Ascending, IsAscending, Pairs;
      ghost var all := Pairs(keys, buffer);
      while flushed < |keys|
        invariant flushed <= |keys| && emitted == old(emitted) + all[..flushed]
      {
        PairsOneMore(keys, buffer, flushed);
        var k := keys[flushed];
        emitted := emitted + [(k, buffer[k])];
        flushed := flushed + 1;
      }
      assert all[..|keys|] == all;
    }

    method OnEvent(e: Event<T>)
      modifies this
      ensures View() == Handle(old(View()), e)
    {
      match e {
        case Skipped(sequence, detail) =>
          skips := skips[sequence := detail];
        case Arrived(sequence, result) =>
          if sequence >= next {
            buffer := buffer[sequence := result];
          }
      }
      var _, _ := DrainReady(false);
    }
  }
}
