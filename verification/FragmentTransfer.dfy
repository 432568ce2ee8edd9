/** From `iter_fragments` to `FragmentBuffer.add`: what interleaved fragments are turned into. */
module FragmentTransfer {
  import opened Common
  import opened Fragmentation
  import opened Reassembly

  /** Fragment number `index` of frame `sequence` reaching the buffer. */
  datatype Arrival = Arrival(sequence: int, index: nat, name: string, now: real)

  /** The payloads under way, all split with one accepted fragment size. */
  datatype Frames = Frames(payloads: map<int, Bytes>, size: int)

  ghost predicate Sendable(f: Frames) {
    forall s :: s in f.payloads ==> Split(f.payloads[s], s, f.size).Ok?
  }

  ghost function Fragments(f: Frames, s: int): (r: seq<FrameFragment>)
    requires Sendable(f) && s in f.payloads
    ensures r != []
  {
    SplitIsAPartition(f.payloads[s], s, f.size);
    Split(f.payloads[s], s, f.size).value
  }

  ghost predicate Genuine(f: Frames, a: Arrival)
    requires Sendable(f)
  {
    a.sequence in f.payloads && a.index < |Fragments(f, a.sequence)|
  }

  ghost predicate AllGenuine(f: Frames, run: seq<Arrival>)
    requires Sendable(f)
  {
    forall a :: a in run ==> Genuine(f, a)
  }

  ghost function Carried(f: Frames, a: Arrival): FrameFragment
    requires Sendable(f) && Genuine(f, a)
  {
    Fragments(f, a.sequence)[a.index]
  }

  /** All bytes that reach the buffer, duplicates counted every time. */
  ghost function BytesIn(f: Frames, run: seq<Arrival>): nat
    requires Sendable(f) && AllGenuine(f, run)
  {
    if run == [] then 0
    else
      var a := run[|run| - 1];
      assert a in run;
      BytesIn(f, run[..|run| - 1]) + |Carried(f, a).payload|
  }

  /** The fragment indices of frame `s` that have arrived. */
  ghost function Seen(run: seq<Arrival>, s: int): set<int> {
    set i | 0 <= i < |run| && run[i].sequence == s :: run[i].index
  }

  ghost predicate AllSeen(f: Frames, run: seq<Arrival>, s: int)
    requires Sendable(f) && s in f.payloads
  {
    Seen(run, s) == Indices(|Fragments(f, s)|)
  }

  // ---- Room in the buffer ----

  /** The bytes of those of the first `n` fragments that are in `seen`. */
  ghost function SeenBytes(fragments: seq<FrameFragment>, seen: set<int>, n: nat): nat
    requires n <= |fragments|
  {
    if n == 0 then 0
    else SeenBytes(fragments, seen, n - 1) + if n - 1 in seen then |fragments[n - 1].payload| else 0
  }

  /** The frames begun and not finished. */
  ghost function Unfinished(f: Frames, run: seq<Arrival>): (r: set<int>)
    requires Sendable(f)
    ensures r <= f.payloads.Keys
  {
    set s | s in f.payloads.Keys && Seen(run, s) != {} && !AllSeen(f, run, s)
  }

  /** The bytes that have arrived of the frames `frames`, every fragment once. */
  ghost function BytesOf(f: Frames, run: seq<Arrival>, frames: set<int>): nat
    requires Sendable(f) && frames <= f.payloads.Keys
  {
    if frames == {} then 0
    else
      var s := AnyOf(frames);
      SeenBytes(Fragments(f, s), Seen(run, s), |Fragments(f, s)|) + BytesOf(f, run, frames - {s})
  }

  /** The bytes of fragments that had arrived before. */
  ghost function RepeatedBytes(f: Frames, run: seq<Arrival>): nat
    requires Sendable(f) && AllGenuine(f, run)
  {
    if run == [] then 0
    else
      var a := run[|run| - 1];
      assert a in run;
      RepeatedBytes(f, run[..|run| - 1])
      + if a.index in Seen(run[..|run| - 1], a.sequence) then |Carried(f, a).payload| else 0
  }

  /** What the buffer counts after a run: frames that are done no longer weigh anything. */
  ghost function Load(f: Frames, run: seq<Arrival>): nat
    requires Sendable(f) && AllGenuine(f, run)
  {
    BytesOf(f, run, Unfinished(f, run)) + RepeatedBytes(f, run)
  }

  /** There is room for arrival number `t`. */
  ghost predicate RoomAt(f: Frames, run: seq<Arrival>, cap: int, t: nat)
    requires Sendable(f) && AllGenuine(f, run) && t < |run|
  {
    var a := run[t];
    assert a in run && forall x :: x in run[..t] ==> x in run;
    Load(f, run[..t]) + |Carried(f, a).payload| <= cap
  }

  ghost predicate HasRoom(f: Frames, run: seq<Arrival>, cap: int)
    requires Sendable(f) && AllGenuine(f, run)
  {
    forall t :: 0 <= t < |run| ==> RoomAt(f, run, cap, t)
  }

  /** Duplicates come before the last missing fragment of their frame, if at all. */
  ghost predicate NothingAfterCompletion(f: Frames, run: seq<Arrival>)
    requires Sendable(f) && AllGenuine(f, run)
  {
    forall t :: 0 <= t < |run| ==> Timely(f, run, t)
  }

  /** When arrival `t` comes, its frame still misses a fragment. */
  ghost predicate Timely(f: Frames, run: seq<Arrival>, t: nat)
    requires Sendable(f) && AllGenuine(f, run) && t < |run|
  {
    var a := run[t];
    assert a in run;
    !AllSeen(f, run[..t], a.sequence)
  }

  ghost function Receive(f: Frames, b: Buffer, a: Arrival): (Buffer, Outcome)
    requires Sendable(f) && Genuine(f, a) && WF(b)
  {
    var c := Carried(f, a);
    Add(b, c.sequence, a.name, c.total, c.framePayloadLen, c.index, c.payload, a.now)
  }

  ghost function After(f: Frames, b: Buffer, run: seq<Arrival>): (r: Buffer)
    requires Sendable(f) && AllGenuine(f, run) && WF(b)
    ensures WF(r)
  {
    if run == [] then b
    else
      var a := run[|run| - 1];
      assert a in run;
      var before := After(f, b, run[..|run| - 1]);
      var c := Carried(f, a);
      AddBoundsMemory(before, c.sequence, a.name, c.total, c.framePayloadLen, c.index, c.payload, a.now);
      Receive(f, before, a).0
  }

  /** A buffer that holds, for each frame begun and not finished, exactly the fragments seen. */
  ghost predicate Mirrors(f: Frames, b: Buffer, run: seq<Arrival>)
    requires Sendable(f)
  {
    && (forall s :: s in b.states <==> s in f.payloads && Seen(run, s) != {} && !AllSeen(f, run, s))
    && (forall s :: s in b.states ==> Matches(b.states[s], Fragments(f, s), Seen(run, s)))
  }

  ghost predicate Matches(a: Assembly, fragments: seq<FrameFragment>, seen: set<int>) {
    && a.total == |fragments|
    && a.chunks.Keys == seen
    && seen <= Indices(|fragments|)
    && (forall i :: i in a.chunks ==> a.chunks[i] == fragments[i].payload)
  }

  /** A subset of 0..n-1 has n members exactly when it is all of it. */
  lemma FullByCount(s: set<int>, n: nat)
    requires s <= Indices(n)
    ensures |s| == n <==> s == Indices(n)
  {
    var rest := Indices(n) - s;
    assert Indices(n) == s + rest;
    assert rest == {} ==> s == Indices(n);
  }

  lemma {:induction false} AssembledIsJoined(chunks: map<int, Bytes>, fragments: seq<FrameFragment>, n: nat)
    requires n <= |fragments|
    requires forall i :: 0 <= i < n ==> i in chunks && chunks[i] == fragments[i].payload
    ensures Assemble(chunks, n) == Some(Join(fragments[..n]))
  {
    if n > 0 {
      AssembledIsJoined(chunks, fragments, n - 1);
      assert fragments[..n][..n - 1] == fragments[..n - 1];
    }
  }

  lemma SeenGrows(run: seq<Arrival>, a: Arrival, s: int)
    ensures Seen(run + [a], s) == if a.sequence == s then Seen(run, s) + {a.index} else Seen(run, s)
  {
    var longer := run + [a];
    forall i | i in Seen(run, s) ensures i in Seen(longer, s) {
      var k :| 0 <= k < |run| && run[k].sequence == s && run[k].index == i;
      assert longer[k] == run[k];
    }
    forall i | i in Seen(longer, s) ensures i in Seen(run, s) || (a.sequence == s && i == a.index) {
      var k :| 0 <= k < |longer| && longer[k].sequence == s && longer[k].index == i;
      assert k < |run| ==> run[k] == longer[k];
    }
    if a.sequence == s {
      assert longer[|run|] == a;
    }
  }

  lemma SeenIsGenuine(f: Frames, run: seq<Arrival>, s: int)
    requires Sendable(f) && AllGenuine(f, run) && s in f.payloads
    ensures Seen(run, s) <= Indices(|Fragments(f, s)|)
  {
    forall i | i in Seen(run, s) ensures i in Indices(|Fragments(f, s)|) {
      var k :| 0 <= k < |run| && run[k].sequence == s && run[k].index == i;
      var a := run[k];
      assert a in run;
    }
  }

  lemma AddChunkMatches(a: Assembly, fragments: seq<FrameFragment>, seen: set<int>, index: nat, now: real)
    requires Matches(a, fragments, seen) && index < |fragments| && seen != Indices(|fragments|)
    ensures var (r, complete) := AddChunk(a, index, fragments[index].payload, now);
            && Matches(r, fragments, seen + {index})
            && (complete <==> seen + {index} == Indices(|fragments|))
  {
    hide Indices;
    CompleteIffAllSeen(a, |fragments|, seen, index, fragments[index].payload, now);
    if index in a.chunks {
      assert seen + {index} == seen;
    } else {
      StillMatches(a, fragments, seen, index, now);
    }
  }

  lemma StillMatches(a: Assembly, fragments: seq<FrameFragment>, seen: set<int>, index: nat, now: real)
    requires Matches(a, fragments, seen) && index < |fragments| && index !in a.chunks
    ensures Matches(AddChunk(a, index, fragments[index].payload, now).0, fragments, seen + {index})
  {
    var chunks := a.chunks[index := fragments[index].payload];
    assert chunks.Keys == a.chunks.Keys + {index};
  }

  lemma CompleteIffAllSeen(a: Assembly, total: nat, seen: set<int>, index: nat, payload: Bytes, now: real)
    requires a.chunks.Keys == seen && a.total == total && seen <= Indices(total) && seen != Indices(total)
    requires index < total
    ensures AddChunk(a, index, payload, now).1 <==> seen + {index} == Indices(total)
  {
    FullByCount(seen + {index}, total);
    hide Indices;
    var r := AddChunk(a, index, payload, now).0;
    assert r.chunks.Keys == seen + {index};
    assert index in seen ==> seen + {index} == seen;
    assert |r.chunks.Keys| == |r.chunks|;
  }

  lemma CarriedIsLabelled(f: Frames, a: Arrival)
    requires Sendable(f) && Genuine(f, a)
    ensures var c := Carried(f, a);
            c.sequence == a.sequence && c.index == a.index && c.total == |Fragments(f, a.sequence)|
  {
    SplitIsAPartition(f.payloads[a.sequence], a.sequence, f.size);
  }

  lemma WithFragmentStates(b: Buffer, c: FrameFragment, name: string, now: real)
    ensures var s := c.sequence;
            var before :=
              if s in b.states then b.states[s] else Assembly(name, c.total, c.framePayloadLen, map[], 0, now);
            var (filled, complete) := WithFragment(b, s, name, c.total, c.framePayloadLen, c.index, c.payload, now);
            filled.states == b.states[s := AddChunk(before, c.index, c.payload, now).0]
            && complete == AddChunk(before, c.index, c.payload, now).1
  {
  }

  /** The states once the fragment is in and before anything else happens. */
  lemma FilledFrame(b: Buffer, fragments: seq<FrameFragment>, seen: set<int>, a: Arrival)
    requires a.index < |fragments| && seen != Indices(|fragments|)
    requires fragments[a.index].total == |fragments| && fragments[a.index].index == a.index
    requires fragments[a.index].sequence == a.sequence
    requires if a.sequence in b.states then Matches(b.states[a.sequence], fragments, seen) else seen == {}
    ensures var s := a.sequence;
            var c := fragments[a.index];
            var (filled, complete) := WithFragment(b, s, a.name, c.total, c.framePayloadLen, c.index, c.payload, a.now);
            && s in filled.states
            && filled.states == b.states[s := filled.states[s]]
            && Matches(filled.states[s], fragments, seen + {a.index})
            && (complete <==> seen + {a.index} == Indices(|fragments|))
  {
    var s := a.sequence;
    var c := fragments[a.index];
    WithFragmentStates(b, c, a.name, a.now);
    var before := if s in b.states then b.states[s] else Assembly(a.name, c.total, c.framePayloadLen, map[], 0, a.now);
    AddChunkMatches(before, fragments, seen, a.index, a.now);
  }

  lemma CompletedPayload(a: Assembly, fragments: seq<FrameFragment>)
    requires Matches(a, fragments, Indices(|fragments|))
    ensures Assemble(a.chunks, a.total) == Some(Join(fragments))
  {
    hide Indices, Assemble, Join;
    assert forall i :: 0 <= i < |fragments| ==> i in a.chunks.Keys;
    AssembledIsJoined(a.chunks, fragments, |fragments|);
    assert fragments[..|fragments|] == fragments;
  }

  /** What `add` does with a fragment it has room for. */
  lemma AddFragment(b: Buffer, fragments: seq<FrameFragment>, seen: set<int>, a: Arrival)
    requires a.index < |fragments| && seen != Indices(|fragments|)
    requires fragments[a.index].total == |fragments| && fragments[a.index].index == a.index
    requires fragments[a.index].sequence == a.sequence
    requires if a.sequence in b.states then Matches(b.states[a.sequence], fragments, seen) else seen == {}
    requires WF(b) && b.counter + |fragments[a.index].payload| <= b.maxBytes
    ensures var s := a.sequence;
            var c := fragments[a.index];
            var filled := WithFragment(b, s, a.name, c.total, c.framePayloadLen, c.index, c.payload, a.now).0;
            s in filled.states && Add(b, s, a.name, c.total, c.framePayloadLen, c.index, c.payload, a.now) ==
              if seen + {a.index} == Indices(|fragments|) then (Remove(filled, s), Complete(Join(fragments), []))
              else (filled, Incomplete([]))
  {
    var s := a.sequence;
    var c := fragments[a.index];
    FilledFrame(b, fragments, seen, a);
    AddWithRoom(b, s, a.name, c.total, c.framePayloadLen, c.index, c.payload, a.now);
    if seen + {a.index} == Indices(|fragments|) {
      var filled := WithFragment(b, s, a.name, c.total, c.framePayloadLen, c.index, c.payload, a.now).0;
      CompletedPayload(filled.states[s], fragments);
    }
  }

  /** `Mirrors` again after the arrival, whether or not it completed its frame. */
  lemma MirrorsAgain(f: Frames, b: Buffer, run: seq<Arrival>, a: Arrival, filled: Buffer, r: Buffer)
    requires Sendable(f) && AllGenuine(f, run) && Genuine(f, a)
    requires Mirrors(f, b, run)
    requires a.sequence in filled.states
    requires filled.states == b.states[a.sequence := filled.states[a.sequence]]
    requires Matches(filled.states[a.sequence], Fragments(f, a.sequence), Seen(run + [a], a.sequence))
    requires r.states == if AllSeen(f, run + [a], a.sequence) then filled.states - {a.sequence} else filled.states
    ensures Mirrors(f, r, run + [a])
  {
    hide Matches, Fragments, Seen;
    forall k ensures k in r.states <==> k in f.payloads && Seen(run + [a], k) != {} && !AllSeen(f, run + [a], k) {
      SeenGrows(run, a, k);
      assert k == a.sequence ==> a.index in Seen(run, k) + {a.index};
    }
    forall k | k in r.states ensures Matches(r.states[k], Fragments(f, k), Seen(run + [a], k)) {
      SeenGrows(run, a, k);
      assert k != a.sequence ==> k in b.states;
    }
  }

  /** What one arrival does to a buffer that mirrors the run so far and has room for it. */
  lemma ReceiveOutcome(f: Frames, b: Buffer, run: seq<Arrival>, a: Arrival) returns (filled: Buffer)
    requires Sendable(f) && AllGenuine(f, run) && Genuine(f, a)
    requires WF(b) && Mirrors(f, b, run)
    requires !AllSeen(f, run, a.sequence)
    requires b.counter + |Carried(f, a).payload| <= b.maxBytes
    ensures var c := Carried(f, a);
            filled == WithFragment(b, a.sequence, a.name, c.total, c.framePayloadLen, c.index, c.payload, a.now).0
    ensures a.sequence in filled.states
    ensures filled.states == b.states[a.sequence := filled.states[a.sequence]]
    ensures Matches(filled.states[a.sequence], Fragments(f, a.sequence), Seen(run + [a], a.sequence))
    ensures Receive(f, b, a).0 == if AllSeen(f, run + [a], a.sequence) then Remove(filled, a.sequence) else filled
    ensures Receive(f, b, a).1 == ExpectedOutcome(f, run + [a], a.sequence)
  {
    hide WF, Split, Matches, Seen, Indices, AllGenuine, WithFragment, Add, Remove;
    var s := a.sequence;
    var c := Carried(f, a);
    filled := WithFragment(b, s, a.name, c.total, c.framePayloadLen, c.index, c.payload, a.now).0;
    CarriedIsLabelled(f, a);
    SeenIsGenuine(f, run, s);
    SeenGrows(run, a, s);
    SplitIsAPartition(f.payloads[s], s, f.size);
    FilledFrame(b, Fragments(f, s), Seen(run, s), a);
    AddFragment(b, Fragments(f, s), Seen(run, s), a);
  }

  lemma ReceiveMirrors(f: Frames, b: Buffer, run: seq<Arrival>, a: Arrival)
    requires Sendable(f) && AllGenuine(f, run) && Genuine(f, a)
    requires WF(b) && Mirrors(f, b, run)
    requires !AllSeen(f, run, a.sequence)
    requires b.counter + |Carried(f, a).payload| <= b.maxBytes
    ensures var (r, outcome) := Receive(f, b, a);
            && Mirrors(f, r, run + [a])
            && r.counter <= b.counter + |Carried(f, a).payload|
            && outcome == ExpectedOutcome(f, run + [a], a.sequence)
  {
    var s := a.sequence;
    var c := Carried(f, a);
    var filled := WithFragment(b, s, a.name, c.total, c.framePayloadLen, c.index, c.payload, a.now).0;
    assert filled.counter == b.counter + |c.payload|;
    WithFragmentKeepsWF(b, s, a.name, c.total, c.framePayloadLen, c.index, c.payload, a.now);
    assert GoodAssembly(filled.states[s]);
    RemoveKeepsWF(filled, s);
    hide WF, Split, Matches, Seen, Indices, AllGenuine, WithFragment, Receive;
    filled := ReceiveOutcome(f, b, run, a);
    MirrorsAgain(f, b, run, a, filled, Receive(f, b, a).0);
  }

  ghost function ExpectedOutcome(f: Frames, run: seq<Arrival>, s: int): Outcome
    requires Sendable(f) && s in f.payloads
  {
    if AllSeen(f, run, s) then Complete(f.payloads[s], []) else Incomplete([])
  }

  // ---- The counter is the load ----

  lemma {:induction false} BytesOfRemove(f: Frames, run: seq<Arrival>, frames: set<int>, s: int)
    requires Sendable(f) && frames <= f.payloads.Keys && s in frames
    ensures BytesOf(f, run, frames)
         == SeenBytes(Fragments(f, s), Seen(run, s), |Fragments(f, s)|) + BytesOf(f, run, frames - {s})
    decreases |frames|
  {
    hide Fragments, Seen, SeenBytes, Sendable;
    var first := AnyOf(frames);
    if first != s {
      BytesOfRemove(f, run, frames - {first}, s);
      BytesOfRemove(f, run, frames - {s}, first);
      assert frames - {first} - {s} == frames - {s} - {first};
    }
  }

  lemma {:induction false} SeenBytesFrame(fragments: seq<FrameFragment>, seen: set<int>, more: set<int>, n: nat)
    requires n <= |fragments| && forall i :: 0 <= i < n ==> (i in seen <==> i in more)
    ensures SeenBytes(fragments, seen, n) == SeenBytes(fragments, more, n)
  {
    if n > 0 {
      SeenBytesFrame(fragments, seen, more, n - 1);
    }
  }

  lemma {:induction false} ChunkBytesAreSeen(chunks: map<int, Bytes>, fragments: seq<FrameFragment>, n: nat)
    requires n <= |fragments| && (forall i :: i in chunks ==> 0 <= i < n && chunks[i] == fragments[i].payload)
    ensures ChunkBytes(chunks) == SeenBytes(fragments, chunks.Keys, n)
  {
    if n == 0 {
      assert forall i :: i !in chunks;
      assert chunks == map[];
    } else {
      var rest := chunks - {n - 1};
      ChunkBytesAreSeen(rest, fragments, n - 1);
      SeenBytesFrame(fragments, rest.Keys, chunks.Keys, n - 1);
      if n - 1 in chunks {
        ChunkBytesRemove(chunks, n - 1);
      } else {
        assert rest == chunks;
      }
    }
  }

  lemma {:induction false} HeldIsBytesOf(f: Frames, run: seq<Arrival>, keys: seq<int>, states: map<int, Assembly>)
    requires Sendable(f) && Distinct(keys) && forall k :: k in keys ==> k in f.payloads && k in states
    requires forall k :: k in keys ==> Matches(states[k], Fragments(f, k), Seen(run, k)) && GoodAssembly(states[k])
    ensures Elements(keys) <= f.payloads.Keys && Held(keys, states) == BytesOf(f, run, Elements(keys))
  {
    hide Sendable, Seen;
    if keys != [] {
      var k, rest := keys[0], keys[1..];
      assert k in keys && k !in rest && keys == [k] + rest;
      HeldIsBytesOf(f, run, rest, states);
      assert Elements(rest) == Elements(keys) - {k};
      BytesOfRemove(f, run, Elements(keys), k);
      ChunkBytesAreSeen(states[k].chunks, Fragments(f, k), |Fragments(f, k)|);
    }
  }

  lemma OrderIsUnfinished(f: Frames, b: Buffer, run: seq<Arrival>)
    requires Sendable(f) && WF(b) && Mirrors(f, b, run)
    ensures Elements(b.order) == Unfinished(f, run)
  {
    hide Matches, Seen, AllSeen, Sendable, GoodAssembly, Held;
    forall k ensures k in Elements(b.order) <==> k in Unfinished(f, run) {
      assert k in b.order <==> k in b.states;
    }
  }

  /** A buffer that mirrors the run counts exactly the load, if it is above the bytes it holds by the
      repeated ones. */
  lemma CounterIsLoad(f: Frames, b: Buffer, run: seq<Arrival>)
    requires Sendable(f) && AllGenuine(f, run) && WF(b) && Mirrors(f, b, run)
    requires Excess(b) == RepeatedBytes(f, run)
    ensures b.counter == Load(f, run)
  {
    OrderIsUnfinished(f, b, run);
    hide Matches, Seen, AllSeen, Unfinished, Sendable, GoodAssembly, RepeatedBytes, BytesOf, Held;
    HeldIsBytesOf(f, run, b.order, b.states);
  }

  lemma RepeatedStep(f: Frames, b: Buffer, run: seq<Arrival>, a: Arrival)
    requires Sendable(f) && AllGenuine(f, run) && Genuine(f, a) && Mirrors(f, b, run) && !AllSeen(f, run, a.sequence)
    ensures AllGenuine(f, run + [a])
    ensures var c := Carried(f, a);
            RepeatedBytes(f, run + [a]) == RepeatedBytes(f, run) + Overcharge(b, c.sequence, c.index, c.payload)
  {
    assert (run + [a])[..|run|] == run;
    CarriedIsLabelled(f, a);
    hide Seen, Split, Fragments;
    assert a.index in Seen(run, a.sequence) ==> Seen(run, a.sequence) != {};
  }

  lemma PrefixIsGood(f: Frames, run: seq<Arrival>, n: nat)
    requires Sendable(f) && AllGenuine(f, run) && NothingAfterCompletion(f, run) && n <= |run|
    ensures AllGenuine(f, run[..n]) && NothingAfterCompletion(f, run[..n])
    ensures n < |run| ==> Genuine(f, run[n]) && !AllSeen(f, run[..n], run[n].sequence)
  {
    assert forall x :: x in run[..n] ==> x in run;
    forall u | 0 <= u < n ensures Timely(f, run[..n], u) {
      assert Timely(f, run, u) && run[..n][..u] == run[..u];
    }
    if n < |run| {
      assert Timely(f, run, n);
      var a := run[n];
      assert a in run;
    }
  }

  lemma RoomBefore(f: Frames, run: seq<Arrival>, cap: int, n: nat)
    requires Sendable(f) && AllGenuine(f, run) && n <= |run| && forall t :: 0 <= t < n ==> RoomAt(f, run, cap, t)
    ensures AllGenuine(f, run[..n]) && HasRoom(f, run[..n], cap)
  {
    assert forall x :: x in run[..n] ==> x in run;
    forall t | 0 <= t < n ensures RoomAt(f, run[..n], cap, t) {
      assert RoomAt(f, run, cap, t) && run[..n][..t] == run[..t];
    }
  }

  /** Along a run with room at every arrival the buffer holds exactly the fragments seen of the frames
      begun and not finished, and counts exactly the load. */
  lemma {:induction false} RunMirrors(f: Frames, b: Buffer, run: seq<Arrival>)
    requires Sendable(f) && AllGenuine(f, run) && NothingAfterCompletion(f, run)
    requires WF(b) && b.states == map[] && b.counter == 0
    requires HasRoom(f, run, b.maxBytes)
    ensures Mirrors(f, After(f, b, run), run)
    ensures Excess(After(f, b, run)) == RepeatedBytes(f, run)
    ensures After(f, b, run).counter == Load(f, run) <= BytesIn(f, run)
    ensures After(f, b, run).maxBytes == b.maxBytes
  {
    if run == [] {
      assert forall s :: Seen(run, s) == {};
      assert forall k :: k !in b.order;
      CounterIsLoad(f, b, run);
    } else {
      var n := |run| - 1;
      var a := run[n];
      PrefixIsGood(f, run, n);
      RoomBefore(f, run, b.maxBytes, n);
      assert run == run[..n] + [a];
      hide HasRoom, NothingAfterCompletion, Load, WF, Excess, Mirrors, Receive;
      RunMirrors(f, b, run[..n]);
      assert RoomAt(f, run, b.maxBytes, n) by { RoomEverywhere(f, run, b.maxBytes, n); }
      RunStep(f, After(f, b, run[..n]), run[..n], a);
    }
  }

  lemma RoomEverywhere(f: Frames, run: seq<Arrival>, cap: int, t: nat)
    requires Sendable(f) && AllGenuine(f, run) && HasRoom(f, run, cap) && t < |run|
    ensures RoomAt(f, run, cap, t)
  {
  }

  lemma RunStep(f: Frames, b: Buffer, run: seq<Arrival>, a: Arrival)
    requires Sendable(f) && AllGenuine(f, run) && Genuine(f, a) && WF(b) && Mirrors(f, b, run)
    requires !AllSeen(f, run, a.sequence) && Excess(b) == RepeatedBytes(f, run)
    requires b.counter + |Carried(f, a).payload| <= b.maxBytes
    ensures AllGenuine(f, run + [a])
    ensures var r := Receive(f, b, a).0;
            && WF(r) && Mirrors(f, r, run + [a]) && r.maxBytes == b.maxBytes
            && Excess(r) == RepeatedBytes(f, run + [a])
            && r.counter == Load(f, run + [a]) <= b.counter + |Carried(f, a).payload|
  {
    hide WF, Mirrors, Excess, Load, Add;
    var c := Carried(f, a);
    AddBoundsMemory(b, c.sequence, a.name, c.total, c.framePayloadLen, c.index, c.payload, a.now);
    ReceiveMirrors(f, b, run, a);
    RepeatedStep(f, b, run, a);
    CounterIsLoad(f, Receive(f, b, a).0, run + [a]);
  }

  lemma RoomForOneMore(f: Frames, run: seq<Arrival>, a: Arrival, cap: int)
    requires Sendable(f) && AllGenuine(f, run) && Genuine(f, a) && HasRoom(f, run, cap)
    requires Load(f, run) + |Carried(f, a).payload| <= cap
    ensures AllGenuine(f, run + [a]) && HasRoom(f, run + [a], cap)
  {
    hide Load, Carried, Genuine;
    var longer := run + [a];
    forall t | 0 <= t < |longer| ensures RoomAt(f, longer, cap, t) {
      if t < |run| {
        assert RoomAt(f, run, cap, t) && longer[..t] == run[..t];
      } else {
        assert longer[..t] == run;
      }
    }
  }

  lemma BytesInStep(f: Frames, run: seq<Arrival>, a: Arrival)
    requires Sendable(f) && AllGenuine(f, run) && Genuine(f, a)
    ensures AllGenuine(f, run + [a]) && BytesIn(f, run + [a]) == BytesIn(f, run) + |Carried(f, a).payload|
  {
    assert (run + [a])[..|run|] == run;
    hide Carried, Genuine;
  }

  /** A run whose bytes all fit has room at every arrival. */
  lemma {:induction false} SmallRunsHaveRoom(f: Frames, run: seq<Arrival>, cap: int)
    requires Sendable(f) && AllGenuine(f, run) && NothingAfterCompletion(f, run) && BytesIn(f, run) <= cap
    ensures HasRoom(f, run, cap)
  {
    if run != [] {
      var n := |run| - 1;
      hide Sendable, AllGenuine, Genuine, BytesIn, NothingAfterCompletion, HasRoom, Load, Carried, RepeatedBytes, Mirrors;
      PrefixIsGood(f, run, n);
      assert run == run[..n] + [run[n]];
      BytesInStep(f, run[..n], run[n]);
      SmallRunsHaveRoom(f, run[..n], cap);
      var b := NewBuffer(0.0, cap);
      hide WF, Excess;
      RunMirrors(f, b, run[..n]);
      RoomForOneMore(f, run[..n], run[n], cap);
    }
  }

  /** Fragment transfer is the identity. However the fragments of any frames are interleaved and
      reordered, with duplicates before completion: as long as there is room at every arrival before,
      arrival `t` completes its frame exactly when it brings the last missing fragment, with the
      original payload and nothing dropped, if and only if there is room for it too. */
  lemma TransferIsTheIdentity(f: Frames, b: Buffer, run: seq<Arrival>, t: nat)
    requires Sendable(f) && AllGenuine(f, run) && NothingAfterCompletion(f, run)
    requires WF(b) && b.states == map[] && b.counter == 0
    requires t < |run| && forall u :: 0 <= u < t ==> RoomAt(f, run, b.maxBytes, u)
    ensures AllGenuine(f, run[..t]) && Genuine(f, run[t])
    ensures Receive(f, After(f, b, run[..t]), run[t]).1 == ExpectedOutcome(f, run[..t + 1], run[t].sequence)
       <==> RoomAt(f, run, b.maxBytes, t)
  {
    PrefixIsGood(f, run, t);
    RoomBefore(f, run, b.maxBytes, t);
    assert run[..t + 1] == run[..t] + [run[t]];
    RunMirrors(f, b, run[..t]);
    var before := After(f, b, run[..t]);
    hide After, Receive, HasRoom, NothingAfterCompletion, Load, Mirrors, WF;
    if RoomAt(f, run, b.maxBytes, t) {
      ReceiveMirrors(f, before, run[..t], run[t]);
    } else {
      NoRoom(f, before, run[t]);
    }
  }

  /** Without room the arrival evicts something. */
  lemma NoRoom(f: Frames, b: Buffer, a: Arrival)
    requires Sendable(f) && Genuine(f, a) && WF(b) && b.counter + |Carried(f, a).payload| > b.maxBytes
    ensures Receive(f, b, a).1.Missing? || Receive(f, b, a).1.drops != []
  {
    var c := Carried(f, a);
    var filled := WithFragment(b, c.sequence, a.name, c.total, c.framePayloadLen, c.index, c.payload, a.now).0;
    WithFragmentKeepsWF(b, c.sequence, a.name, c.total, c.framePayloadLen, c.index, c.payload, a.now);
    AddKeepsWaiting(b, c.sequence, a.name, c.total, c.framePayloadLen, c.index, c.payload, a.now);
    assert |filled.order| > 0;
    assert |Victims(filled)| > 0;
    hide WithFragment, Add, WF, Victims, Evict;
  }

  lemma {:induction false} BytesInPrefix(f: Frames, run: seq<Arrival>, n: nat)
    requires Sendable(f) && AllGenuine(f, run) && n <= |run|
    ensures AllGenuine(f, run[..n])
    ensures BytesIn(f, run[..n]) <= BytesIn(f, run)
  {
    assert forall x :: x in run[..n] ==> x in run;
    if n < |run| {
      var shorter := run[..|run| - 1];
      assert forall x :: x in shorter ==> x in run;
      BytesInPrefix(f, shorter, n);
      assert shorter[..n] == run[..n];
    } else {
      assert run[..n] == run;
    }
  }

  lemma SeenOfPrefix(run: seq<Arrival>, u: nat, t: nat, s: int)
    requires u <= t <= |run|
    ensures Seen(run[..u], s) <= Seen(run[..t], s)
    ensures (forall k :: u <= k < t ==> run[k].sequence != s) ==> Seen(run[..u], s) == Seen(run[..t], s)
  {
    forall i | i in Seen(run[..u], s) ensures i in Seen(run[..t], s) {
      var j :| 0 <= j < u && run[..u][j].sequence == s && run[..u][j].index == i;
      assert run[..t][j] == run[j];
    }
    if forall k :: u <= k < t ==> run[k].sequence != s {
      forall i | i in Seen(run[..t], s) ensures i in Seen(run[..u], s) {
        var j :| 0 <= j < t && run[..t][j].sequence == s && run[..t][j].index == i;
        assert run[..t][j] == run[j] && j < u;
        assert run[..u][j] == run[j];
      }
    }
  }

  /** A frame all of whose fragments have arrived was completed by exactly one of the arrivals. */
  lemma CompletesExactlyOnce(f: Frames, run: seq<Arrival>, s: int) returns (t: nat)
    requires Sendable(f) && AllGenuine(f, run) && NothingAfterCompletion(f, run)
    requires s in f.payloads && AllSeen(f, run, s)
    ensures t < |run| && run[t].sequence == s && AllSeen(f, run[..t + 1], s)
    ensures forall u :: 0 <= u < |run| && run[u].sequence == s && AllSeen(f, run[..u + 1], s) ==> u == t
  {
    hide Fragments, Split, Seen;
    t := LastArrival(f, run, s);
    SeenOfPrefix(run, t + 1, |run|, s);
    assert run[..|run|] == run;
    PrefixIsGood(f, run, t);
    SeenIsGenuine(f, run[..t], s);
    forall u | 0 <= u < t && run[u].sequence == s ensures !AllSeen(f, run[..u + 1], s) {
      SeenOfPrefix(run, u + 1, t, s);
    }
  }

  lemma LastArrival(f: Frames, run: seq<Arrival>, s: int) returns (t: nat)
    requires Sendable(f) && s in f.payloads && AllSeen(f, run, s)
    ensures t < |run| && run[t].sequence == s
    ensures forall u :: t < u < |run| ==> run[u].sequence != s
  {
    assert 0 in Indices(|Fragments(f, s)|);
    var k :| 0 <= k < |run| && run[k].sequence == s && run[k].index == 0;
    t := LastFor(run, s, k);
  }

  lemma {:induction false} LastFor(run: seq<Arrival>, s: int, k: nat) returns (t: nat)
    requires k < |run| && run[k].sequence == s
    ensures k <= t < |run| && run[t].sequence == s
    ensures forall u :: t < u < |run| ==> run[u].sequence != s
    decreases |run| - k
  {
    if u :| k < u < |run| && run[u].sequence == s {
      t := LastFor(run, s, u);
    } else {
      t := k;
    }
  }
}
