/** nodes/stream_server.py: what the byte counter of `FragmentBuffer` does to the frames when repeated
    fragments have pushed it above the bytes held. */
module Overcount {
  import opened Common
  import opened Reassembly

  // ---- Who is evicted ----

  lemma {:induction false} HeldJoin(a: seq<int>, b: seq<int>, states: map<int, Assembly>)
    ensures Held(a + b, states) == Held(a, states) + Held(b, states)
  {
    if a == [] {
      assert a + b == b;
    } else {
      assert (a + b)[1..] == a[1..] + b;
      HeldJoin(a[1..], b, states);
    }
  }

  lemma HeldGrows(keys: seq<int>, m: nat, n: nat, states: map<int, Assembly>)
    requires m <= n <= |keys| && forall k :: k in states ==> GoodAssembly(states[k])
    ensures Held(keys[..m], states) <= Held(keys[..n], states)
  {
    HeldJoin(keys[..m], keys[m..n], states);
    HeldNonNegative(keys[m..n], states);
    assert keys[..m] + keys[m..n] == keys[..n];
  }

  lemma {:induction false} HeldInserted(k: int, keys: seq<int>, ages: map<int, Assembly>, states: map<int, Assembly>)
    ensures Held(Insert(k, keys, ages), states) == ReceivedBy(k, states) + Held(keys, states)
  {
    if !(keys == [] || Touched(k, ages) <= Touched(keys[0], ages)) {
      HeldInserted(k, keys[1..], ages, states);
    }
  }

  /** Sorting changes nothing about the bytes. */
  lemma {:induction false} HeldSorted(order: seq<int>, ages: map<int, Assembly>, states: map<int, Assembly>)
    ensures Held(OldestFirst(order, ages), states) == Held(order, states)
  {
    if order != [] {
      HeldSorted(order[1..], ages, states);
      HeldInserted(order[0], OldestFirst(order[1..], ages), ages, states);
    }
  }

  lemma {:induction false} PositionFinds(keys: seq<int>, k: int)
    requires k in keys
    ensures Position(keys, k) < |keys| && keys[Position(keys, k)] == k && k !in keys[..Position(keys, k)]
  {
    if keys[0] != k {
      assert keys == [keys[0]] + keys[1..];
      PositionFinds(keys[1..], k);
      var p := Position(keys[1..], k);
      assert keys[..p + 1] == [keys[0]] + keys[1..][..p];
    }
  }

  /** The states in front of `k` when they are walked oldest first. */
  ghost function OlderThan(b: Buffer, k: int): (r: seq<int>)
    requires k in b.order
  {
    var keys := OldestFirst(b.order, b.states);
    PositionFinds(keys, k);
    keys[..Position(keys, k)]
  }

  /** In a list sorted by age, what stands in front of position `p` is exactly what is older. */
  lemma FrontIsOlder(keys: seq<int>, order: seq<int>, states: map<int, Assembly>, p: nat, j: int)
    requires SortedByAge(keys, order, states) && p < |keys|
    ensures j in keys[..p] <==> j in keys && Older(order, states, j, keys[p])
  {
    hide Position;
    if j in keys {
      var i :| 0 <= i < |keys| && keys[i] == j;
      if i < p {
        assert Older(order, states, keys[i], keys[p]);
        assert keys[..p][i] == j;
      } else if p < i {
        assert Older(order, states, keys[p], keys[i]);
      }
      if j in keys[..p] {
        var m :| 0 <= m < p && keys[..p][m] == j;
        assert Older(order, states, keys[m], keys[p]);
      }
    } else {
      assert forall m :: 0 <= m < p ==> keys[..p][m] == keys[m];
    }
  }

  /** They are exactly the states touched before `k`, or at the same instant and inserted before it. */
  lemma OlderThanIsOlder(b: Buffer, k: int, j: int)
    requires WF(b) && k in b.order
    ensures j in OlderThan(b, k) <==> j in b.order && Older(b.order, b.states, j, k)
  {
    var keys := OldestFirst(b.order, b.states);
    OldestFirstSorts(b.order, b.states);
    PositionFinds(keys, k);
    var p := Position(keys, k);
    hide OldestFirst, Position, SortedByAge, Older, WF;
    FrontIsOlder(keys, b.order, b.states, p, j);
  }

  /** A state is evicted exactly when the counter without all older states is still above the cap. */
  lemma IsVictimIff(b: Buffer, k: int)
    requires WF(b) && k in b.states
    ensures k in b.order
    ensures k in Victims(b) <==> b.counter - Held(OlderThan(b, k), b.states) > b.maxBytes
  {
    var keys := OldestFirst(b.order, b.states);
    EvictionIsMinimal(b);
    OldestFirstSorts(b.order, b.states);
    PositionFinds(keys, k);
    var p, n := Position(keys, k), |Victims(b)|;
    if p < n {
      assert keys[..n][p] == k;
    } else {
      HeldGrows(keys, n, p, b.states);
      assert forall i :: 0 <= i < n ==> keys[i] != keys[p];
    }
  }

  // ---- The drop list ----

  function Sequences(drops: seq<Drop>): (r: seq<int>)
    ensures |r| == |drops| && forall i :: 0 <= i < |r| ==> r[i] == drops[i].sequence
  {
    seq(|drops|, i requires 0 <= i < |drops| => drops[i].sequence)
  }

  /** The drops of an `add` name each sequence once, exactly when the counter without the states older
      than the current frame is within the cap, that is, when that frame is not evicted itself. An
      evicted current frame is named twice. */
  lemma DropsAreDistinctIff(
    b: Buffer, sequence: int, name: string, total: int, expectedLen: Option<int>,
    index: int, payload: Bytes, now: real)
    requires WF(b)
    ensures var (filled, _) := WithFragment(b, sequence, name, total, expectedLen, index, payload, now);
            var outcome := Add(b, sequence, name, total, expectedLen, index, payload, now).1;
            && sequence in filled.order
            && (outcome.Complete? ==> Sequences(outcome.drops) == Victims(filled) && Distinct(Victims(filled)))
            && (outcome.Incomplete? ==>
                  && Sequences(outcome.drops)
                     == Victims(filled) + (if sequence in Victims(filled) then [sequence] else [])
                  && (Distinct(Sequences(outcome.drops))
                      <==> filled.counter - Held(OlderThan(filled, sequence), filled.states) <= filled.maxBytes))
  {
    var filled := WithFragment(b, sequence, name, total, expectedLen, index, payload, now).0;
    WithFragmentKeepsWF(b, sequence, name, total, expectedLen, index, payload, now);
    AddKeepsWaiting(b, sequence, name, total, expectedLen, index, payload, now);
    hide Add, WithFragment, Evict, Excess, Held, OlderThan, Victims, Dropped, Distinct;
    EvictKeepsWF(filled);
    VictimsAreKeys(filled);
    IsVictimIff(filled, sequence);
    hide WF;
    NamedTwice(Victims(filled), filled.states, sequence);
  }

  lemma NamedTwice(victims: seq<int>, states: map<int, Assembly>, k: int)
    requires Distinct(victims) && k in states
    ensures var drops := Dropped(victims, states, BufferLimit);
            && Sequences(drops) == victims == victims + []
            && Sequences(drops + [Drop(k, states[k], BufferLimit)]) == victims + [k]
            && (Distinct(victims + [k]) <==> k !in victims)
  {
    if k in victims {
      var i :| 0 <= i < |victims| && victims[i] == k;
      assert (victims + [k])[i] == (victims + [k])[|victims|];
    }
  }

  /** It happens: a fragment that alone exceeds the cap is dropped twice. */
  lemma LargeFragmentIsListedTwice(
    b: Buffer, sequence: int, name: string, total: int, expectedLen: Option<int>,
    index: int, payload: Bytes, now: real)
    requires WF(b) && b.order == [] && b.counter + |payload| > b.maxBytes
    ensures var outcome := Add(b, sequence, name, total, expectedLen, index, payload, now).1;
            outcome.Incomplete? && Sequences(outcome.drops) == [sequence, sequence]
  {
    var filled := WithFragment(b, sequence, name, total, expectedLen, index, payload, now).0;
    assert sequence !in b.states;
    assert filled.order == [sequence];
    hide WF, Overcharge, WithFragment, Add, Excess, Held, Evict, Victims, Sequences, Dropped;
    WithFragmentKeepsWF(b, sequence, name, total, expectedLen, index, payload, now);
    LoneStateIsEvicted(filled, sequence);
    EvictKeepsWF(filled);
    assert sequence in [sequence];
    hide Distinct;
    DropsOfEvicted(b, sequence, name, total, expectedLen, index, payload, now);
  }

  /** A current frame that is evicted stands behind the victims. */
  lemma DropsOfEvicted(
    b: Buffer, sequence: int, name: string, total: int, expectedLen: Option<int>,
    index: int, payload: Bytes, now: real)
    requires var filled := WithFragment(b, sequence, name, total, expectedLen, index, payload, now).0;
             Victims(filled) == [sequence] && sequence !in Evict(filled).states
    ensures var outcome := Add(b, sequence, name, total, expectedLen, index, payload, now).1;
            outcome.Incomplete? && Sequences(outcome.drops) == [sequence, sequence]
  {
    AddKeepsWaiting(b, sequence, name, total, expectedLen, index, payload, now);
    var filled := WithFragment(b, sequence, name, total, expectedLen, index, payload, now).0;
    hide Add, WithFragment, Evict, Victims, Sequences, Dropped;
    NamedTwice([sequence], filled.states, sequence);
    assert [sequence] + [sequence] == [sequence, sequence];
  }

  lemma LoneStateIsEvicted(b: Buffer, k: int)
    requires WF(b) && b.order == [k] && b.counter > b.maxBytes
    ensures Victims(b) == [k]
  {
    assert OldestFirst([k], b.states) == [k] by {
      assert OldestFirst([k][1..], b.states) == [];
    }
    assert VictimCount(b, [k]) == 1;
  }

  /** A repeated fragment does make the counter wrong, until the next `clear`. */
  lemma RepeatIsOvercounted(b: Buffer, fragment: Call, now: real)
    requires Exact(b) && fragment.CallAdd? && Duplicate(b, fragment.sequence, fragment.index)
    ensures Excess(Apply(b, fragment)) == |fragment.payload|
    ensures Excess(Apply(Apply(b, fragment), CallGc(now))) == |fragment.payload|
    ensures Exact(Apply(Apply(b, fragment), CallClear))
  {
    hide Apply, Held, Excess;
    ApplyBoundsMemory(b, fragment);
    ApplyBoundsMemory(Apply(b, fragment), CallGc(now));
    ApplyBoundsMemory(Apply(b, fragment), CallClear);
  }

  /** It happens: the second time a fragment comes, twice its bytes are counted and once they are held. */
  lemma RepeatHappens(b: Buffer, fragment: Call)
    requires Exact(b) && fragment.CallAdd? && fragment.sequence !in b.states && fragment.total != 1
    requires b.counter + |fragment.payload| <= b.maxBytes
    ensures Exact(Apply(b, fragment)) && Duplicate(Apply(b, fragment), fragment.sequence, fragment.index)
    ensures Excess(Apply(Apply(b, fragment), fragment)) == |fragment.payload|
  {
    var c := fragment;
    AddWithRoom(b, c.sequence, c.name, c.total, c.expectedLen, c.index, c.payload, c.now);
    hide Add, Excess, WF, Held;
    assert Duplicate(Apply(b, fragment), c.sequence, c.index);
    hide Apply;
    ApplyBoundsMemory(b, fragment);
    RepeatIsOvercounted(Apply(b, fragment), fragment, 0.0);
  }

  // ---- What repeated fragments cost ----

  /** The only chunk of a frame of one fragment completes it at once. */
  lemma OneChunkCompletes(
    b: Buffer, sequence: int, name: string, expectedLen: Option<int>, payload: Bytes, now: real)
    requires sequence !in b.states
    ensures var (filled, complete) := WithFragment(b, sequence, name, 1, expectedLen, 0, payload, now);
            && complete && filled.order == b.order + [sequence]
            && filled.states == b.states[sequence := Assembly(name, 1, expectedLen, map[0 := payload], |payload|, now)]
  {
  }

  lemma OneChunkIsAssembled(payload: Bytes)
    ensures Assemble(map[0 := payload], 1) == Some(payload)
  {
    assert Assemble(map[0 := payload], 0) == Some([]);
    assert [] + payload == payload;
  }

  lemma AddCompletes(
    b: Buffer, sequence: int, name: string, total: int, expectedLen: Option<int>,
    index: int, payload: Bytes, now: real)
    ensures var (filled, complete) := WithFragment(b, sequence, name, total, expectedLen, index, payload, now);
            var state := filled.states[sequence];
            var outcome := Add(b, sequence, name, total, expectedLen, index, payload, now).1;
            complete && sequence in Evict(filled).states && Assemble(state.chunks, state.total).Some? ==>
              outcome.Complete? && outcome.payload == Assemble(state.chunks, state.total).value
  {
    hide Evict, Remove, Assemble, Dropped, Victims;
  }

  /** The room a fresh one-fragment frame needs. */
  lemma FreshFrameIsVictimIff(
    b: Buffer, sequence: int, name: string, expectedLen: Option<int>, payload: Bytes, now: real)
    requires WF(b) && sequence !in b.states
    requires forall k :: k in b.states ==> b.states[k].lastUpdate <= now
    ensures var filled := WithFragment(b, sequence, name, 1, expectedLen, 0, payload, now).0;
            sequence in Victims(filled) <==> Excess(b) + |payload| > b.maxBytes
  {
    var filled := WithFragment(b, sequence, name, 1, expectedLen, 0, payload, now).0;
    OneChunkCompletes(b, sequence, name, expectedLen, payload, now);
    assert Overcharge(b, sequence, 0, payload) == 0;
    hide WithFragment, Victims, OlderThan, Held, Overcharge, WF;
    WithFragmentKeepsWF(b, sequence, name, 1, expectedLen, 0, payload, now);
    IsVictimIff(filled, sequence);
    LatestIsLast(b, filled, sequence, now);
  }

  /** A frame of one fragment that is new and the latest to arrive completes exactly when its bytes fit
      under the cap together with the overcount: every repeated byte is lost to later frames. */
  lemma FreshFrameCompletesIff(
    b: Buffer, sequence: int, name: string, expectedLen: Option<int>, payload: Bytes, now: real)
    requires WF(b) && sequence !in b.states
    requires forall k :: k in b.states ==> b.states[k].lastUpdate <= now
    ensures var outcome := Add(b, sequence, name, 1, expectedLen, 0, payload, now).1;
            && (outcome.Complete? <==> Excess(b) + |payload| <= b.maxBytes)
            && (outcome.Complete? ==> outcome.payload == payload)
  {
    var filled := WithFragment(b, sequence, name, 1, expectedLen, 0, payload, now).0;
    hide WithFragment, Add, Evict, Victims, WF, Excess, Assemble, Dropped;
    OneChunkCompletes(b, sequence, name, expectedLen, payload, now);
    OneChunkIsAssembled(payload);
    FreshFrameIsVictimIff(b, sequence, name, expectedLen, payload, now);
    WithFragmentKeepsWF(b, sequence, name, 1, expectedLen, 0, payload, now);
    EvictKeepsWF(filled);
    AddKeepsWaiting(b, sequence, name, 1, expectedLen, 0, payload, now);
    AddCompletes(b, sequence, name, 1, expectedLen, 0, payload, now);
  }

  lemma LastWhenOthersAreOlder(keys: seq<int>, order: seq<int>, states: map<int, Assembly>, p: nat)
    requires SortedByAge(keys, order, states) && Distinct(keys) && p < |keys|
    requires forall j :: j in keys && j != keys[p] ==> Older(order, states, j, keys[p])
    ensures p == |keys| - 1
  {
    hide Older;
    var last := |keys| - 1;
    if last != p {
      assert keys[last] in keys;
      OlderOneWay(order, states, keys[last], keys[p]);
    }
  }

  lemma OlderOneWay(order: seq<int>, states: map<int, Assembly>, j: int, k: int)
    requires Older(order, states, j, k)
    ensures !Older(order, states, k, j)
  {
    hide Position;
  }

  lemma OthersAreOlder(b: Buffer, filled: Buffer, k: int, now: real)
    requires k !in b.order && filled.order == b.order + [k] && Touched(k, filled.states) == now
    requires forall j :: j in b.order ==> Touched(j, filled.states) <= now
    ensures forall j :: j in filled.order && j != k ==> Older(filled.order, filled.states, j, k)
  {
    hide Touched, Position;
    forall j | j in filled.order && j != k ensures Older(filled.order, filled.states, j, k) {
      PositionInFront(b.order, k, j);
    }
  }

  /** The frame touched last is behind all others. */
  lemma LatestIsLast(b: Buffer, filled: Buffer, k: int, now: real)
    requires WF(b) && k !in b.states && WF(filled) && k in filled.order
    requires filled.order == b.order + [k] && (forall j :: j in b.states ==> StateOf(j, filled.states) == b.states[j])
    requires Touched(k, filled.states) == now && forall j :: j in b.states ==> b.states[j].lastUpdate <= now
    ensures Held(OlderThan(filled, k), filled.states) == Held(filled.order, filled.states) - ReceivedBy(k, filled.states)
  {
    assert k !in b.order && forall j :: j in b.order ==> Touched(j, filled.states) <= now;
    hide OldestFirst, Position, Held, Older, Touched, StateOf, ReceivedBy, SortedByAge;
    OthersAreOlder(b, filled, k, now);
    assert Distinct(filled.order);
    hide WF, Distinct;
    LastOfSorted(filled.order, filled.states, k);
  }

  lemma LastOfSorted(order: seq<int>, states: map<int, Assembly>, k: int)
    requires Distinct(order) && k in order && forall j :: j in order && j != k ==> Older(order, states, j, k)
    ensures var keys := OldestFirst(order, states);
            var p := Position(keys, k);
            p <= |keys| && Held(keys[..p], states) == Held(order, states) - ReceivedBy(k, states)
  {
    var keys := OldestFirst(order, states);
    OldestFirstSorts(order, states);
    PositionFinds(keys, k);
    HeldSorted(order, states, states);
    hide OldestFirst, Position, Held, Older, SortedByAge, Distinct;
    LastWhenOthersAreOlder(keys, order, states, Position(keys, k));
    HeldBeforeLast(keys, states);
  }

  lemma HeldBeforeLast(keys: seq<int>, states: map<int, Assembly>)
    requires keys != []
    ensures var n := |keys| - 1; Held(keys[..n], states) == Held(keys, states) - ReceivedBy(keys[n], states)
  {
    var n := |keys| - 1;
    hide Held, ReceivedBy;
    assert keys == keys[..n] + [keys[n]];
    HeldJoin(keys[..n], [keys[n]], states);
    HeldOne(keys[n], states);
  }

  lemma HeldOne(k: int, states: map<int, Assembly>)
    ensures Held([k], states) == ReceivedBy(k, states)
  {
    assert Held([k][1..], states) == 0;
  }

  lemma {:induction false} PositionInFront(order: seq<int>, k: int, j: int)
    requires j in order && k !in order
    ensures Position(order + [k], j) < Position(order + [k], k)
  {
    assert (order + [k])[1..] == order[1..] + [k];
    if order[0] != j {
      PositionInFront(order[1..], k, j);
    }
  }

  /** Once the overcount exceeds the cap, an `add` evicts everything, the current frame included. */
  lemma NothingSurvives(
    b: Buffer, sequence: int, name: string, total: int, expectedLen: Option<int>,
    index: int, payload: Bytes, now: real)
    requires WF(b) && Excess(b) > b.maxBytes
    ensures var (r, outcome) := Add(b, sequence, name, total, expectedLen, index, payload, now);
            outcome.Incomplete? && r.states == map[]
  {
    var filled := WithFragment(b, sequence, name, total, expectedLen, index, payload, now).0;
    hide WithFragment, Add, Evict, WF, Excess, Victims, Dropped, Overcharge;
    WithFragmentKeepsWF(b, sequence, name, total, expectedLen, index, payload, now);
    AddKeepsWaiting(b, sequence, name, total, expectedLen, index, payload, now);
    EvictKeepsWF(filled);
    EverythingIsEvicted(filled);
    assert forall k :: k in filled.states ==> k in Elements(Victims(filled));
    assert Evict(filled).states == map[];
  }

  lemma EverythingIsEvicted(b: Buffer)
    requires WF(b) && Excess(b) > b.maxBytes
    ensures forall k :: k in b.states ==> k in Victims(b)
  {
    forall k | k in b.states ensures k in Victims(b) {
      IsVictimIff(b, k);
      var keys := OldestFirst(b.order, b.states);
      PositionFinds(keys, k);
      HeldGrows(keys, Position(keys, k), |keys|, b.states);
      HeldSorted(b.order, b.states, b.states);
      assert keys[..|keys|] == keys;
    }
  }

  lemma {:induction false} OverchargedGrows(b: Buffer, calls: seq<Call>, before: int)
    requires forall c :: c in calls ==> !c.CallClear?
    ensures Overcharged(b, calls, before) >= before
    decreases |calls|
  {
    if calls != [] {
      var c := calls[0];
      assert c in calls;
      assert forall x :: x in calls[1..] ==> x in calls;
      assert OverchargedBy(b, c, before) >= before;
      hide Apply, OverchargedBy;
      OverchargedGrows(Apply(b, c), calls[1..], OverchargedBy(b, c, before));
    }
  }

  /** So from then on, until the connection ends and the buffer is cleared, no frame is ever completed
      and the buffer is empty after every `add`. By `FreshFrameCompletesIff` below that point a new
      frame can still complete, so this is the exact condition. */
  lemma WedgedForGood(b: Buffer, calls: seq<Call>, i: nat)
    requires WF(b) && Excess(b) > b.maxBytes && i < |calls| && calls[i].CallAdd?
    requires forall c :: c in calls ==> !c.CallClear?
    ensures var c := calls[i];
            var (r, outcome) := Add(ApplyAll(b, calls[..i]), c.sequence, c.name, c.total, c.expectedLen, c.index, c.payload, c.now);
            outcome.Incomplete? && r.states == map[]
  {
    var c := calls[i];
    var before := ApplyAll(b, calls[..i]);
    assert forall x :: x in calls[..i] ==> x in calls;
    MemoryBound(b, calls[..i]);
    ApplyKeepsCap(b, calls[..i]);
    OverchargedGrows(b, calls[..i], Excess(b));
    NothingSurvives(before, c.sequence, c.name, c.total, c.expectedLen, c.index, c.payload, c.now);
    hide Add;
  }

  lemma {:induction false} ApplyKeepsCap(b: Buffer, calls: seq<Call>)
    requires WF(b)
    ensures ApplyAll(b, calls).maxBytes == b.maxBytes
    decreases |calls|
  {
    if calls != [] {
      ApplyBoundsMemory(b, calls[0]);
      hide Apply;
      ApplyKeepsCap(Apply(b, calls[0]), calls[1..]);
    }
  }
}
