/** nodes/stream_server.py: fragment reassembly under a byte cap, described on values. */
module Reassembly {
  import opened Common
  import opened Fragmentation

  datatype Assembly = Assembly(
    name: string, total: int, expectedLen: Option<int>,
    chunks: map<int, Bytes>, received: int, lastUpdate: real)

  datatype DropReason = BufferLimit | Ttl | Shutdown

  datatype Drop = Drop(sequence: int, state: Assembly, reason: DropReason)

  /** What `FragmentBuffer.add` does for its caller. `Missing` is the KeyError that `assemble` raises
      when the number of chunks is right but their indices are not 0..total-1. */
  datatype Outcome =
    | Incomplete(drops: seq<Drop>)
    | Complete(payload: Bytes, drops: seq<Drop>)
    | Missing

  /** `order` is the insertion order of the Python dict `states`. */
  datatype Buffer = Buffer(
    ttl: real, maxBytes: int, order: seq<int>, states: map<int, Assembly>, counter: int)

  // ---- One assembly ----

  function AddChunk(a: Assembly, index: int, payload: Bytes, now: real): (Assembly, bool) {
    if index in a.chunks then (a, false)
    else
      var chunks := a.chunks[index := payload];
      (a.(chunks := chunks, received := a.received + |payload|, lastUpdate := now), |chunks| == a.total)
  }

  /** The chunks 0..n-1 joined, if all of them are there. */
  function Assemble(chunks: map<int, Bytes>, n: int): Option<Bytes>
    decreases n
  {
    if n <= 0 then Some([])
    else if n - 1 !in chunks then None
    else
      match Assemble(chunks, n - 1)
      case None => None
      case Some(prefix) => Some(prefix + chunks[n - 1])
  }

  ghost function ChunkBytes(chunks: map<int, Bytes>): nat
    decreases |chunks|
  {
    if chunks == map[] then 0
    else
      var k := AnyOf(chunks.Keys);
      |chunks[k]| + ChunkBytes(chunks - {k})
  }

  lemma {:induction false} ChunkBytesRemove(chunks: map<int, Bytes>, k: int)
    requires k in chunks
    ensures ChunkBytes(chunks) == |chunks[k]| + ChunkBytes(chunks - {k})
    decreases |chunks|
  {
    var f := AnyOf(chunks.Keys);
    if f != k {
      ChunkBytesRemove(chunks - {f}, k);
      ChunkBytesRemove(chunks - {k}, f);
      assert chunks - {f} - {k} == chunks - {k} - {f};
    }
  }

  lemma ChunkBytesAdd(chunks: map<int, Bytes>, k: int, payload: Bytes)
    requires k !in chunks
    ensures ChunkBytes(chunks[k := payload]) == ChunkBytes(chunks) + |payload|
  {
    ChunkBytesRemove(chunks[k := payload], k);
    assert chunks[k := payload] - {k} == chunks;
  }

  // ---- Bytes held ----

  /** The state under `k`; a blank one where there is none, so that sums and lists are total. */
  function StateOf(k: int, states: map<int, Assembly>): Assembly {
    if k in states then states[k] else Assembly("", 0, None, map[], 0, 0.0)
  }

  function ReceivedBy(k: int, states: map<int, Assembly>): int {
    StateOf(k, states).received
  }

  function Held(keys: seq<int>, states: map<int, Assembly>): int {
    if keys == [] then 0 else ReceivedBy(keys[0], states) + Held(keys[1..], states)
  }

  ghost predicate GoodAssembly(a: Assembly) {
    a.received == ChunkBytes(a.chunks)
  }

  /** The dict and its order agree, every `received` is the size of its chunks, and the counter is
      at least what the buffer holds. */
  ghost predicate WF(b: Buffer) {
    && Distinct(b.order)
    && (forall k :: k in b.order <==> k in b.states)
    && (forall k :: k in b.states ==> GoodAssembly(b.states[k]))
    && Held(b.order, b.states) <= b.counter
  }

  /** How far the counter is above the bytes held. */
  function Excess(b: Buffer): int {
    b.counter - Held(b.order, b.states)
  }

  /** The counter is exactly what the buffer holds. */
  ghost predicate Exact(b: Buffer) {
    WF(b) && Excess(b) == 0
  }

  lemma {:induction false} HeldFrame(keys: seq<int>, s: map<int, Assembly>, t: map<int, Assembly>)
    requires forall k :: k in keys ==> ReceivedBy(k, s) == ReceivedBy(k, t)
    ensures Held(keys, s) == Held(keys, t)
  {
    if keys != [] {
      var k := keys[0];
      assert k in keys;
      HeldFrame(keys[1..], s, t);
    }
  }

  lemma {:induction false} HeldNonNegative(keys: seq<int>, states: map<int, Assembly>)
    requires forall k :: k in states ==> GoodAssembly(states[k])
    ensures Held(keys, states) >= 0
  {
    if keys != [] {
      var k := keys[0];
      assert k in states ==> GoodAssembly(states[k]);
      HeldNonNegative(keys[1..], states);
    }
  }

  lemma {:induction false} HeldWithout(keys: seq<int>, states: map<int, Assembly>, k: int)
    requires Distinct(keys) && k in keys
    ensures Held(keys, states) == ReceivedBy(k, states) + Held(Without(keys, k), states)
  {
    var first := keys[0];
    var rest := keys[1..];
    if first == k {
      assert k !in rest;
      assert Without(keys, k) == rest;
    } else {
      HeldWithout(rest, states, k);
      assert Without(keys, k) == [first] + Without(rest, k);
    }
  }

  lemma {:induction false} HeldAppend(keys: seq<int>, states: map<int, Assembly>, k: int)
    ensures Held(keys + [k], states) == Held(keys, states) + ReceivedBy(k, states)
  {
    if keys == [] {
      assert keys + [k] == [k];
    } else {
      assert (keys + [k])[1..] == keys[1..] + [k];
      HeldAppend(keys[1..], states, k);
    }
  }

  // ---- Removing states ----

  function Remove(b: Buffer, k: int): Buffer {
    b.(order := Without(b.order, k), states := b.states - {k},
       counter := Max(0, b.counter - ReceivedBy(k, b.states)))
  }

  /** Removing a state never needs the clip at zero, and counts down exactly what it held. */
  lemma RemoveKeepsWF(b: Buffer, k: int)
    requires WF(b) && k in b.states
    ensures WF(Remove(b, k))
    ensures Remove(b, k).counter == b.counter - b.states[k].received
    ensures Excess(Remove(b, k)) == Excess(b)
    ensures Held(Remove(b, k).order, Remove(b, k).states)
         == Held(b.order, b.states) - b.states[k].received
  {
    WithoutIsDistinct(b.order, k);
    HeldWithout(b.order, b.states, k);
    var r := Remove(b, k);
    forall j | j in r.states ensures GoodAssembly(r.states[j]) {
      assert j in b.states;
    }
    HeldFrame(r.order, b.states, r.states);
    assert GoodAssembly(b.states[k]);
    HeldNonNegative(r.order, r.states);
  }

  function RemoveAll(b: Buffer, keys: seq<int>): Buffer
    decreases |keys|
  {
    if keys == [] then b else RemoveAll(Remove(b, keys[0]), keys[1..])
  }

  /** Distinct keys, each with a state. */
  ghost predicate KeysOf(keys: seq<int>, states: map<int, Assembly>) {
    Distinct(keys) && forall k :: k in keys ==> k in states
  }

  lemma KeysOfTail(keys: seq<int>, states: map<int, Assembly>)
    requires KeysOf(keys, states) && keys != []
    ensures keys[0] in states
    ensures KeysOf(keys[1..], states - {keys[0]})
    ensures forall j :: j in keys[1..] ==> StateOf(j, states - {keys[0]}) == StateOf(j, states)
  {
    var k := keys[0];
    assert k in keys && k !in keys[1..];
  }

  lemma {:induction false} RemoveAllKeepsWF(b: Buffer, keys: seq<int>)
    requires WF(b) && KeysOf(keys, b.states)
    ensures var r := RemoveAll(b, keys);
            && WF(r) && Excess(r) == Excess(b)
            && r.counter == b.counter - Held(keys, b.states)
            && r.maxBytes == b.maxBytes && r.ttl == b.ttl
    decreases |keys|
  {
    if keys != [] {
      var k := keys[0];
      var c := Remove(b, k);
      KeysOfTail(keys, b.states);
      RemoveKeepsWF(b, k);
      hide WF, Excess, Remove;
      RemoveAllKeepsWF(c, keys[1..]);
      HeldFrame(keys[1..], b.states, c.states);
    }
  }

  lemma {:induction false} RemoveAllStates(b: Buffer, keys: seq<int>)
    ensures RemoveAll(b, keys).states == b.states - Elements(keys)
    decreases |keys|
  {
    if keys == [] {
      assert b.states - Elements(keys) == b.states;
    } else {
      RemoveAllStates(Remove(b, keys[0]), keys[1..]);
      assert keys == [keys[0]] + keys[1..];
      assert Elements(keys) == {keys[0]} + Elements(keys[1..]);
    }
  }

  // ---- Oldest first ----

  function Touched(k: int, states: map<int, Assembly>): real {
    StateOf(k, states).lastUpdate
  }

  /** Puts `k` before the first key that is not older: `sorted` is stable. */
  function Insert(k: int, keys: seq<int>, states: map<int, Assembly>): (r: seq<int>)
    ensures |r| == |keys| + 1
    ensures forall j :: j in r <==> j == k || j in keys
  {
    if keys == [] || Touched(k, states) <= Touched(keys[0], states) then [k] + keys
    else [keys[0]] + Insert(k, keys[1..], states)
  }

  function OldestFirst(order: seq<int>, states: map<int, Assembly>): (r: seq<int>)
    ensures |r| == |order|
    ensures forall j :: j in r <==> j in order
  {
    if order == [] then [] else Insert(order[0], OldestFirst(order[1..], states), states)
  }

  /** The index of the first occurrence of `k`, the length if there is none. */
  function Position(order: seq<int>, k: int): nat {
    if order == [] || order[0] == k then 0 else 1 + Position(order[1..], k)
  }

  /** `j` was touched before `k`, or at the same instant but inserted before it. */
  predicate Older(order: seq<int>, states: map<int, Assembly>, j: int, k: int) {
    Touched(j, states) < Touched(k, states)
    || (Touched(j, states) == Touched(k, states) && Position(order, j) < Position(order, k))
  }

  ghost predicate SortedByAge(keys: seq<int>, order: seq<int>, states: map<int, Assembly>) {
    forall i, j :: 0 <= i < j < |keys| ==> Older(order, states, keys[i], keys[j])
  }

  lemma {:induction false} InsertSorts(k: int, keys: seq<int>, order: seq<int>, states: map<int, Assembly>)
    requires SortedByAge(keys, order, states)
    requires forall i :: 0 <= i < |keys| ==> Position(order, k) < Position(order, keys[i])
    ensures SortedByAge(Insert(k, keys, states), order, states)
  {
    hide Position;
    if keys == [] || Touched(k, states) <= Touched(keys[0], states) {
      var r := [k] + keys;
      forall i, j | 0 <= i < j < |r| ensures Older(order, states, r[i], r[j]) {
        assert i > 0 ==> Older(order, states, keys[i - 1], keys[j - 1]);
        assert j > 1 ==> Older(order, states, keys[0], keys[j - 1]);
      }
    } else {
      var tail := keys[1..];
      forall i, j | 0 <= i < j < |tail| ensures Older(order, states, tail[i], tail[j]) {
        assert Older(order, states, keys[i + 1], keys[j + 1]);
      }
      InsertSorts(k, tail, order, states);
      var t := Insert(k, tail, states);
      var r := [keys[0]] + t;
      forall i, j | 0 <= i < j < |r| ensures Older(order, states, r[i], r[j]) {
        if i > 0 {
          assert Older(order, states, t[i - 1], t[j - 1]);
        } else if t[j - 1] != k {
          assert t[j - 1] in t;
          var m :| 0 <= m < |tail| && tail[m] == t[j - 1];
          assert Older(order, states, keys[0], keys[m + 1]);
        }
      }
    }
  }

  /** The list `_evict_for_memory` walks is every key once, strictly by (last_update, insertion). */
  lemma {:induction false} OldestFirstSorts(order: seq<int>, states: map<int, Assembly>)
    requires Distinct(order)
    ensures SortedByAge(OldestFirst(order, states), order, states)
    ensures Distinct(OldestFirst(order, states))
  {
    if order != [] {
      var rest := order[1..];
      OldestFirstSorts(rest, states);
      var keys := OldestFirst(rest, states);
      var first := order[0];
      forall i | 0 <= i < |keys| ensures Position(order, keys[i]) == 1 + Position(rest, keys[i]) {
        var k := keys[i];
        assert k in keys && k in rest && first !in rest;
      }
      forall i, j | 0 <= i < j < |keys| ensures Older(order, states, keys[i], keys[j]) {
        assert Older(rest, states, keys[i], keys[j]);
      }
      InsertSorts(first, keys, order, states);
      var r := OldestFirst(order, states);
      forall i, j | 0 <= i < j < |r| ensures r[i] != r[j] {
        assert Older(order, states, r[i], r[j]);
      }
    }
  }

  // ---- Eviction ----

  /** How many keys, taken in turn, are removed while the counter is above the cap. */
  function VictimCount(b: Buffer, keys: seq<int>): (n: nat)
    ensures n <= |keys|
    decreases |keys|
  {
    if keys == [] || b.counter <= b.maxBytes then 0
    else 1 + VictimCount(Remove(b, keys[0]), keys[1..])
  }

  function Victims(b: Buffer): seq<int> {
    var keys := OldestFirst(b.order, b.states);
    keys[..VictimCount(b, keys)]
  }

  function Evict(b: Buffer): Buffer {
    RemoveAll(b, Victims(b))
  }

  function Dropped(keys: seq<int>, states: map<int, Assembly>, reason: DropReason): seq<Drop> {
    seq(|keys|, i requires 0 <= i < |keys| => Drop(keys[i], StateOf(keys[i], states), reason))
  }

  lemma DroppedOneMore(keys: seq<int>, n: nat, states: map<int, Assembly>, reason: DropReason)
    requires n < |keys|
    ensures Dropped(keys[..n + 1], states, reason)
         == Dropped(keys[..n], states, reason) + [Drop(keys[n], StateOf(keys[n], states), reason)]
  {
  }

  lemma HeldOfPrefix(keys: seq<int>, states: map<int, Assembly>, m: nat)
    requires KeysOf(keys, states) && 0 < m <= |keys|
    ensures Held(keys[..m], states)
         == ReceivedBy(keys[0], states) + Held(keys[1..][..m - 1], states - {keys[0]})
  {
    KeysOfTail(keys, states);
    assert keys[..m][1..] == keys[1..][..m - 1];
    HeldFrame(keys[1..][..m - 1], states, states - {keys[0]});
  }

  /** What removing the first key does to the counter without the first `m` keys. */
  lemma CounterOfPrefix(b: Buffer, keys: seq<int>, m: nat)
    requires WF(b) && KeysOf(keys, b.states) && 0 < m <= |keys|
    ensures var c := Remove(b, keys[0]);
            c.counter - Held(keys[1..][..m - 1], c.states) == b.counter - Held(keys[..m], b.states)
  {
    RemoveKeepsWF(b, keys[0]);
    HeldOfPrefix(keys, b.states, m);
    hide WF, Held, Excess;
  }

  lemma FirstKeyRemoved(b: Buffer, keys: seq<int>)
    requires WF(b) && KeysOf(keys, b.states) && keys != []
    ensures WF(Remove(b, keys[0])) && KeysOf(keys[1..], Remove(b, keys[0]).states)
    ensures Remove(b, keys[0]).maxBytes == b.maxBytes
  {
    KeysOfTail(keys, b.states);
    RemoveKeepsWF(b, keys[0]);
    hide WF, KeysOf;
  }

  lemma {:induction false} VictimCountIsMinimal(b: Buffer, keys: seq<int>)
    requires WF(b) && KeysOf(keys, b.states)
    ensures var n := VictimCount(b, keys);
            && (forall m :: 0 <= m < n ==> b.counter - Held(keys[..m], b.states) > b.maxBytes)
            && (b.counter - Held(keys[..n], b.states) <= b.maxBytes || n == |keys|)
    decreases |keys|
  {
    assert Held(keys[..0], b.states) == 0;
    hide WF, Remove, KeysOf, Held;
    if keys != [] && b.counter > b.maxBytes {
      var c := Remove(b, keys[0]);
      var n := VictimCount(c, keys[1..]);
      FirstKeyRemoved(b, keys);
      VictimCountIsMinimal(c, keys[1..]);
      CounterOfPrefix(b, keys, n + 1);
      forall m | 0 < m < n + 1 ensures b.counter - Held(keys[..m], b.states) > b.maxBytes {
        CounterOfPrefix(b, keys, m);
        assert c.counter - Held(keys[1..][..m - 1], c.states) > c.maxBytes;
      }
    }
  }

  function EvictAlong(b: Buffer, keys: seq<int>): Buffer {
    RemoveAll(b, keys[..VictimCount(b, keys)])
  }

  lemma EvictAlongStep(b: Buffer, keys: seq<int>)
    ensures keys == [] || b.counter <= b.maxBytes ==> VictimCount(b, keys) == 0 && EvictAlong(b, keys) == b
    ensures keys != [] && b.counter > b.maxBytes ==>
              && VictimCount(b, keys) == 1 + VictimCount(Remove(b, keys[0]), keys[1..])
              && EvictAlong(b, keys) == EvictAlong(Remove(b, keys[0]), keys[1..])
  {
    hide Remove;
    if keys != [] && b.counter > b.maxBytes {
      var n := VictimCount(b, keys);
      assert keys[..n][1..] == keys[1..][..n - 1];
    }
  }

  /** `here` is what is left of `start` after its first `n` victims. */
  ghost predicate Evicting(start: Buffer, here: Buffer, keys: seq<int>, n: nat) {
    && n <= |keys|
    && KeysOf(keys[n..], here.states)
    && (forall i :: n <= i < |keys| ==> StateOf(keys[i], here.states) == StateOf(keys[i], start.states))
    && n + VictimCount(here, keys[n..]) == VictimCount(start, keys)
    && EvictAlong(here, keys[n..]) == EvictAlong(start, keys)
  }

  lemma EvictingStart(b: Buffer, keys: seq<int>)
    requires WF(b) && keys == OldestFirst(b.order, b.states)
    ensures Evicting(b, b, keys, 0)
    ensures keys[..VictimCount(b, keys)] == Victims(b) && EvictAlong(b, keys) == Evict(b)
  {
    OldestFirstSorts(b.order, b.states);
    assert keys[0..] == keys;
  }

  lemma EvictingStep(start: Buffer, here: Buffer, keys: seq<int>, n: nat)
    requires Evicting(start, here, keys, n) && n < |keys| && here.counter > here.maxBytes
    ensures keys[n] in here.states && here.states[keys[n]] == StateOf(keys[n], start.states)
    ensures Evicting(start, Remove(here, keys[n]), keys, n + 1)
  {
    var k := keys[n];
    var rest := keys[n..];
    assert rest[0] == k && rest[1..] == keys[n + 1..];
    KeysOfTail(rest, here.states);
    EvictAlongStep(here, rest);
    forall i | n < i < |keys| ensures StateOf(keys[i], here.states - {k}) == StateOf(keys[i], start.states) {
      assert keys[i] == rest[1..][i - n - 1];
      assert rest[1..][i - n - 1] in rest[1..];
    }
  }

  lemma EvictingDone(start: Buffer, here: Buffer, keys: seq<int>, n: nat)
    requires Evicting(start, here, keys, n) && (n == |keys| || here.counter <= here.maxBytes)
    ensures n == VictimCount(start, keys) && here == EvictAlong(start, keys)
  {
    EvictAlongStep(here, keys[n..]);
  }

  lemma VictimsAreKeys(b: Buffer)
    requires WF(b)
    ensures KeysOf(OldestFirst(b.order, b.states), b.states)
    ensures KeysOf(Victims(b), b.states)
  {
    OldestFirstSorts(b.order, b.states);
    var keys := OldestFirst(b.order, b.states);
    assert forall k :: k in Victims(b) ==> k in keys;
  }

  /** The victims are the shortest prefix of the oldest-first list that brings the counter under
      the cap, or the whole list when none does. */
  lemma EvictionIsMinimal(b: Buffer)
    requires WF(b)
    ensures var keys := OldestFirst(b.order, b.states);
            var n := |Victims(b)|;
            && n <= |keys| && Victims(b) == keys[..n]
            && (forall m :: 0 <= m < n ==> b.counter - Held(keys[..m], b.states) > b.maxBytes)
            && (b.counter - Held(keys[..n], b.states) <= b.maxBytes || n == |keys|)
  {
    hide WF;
    VictimsAreKeys(b);
    VictimCountIsMinimal(b, OldestFirst(b.order, b.states));
  }

  lemma EvictKeepsWF(b: Buffer)
    requires WF(b)
    ensures WF(Evict(b)) && Excess(Evict(b)) == Excess(b)
    ensures Evict(b).states == b.states - Elements(Victims(b))
    ensures Evict(b).maxBytes == b.maxBytes && Evict(b).ttl == b.ttl
    ensures Evict(b).counter <= b.counter
    ensures b.counter <= b.maxBytes ==> Evict(b) == b && Victims(b) == []
  {
    VictimsAreKeys(b);
    RemoveAllKeepsWF(b, Victims(b));
    RemoveAllStates(b, Victims(b));
    HeldNonNegative(Victims(b), b.states);
    hide Excess;
  }

  /** After an eviction the bytes held are within a cap that is not negative. */
  lemma EvictionRespectsCap(b: Buffer)
    requires WF(b) && b.maxBytes >= 0
    ensures WF(Evict(b)) && Held(Evict(b).order, Evict(b).states) <= b.maxBytes
  {
    EvictKeepsWF(b);
    VictimsAreKeys(b);
    RemoveAllKeepsWF(b, Victims(b));
    RemoveAllStates(b, Victims(b));
    EvictionIsMinimal(b);
    var r := Evict(b);
    if r.counter > b.maxBytes {
      assert Victims(b) == OldestFirst(b.order, b.states);
      assert forall k :: k in b.states ==> k in Victims(b);
      assert forall k :: k !in r.order;
    }
  }

  // ---- add, gc, clear ----

  /** `b` with a state for `sequence`, an empty one if there was none. */
  function WithState(b: Buffer, sequence: int, name: string, total: int, expectedLen: Option<int>, now: real): Buffer {
    if sequence in b.states then b
    else b.(order := b.order + [sequence],
            states := b.states[sequence := Assembly(name, total, expectedLen, map[], 0, now)])
  }

  /** `b` after one more fragment of a frame it has a state for; every fragment is charged for. */
  function Charged(b: Buffer, sequence: int, index: int, payload: Bytes, now: real): (Buffer, bool)
    requires sequence in b.states
  {
    var (state, complete) := AddChunk(b.states[sequence], index, payload, now);
    (b.(states := b.states[sequence := state], counter := b.counter + |payload|), complete)
  }

  function WithFragment(
    b: Buffer, sequence: int, name: string, total: int, expectedLen: Option<int>,
    index: int, payload: Bytes, now: real): (r: (Buffer, bool))
    ensures sequence in r.0.states
  {
    Charged(WithState(b, sequence, name, total, expectedLen, now), sequence, index, payload, now)
  }

  ghost predicate Duplicate(b: Buffer, sequence: int, index: int) {
    sequence in b.states && index in b.states[sequence].chunks
  }

  /** What a fragment is charged for without being kept. */
  ghost function Overcharge(b: Buffer, sequence: int, index: int, payload: Bytes): nat {
    if Duplicate(b, sequence, index) then |payload| else 0
  }

  lemma WithStateKeepsWF(b: Buffer, sequence: int, name: string, total: int, expectedLen: Option<int>, now: real)
    requires WF(b)
    ensures var r := WithState(b, sequence, name, total, expectedLen, now);
            && WF(r) && sequence in r.states
            && r.counter == b.counter
            && Held(r.order, r.states) == Held(b.order, b.states)
  {
    var r := WithState(b, sequence, name, total, expectedLen, now);
    if sequence !in b.states {
      HeldFrame(b.order, b.states, r.states);
      HeldAppend(b.order, r.states, sequence);
      forall k | k in r.states ensures GoodAssembly(r.states[k]) {
        assert k != sequence ==> k in b.states;
      }
    }
  }

  /** A duplicate is charged for though nothing more is held. */
  lemma ChargedKeepsWF(b: Buffer, sequence: int, index: int, payload: Bytes, now: real)
    requires WF(b) && sequence in b.states
    ensures var r := Charged(b, sequence, index, payload, now).0;
            && WF(r) && sequence in r.states
            && Excess(r) == Excess(b) + Overcharge(b, sequence, index, payload)
            && Held(r.order, r.states) == Held(b.order, b.states) + |payload| - Overcharge(b, sequence, index, payload)
  {
    var r := Charged(b, sequence, index, payload, now).0;
    var before := b.states[sequence];
    if index !in before.chunks {
      ChunkBytesAdd(before.chunks, index, payload);
    }
    forall k | k in r.states ensures GoodAssembly(r.states[k]) {
      assert k in b.states && GoodAssembly(b.states[k]);
    }
    HeldWithout(b.order, b.states, sequence);
    HeldWithout(b.order, r.states, sequence);
    HeldFrame(Without(b.order, sequence), b.states, r.states);
  }

  lemma WithFragmentKeepsWF(
    b: Buffer, sequence: int, name: string, total: int, expectedLen: Option<int>,
    index: int, payload: Bytes, now: real)
    requires WF(b)
    ensures var r := WithFragment(b, sequence, name, total, expectedLen, index, payload, now).0;
            && WF(r) && sequence in r.states
            && Excess(r) == Excess(b) + Overcharge(b, sequence, index, payload)
            && r.maxBytes == b.maxBytes && r.ttl == b.ttl
            && r.counter == b.counter + |payload|
  {
    WithStateKeepsWF(b, sequence, name, total, expectedLen, now);
    ChargedKeepsWF(WithState(b, sequence, name, total, expectedLen, now), sequence, index, payload, now);
  }

  function Add(
    b: Buffer, sequence: int, name: string, total: int, expectedLen: Option<int>,
    index: int, payload: Bytes, now: real): (Buffer, Outcome)
  {
    var (filled, complete) := WithFragment(b, sequence, name, total, expectedLen, index, payload, now);
    var state := filled.states[sequence];
    var kept := Evict(filled);
    var drops := Dropped(Victims(filled), filled.states, BufferLimit);
    if complete && sequence in kept.states then
      match Assemble(state.chunks, state.total)
      case None => (kept, Missing)
      case Some(whole) => (Remove(kept, sequence), Complete(whole, drops))
    else if sequence !in kept.states then
      (kept, Incomplete(drops + [Drop(sequence, state, BufferLimit)]))
    else
      (kept, Incomplete(drops))
  }

  /** Every `add`: the counter stays at least the bytes held and moves away from them by the bytes of a
      duplicate, by nothing otherwise; with a cap that is not negative at most `maxBytes` are held
      afterwards, duplicates included. */
  lemma AddBoundsMemory(
    b: Buffer, sequence: int, name: string, total: int, expectedLen: Option<int>,
    index: int, payload: Bytes, now: real)
    requires WF(b)
    ensures var (r, _) := Add(b, sequence, name, total, expectedLen, index, payload, now);
            && WF(r) && r.maxBytes == b.maxBytes && r.ttl == b.ttl
            && Excess(r) == Excess(b) + Overcharge(b, sequence, index, payload)
            && (b.maxBytes >= 0 ==> Held(r.order, r.states) <= b.maxBytes)
  {
    WithFragmentKeepsWF(b, sequence, name, total, expectedLen, index, payload, now);
    AddLeaves(b, sequence, name, total, expectedLen, index, payload, now);
    var filled := WithFragment(b, sequence, name, total, expectedLen, index, payload, now).0;
    hide WithFragment, Add, Evict, Remove, WF, Excess, Held, Overcharge;
    EvictKeepsWF(filled);
    if b.maxBytes >= 0 {
      EvictionRespectsCap(filled);
    }
    var kept := Evict(filled);
    if sequence in kept.states {
      RemoveKeepsWF(kept, sequence);
      RemoveFrees(kept, sequence);
    }
  }

  lemma RemoveFrees(b: Buffer, k: int)
    requires WF(b) && k in b.states
    ensures b.states[k].received >= 0 && Remove(b, k).maxBytes == b.maxBytes && Remove(b, k).ttl == b.ttl
  {
    assert GoodAssembly(b.states[k]);
  }

  lemma AddLeaves(
    b: Buffer, sequence: int, name: string, total: int, expectedLen: Option<int>,
    index: int, payload: Bytes, now: real)
    ensures var kept := Evict(WithFragment(b, sequence, name, total, expectedLen, index, payload, now).0);
            var r := Add(b, sequence, name, total, expectedLen, index, payload, now).0;
            r == kept || (sequence in kept.states && r == Remove(kept, sequence))
  {
    hide Evict, Remove, Assemble, Dropped, Victims;
  }

  /** The two ways an `add` ends without completing its frame. */
  lemma AddKeepsWaiting(
    b: Buffer, sequence: int, name: string, total: int, expectedLen: Option<int>,
    index: int, payload: Bytes, now: real)
    ensures var (filled, complete) := WithFragment(b, sequence, name, total, expectedLen, index, payload, now);
            var kept := Evict(filled);
            var drops := Dropped(Victims(filled), filled.states, BufferLimit);
            var r := Add(b, sequence, name, total, expectedLen, index, payload, now);
            && (sequence !in kept.states ==>
                  r == (kept, Incomplete(drops + [Drop(sequence, filled.states[sequence], BufferLimit)])))
            && (sequence in kept.states && !complete ==> r == (kept, Incomplete(drops)))
            && (sequence in kept.states && complete ==> !r.1.Incomplete? && (r.1.Complete? ==> r.1.drops == drops))
  {
    hide Evict, Remove, Assemble, Dropped, Victims;
  }

  function NewBuffer(ttl: real, maxBytes: int): (b: Buffer)
    ensures Exact(b)
  {
    Buffer(ttl, maxBytes, [], map[], 0)
  }

  /** With room for the fragment nothing is evicted. */
  lemma AddWithRoom(
    b: Buffer, sequence: int, name: string, total: int, expectedLen: Option<int>,
    index: int, payload: Bytes, now: real)
    requires WF(b) && b.counter + |payload| <= b.maxBytes
    ensures var (filled, complete) := WithFragment(b, sequence, name, total, expectedLen, index, payload, now);
            && sequence in filled.states
            && Add(b, sequence, name, total, expectedLen, index, payload, now) ==
               if !complete then (filled, Incomplete([]))
               else
                 match Assemble(filled.states[sequence].chunks, filled.states[sequence].total)
                 case None => (filled, Missing)
                 case Some(whole) => (Remove(filled, sequence), Complete(whole, []))
  {
    WithFragmentKeepsWF(b, sequence, name, total, expectedLen, index, payload, now);
    var (filled, _) := WithFragment(b, sequence, name, total, expectedLen, index, payload, now);
    EvictKeepsWF(filled);
    assert Dropped([], filled.states, BufferLimit) == [];
  }

  /** `gc` walks a snapshot of the states and drops those not touched for `ttl`. */
  function GcFrom(b: Buffer, keys: seq<int>, now: real): (Buffer, seq<Drop>)
    decreases |keys|
  {
    if keys == [] then (b, [])
    else if now - Touched(keys[0], b.states) >= b.ttl then
      var (rest, drops) := GcFrom(Remove(b, keys[0]), keys[1..], now);
      (rest, [Drop(keys[0], StateOf(keys[0], b.states), Ttl)] + drops)
    else
      GcFrom(b, keys[1..], now)
  }

  /** The expired ones among `keys`, in their order. */
  function Expired(keys: seq<int>, b: Buffer, now: real): seq<int> {
    if keys == [] then []
    else (if now - Touched(keys[0], b.states) >= b.ttl then [keys[0]] else []) + Expired(keys[1..], b, now)
  }

  lemma {:induction false} ExpiredFrame(keys: seq<int>, b: Buffer, c: Buffer, now: real)
    requires c.ttl == b.ttl && forall k :: k in keys ==> StateOf(k, c.states) == StateOf(k, b.states)
    ensures Expired(keys, c, now) == Expired(keys, b, now)
    ensures Dropped(Expired(keys, c, now), c.states, Ttl) == Dropped(Expired(keys, b, now), b.states, Ttl)
    ensures forall k :: k in Expired(keys, b, now) ==> k in keys
  {
    if keys != [] {
      var k := keys[0];
      assert k in keys;
      ExpiredFrame(keys[1..], b, c, now);
    }
  }

  /** `gc` reports the expired states in the order it walks them, each as it was. */
  lemma {:induction false} GcReportsInOrder(b: Buffer, keys: seq<int>, now: real)
    requires KeysOf(keys, b.states)
    ensures GcFrom(b, keys, now).1 == Dropped(Expired(keys, b, now), b.states, Ttl)
    decreases |keys|
  {
    if keys != [] {
      var c, tail := Remove(b, keys[0]), keys[1..];
      KeysOfTail(keys, b.states);
      assert forall j :: j in tail ==> j in keys;
      ExpiredFrame(tail, b, c, now);
      assert c.states == b.states - {keys[0]};
      hide KeysOf, Remove;
      if now - Touched(keys[0], b.states) >= b.ttl {
        GcReportsInOrder(c, tail, now);
      } else {
        GcReportsInOrder(b, tail, now);
      }
    }
  }

  /** `gc` removes exactly the states not touched for `ttl` and leaves the others as they are. */
  lemma {:induction false} GcRemovesTheExpired(b: Buffer, keys: seq<int>, now: real)
    requires WF(b) && KeysOf(keys, b.states)
    ensures var r := GcFrom(b, keys, now).0;
            && WF(r) && Excess(r) == Excess(b)
            && (forall k :: k in r.states <==>
                  k in b.states && !(k in keys && now - b.states[k].lastUpdate >= b.ttl))
            && (forall k :: k in r.states ==> r.states[k] == b.states[k])
            && r.maxBytes == b.maxBytes && r.ttl == b.ttl
    decreases |keys|
  {
    hide WF, Excess;
    if keys != [] {
      var k := keys[0];
      var tail := keys[1..];
      KeysOfTail(keys, b.states);
      assert forall j :: j in keys <==> j == k || j in tail by { assert keys == [k] + tail; }
      if now - Touched(k, b.states) >= b.ttl {
        RemoveKeepsWF(b, k);
        GcRemovesTheExpired(Remove(b, k), tail, now);
      } else {
        assert forall j :: j in tail ==> j in b.states;
        GcRemovesTheExpired(b, tail, now);
      }
    }
  }

  /** `gc` as it is called: on all states, in insertion order. */
  lemma GcDropsExactlyTheExpired(b: Buffer, now: real)
    requires WF(b)
    ensures var (r, drops) := GcFrom(b, b.order, now);
            && WF(r) && Excess(r) == Excess(b)
            && drops == Dropped(Expired(b.order, b, now), b.states, Ttl)
            && (forall k :: k in r.states <==> k in b.states && now - b.states[k].lastUpdate < b.ttl)
            && (forall k :: k in r.states ==> r.states[k] == b.states[k])
            && r.maxBytes == b.maxBytes && r.ttl == b.ttl
  {
    GcReportsInOrder(b, b.order, now);
    GcRemovesTheExpired(b, b.order, now);
    hide Excess, GcFrom, Dropped, Expired;
  }

  /** `here` and `drops` are what the walk over `start` has reached before key number `i`. */
  ghost predicate Collecting(start: Buffer, here: Buffer, keys: seq<int>, i: nat, drops: seq<Drop>, now: real) {
    && i <= |keys|
    && KeysOf(keys[i..], here.states)
    && GcFrom(start, keys, now).0 == GcFrom(here, keys[i..], now).0
    && GcFrom(start, keys, now).1 == drops + GcFrom(here, keys[i..], now).1
  }

  lemma CollectingStart(start: Buffer, now: real)
    requires WF(start)
    ensures Collecting(start, start, start.order, 0, [], now)
  {
    assert start.order[0..] == start.order;
  }

  lemma CollectingDone(start: Buffer, here: Buffer, keys: seq<int>, drops: seq<Drop>, now: real)
    requires Collecting(start, here, keys, |keys|, drops, now)
    ensures GcFrom(start, keys, now) == (here, drops)
  {
    var tail := keys[|keys|..];
    assert tail == [] && GcFrom(here, tail, now) == (here, []);
    assert drops + [] == drops;
  }

  lemma CollectingStep(start: Buffer, here: Buffer, keys: seq<int>, i: nat, drops: seq<Drop>, now: real)
    requires Collecting(start, here, keys, i, drops, now) && i < |keys|
    ensures keys[i] in here.states
    ensures if now - here.states[keys[i]].lastUpdate >= here.ttl
            then Collecting(start, Remove(here, keys[i]), keys, i + 1, drops + [Drop(keys[i], here.states[keys[i]], Ttl)], now)
            else Collecting(start, here, keys, i + 1, drops, now)
  {
    var rest := keys[i..];
    assert rest[1..] == keys[i + 1..];
    KeysOfTail(rest, here.states);
    assert forall j :: j in rest[1..] ==> j in rest;
    var g := GcFrom(Remove(here, keys[i]), rest[1..], now).1;
    var d := Drop(keys[i], here.states[keys[i]], Ttl);
    assert drops + ([d] + g) == drops + [d] + g;
  }

  // ---- Whole runs ----

  datatype Call =
    | CallAdd(
        sequence: int, name: string, total: int, expectedLen: Option<int>, index: int, payload: Bytes, now: real)
    | CallGc(now: real)
    | CallClear

  function Apply(b: Buffer, call: Call): Buffer {
    match call
    case CallAdd(sequence, name, total, expectedLen, index, payload, now) =>
      Add(b, sequence, name, total, expectedLen, index, payload, now).0
    case CallGc(now) => GcFrom(b, b.order, now).0
    case CallClear => b.(order := [], states := map[], counter := 0)
  }

  function ApplyAll(b: Buffer, calls: seq<Call>): Buffer
    decreases |calls|
  {
    if calls == [] then b else ApplyAll(Apply(b, calls[0]), calls[1..])
  }

  /** `before`, and the bytes of a repeated fragment on top; `clear` starts again from 0. */
  ghost function OverchargedBy(b: Buffer, call: Call, before: int): int {
    match call
    case CallAdd(sequence, _, _, _, index, payload, _) => before + Overcharge(b, sequence, index, payload)
    case CallGc(_) => before
    case CallClear => 0
  }

  /** The bytes of repeated fragments since the last `clear`, on top of `before`. */
  ghost function Overcharged(b: Buffer, calls: seq<Call>, before: int): int
    decreases |calls|
  {
    if calls == [] then before
    else Overcharged(Apply(b, calls[0]), calls[1..], OverchargedBy(b, calls[0], before))
  }

  lemma ApplyBoundsMemory(b: Buffer, call: Call)
    requires WF(b)
    ensures var r := Apply(b, call);
            && WF(r) && r.maxBytes == b.maxBytes
            && Excess(r) == OverchargedBy(b, call, Excess(b))
            && (0 <= b.maxBytes && Held(b.order, b.states) <= b.maxBytes ==> Held(r.order, r.states) <= b.maxBytes)
  {
    match call
    case CallAdd(sequence, name, total, expectedLen, index, payload, now) =>
      AddBoundsMemory(b, sequence, name, total, expectedLen, index, payload, now);
    case CallGc(now) =>
      GcDropsExactlyTheExpired(b, now);
      GcHoldsLess(b, b.order, now);
    case CallClear =>
  }

  lemma {:induction false} GcHoldsLess(b: Buffer, keys: seq<int>, now: real)
    requires WF(b) && KeysOf(keys, b.states)
    ensures var r := GcFrom(b, keys, now).0; Held(r.order, r.states) <= Held(b.order, b.states)
    decreases |keys|
  {
    if keys != [] {
      var k := keys[0];
      var c := Remove(b, k);
      KeysOfTail(keys, b.states);
      RemoveKeepsWF(b, k);
      assert GoodAssembly(b.states[k]);
      assert c.states == b.states - {k};
      assert forall j :: j in keys[1..] ==> j in keys;
      hide WF, Remove;
      if now - Touched(k, b.states) >= b.ttl {
        GcHoldsLess(c, keys[1..], now);
      } else {
        GcHoldsLess(b, keys[1..], now);
      }
    }
  }

  /** Whatever is called in whatever order on a new buffer: the counter is above the bytes held by
      exactly the bytes of repeated fragments since the last `clear`, so it equals them iff there were
      none; and the bytes held never exceed a cap that is not negative. */
  lemma {:induction false} MemoryBound(b: Buffer, calls: seq<Call>)
    requires WF(b)
    ensures var r := ApplyAll(b, calls);
            && WF(r) && Held(r.order, r.states) <= r.counter
            && r.counter == Held(r.order, r.states) + Overcharged(b, calls, Excess(b))
            && (Exact(r) <==> Overcharged(b, calls, Excess(b)) == 0)
            && (0 <= b.maxBytes && Held(b.order, b.states) <= b.maxBytes ==> Held(r.order, r.states) <= b.maxBytes)
    decreases |calls|
  {
    if calls != [] {
      ApplyBoundsMemory(b, calls[0]);
      hide Apply, OverchargedBy;
      MemoryBound(Apply(b, calls[0]), calls[1..]);
    }
  }

  /** No `add` of the run repeats a fragment its frame already holds. */
  ghost predicate DuplicateFree(b: Buffer, calls: seq<Call>)
    decreases |calls|
  {
    calls != [] ==>
      && (calls[0].CallAdd? ==> !Duplicate(b, calls[0].sequence, calls[0].index))
      && DuplicateFree(Apply(b, calls[0]), calls[1..])
  }

  /** Without repeated fragments the counter stays exact. */
  lemma {:induction false} ExactWithoutRepeats(b: Buffer, calls: seq<Call>)
    requires Exact(b) && DuplicateFree(b, calls)
    ensures Exact(ApplyAll(b, calls))
    decreases |calls|
  {
    if calls != [] {
      ApplyBoundsMemory(b, calls[0]);
      hide Apply, Overcharged;
      ExactWithoutRepeats(Apply(b, calls[0]), calls[1..]);
    }
  }
}
