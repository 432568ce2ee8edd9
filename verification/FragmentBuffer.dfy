/** nodes/stream_server.py: `FragmentAssembly` and `FragmentBuffer` as the objects they are, each
    method proved against the value-level description in `Reassembly`. */
module FragmentBuffers {
  import opened Common
  import opened Reassembly

  class FragmentAssembly {
    const sequence: int
    const name: string
    const total: int
    const expectedLen: Option<int>
    var chunks: map<int, Bytes>
    var received: int
    var lastUpdate: real

    constructor (sequence: int, name: string, total: int, expectedLen: Option<int>, now: real)
      ensures this.sequence == sequence
      ensures View() == Assembly(name, total, expectedLen, map[], 0, now)
    {
      this.sequence, this.name, this.total, this.expectedLen := sequence, name, total, expectedLen;
      chunks, received, lastUpdate := map[], 0, now;
    }

    function View(): Assembly
      reads this
    {
      Assembly(name, total, expectedLen, chunks, received, lastUpdate)
    }

    method Add(index: int, payload: Bytes, now: real) returns (complete: bool)
      modifies this
      ensures (View(), complete) == AddChunk(old(View()), index, payload, now)
    {
      if index in chunks {
        return false;
      }
      chunks := chunks[index := payload];
      received := received + |payload|;
      lastUpdate := now;
      complete := |chunks| == total;
    }
  }

  class FragmentBuffer {
    const ttl: real
    const maxBytes: int
    var order: seq<int>
    var states: map<int, FragmentAssembly>
    var bufferedBytes: int
    ghost var model: Buffer  // the buffer as a value

    constructor (ttl: real, maxBytes: int)
      ensures Valid() && fresh(this)
      ensures model == Buffer(ttl, maxBytes, [], map[], 0) && Exact(model)
    {
      this.ttl, this.maxBytes := ttl, maxBytes;
      order, states, bufferedBytes := [], map[], 0;
      model := Buffer(ttl, maxBytes, [], map[], 0);
    }

    /** Every state sits under its own sequence, so no two keys share one, and `model` is what the
        fields hold. */
    ghost predicate Valid()
      reads this, states.Values
    {
      && WF(model)
      && model.ttl == ttl && model.maxBytes == maxBytes
      && model.order == order && model.counter == bufferedBytes
      && model.states.Keys == states.Keys
      && forall k :: k in states ==> states[k].sequence == k && states[k].View() == model.states[k]
    }

    method Add(
      sequence: int, name: string, total: int, expectedLen: Option<int>,
      index: int, payload: Bytes, now: real) returns (outcome: Outcome)
      requires Valid()
      modifies this, states.Values
      ensures Valid() && fresh(states.Values - old(states.Values))
      ensures (model, outcome) == Reassembly.Add(old(model), sequence, name, total, expectedLen, index, payload, now)
    {
      AddBoundsMemory(model, sequence, name, total, expectedLen, index, payload, now);
      var state := Obtain(sequence, name, total, expectedLen, now);
      var complete := Charge(state, index, payload, now);
      var drops := EvictForMemory(Some(sequence));
      if complete && sequence in states {
        var assembled := Assemble(state.chunks, state.total);
        if assembled == None {
          return Missing;
        }
        Pop(sequence);
        return Complete(assembled.value, drops);
      }
      if sequence !in states {
        drops := drops + [Drop(sequence, state.View(), BufferLimit)];
      }
      return Incomplete(drops);
    }

    /** The state of `sequence`, a new one if there is none. */
    method Obtain(sequence: int, name: string, total: int, expectedLen: Option<int>, now: real)
      returns (state: FragmentAssembly)
      requires Valid()
      modifies this
      ensures Valid() && fresh(states.Values - old(states.Values))
      ensures sequence in states && states[sequence] == state
      ensures model == WithState(old(model), sequence, name, total, expectedLen, now)
    {
      hide WF, Excess, Held;
      WithStateKeepsWF(model, sequence, name, total, expectedLen, now);
      model := WithState(model, sequence, name, total, expectedLen, now);
      if sequence in states {
        return states[sequence];
      }
      state := new FragmentAssembly(sequence, name, total, expectedLen, now);
      states := states[sequence := state];
      order := order + [sequence];
      assert forall k :: k in states && k != sequence ==> states[k] in old(states.Values);
    }

    /** One more fragment in one of the states, charged for even when it is a duplicate. */
    method Charge(state: FragmentAssembly, index: int, payload: Bytes, now: real) returns (complete: bool)
      requires Valid() && state.sequence in states && states[state.sequence] == state
      modifies this, state
      ensures Valid() && states == old(states)
      ensures (model, complete) == Charged(old(model), state.sequence, index, payload, now)
    {
      hide WF;
      ChargedKeepsWF(model, state.sequence, index, payload, now);
      model := Charged(model, state.sequence, index, payload, now).0;
      complete := state.Add(index, payload, now);
      bufferedBytes := bufferedBytes + |payload|;
    }

    /** Drops what has not been touched for `ttl`. */
    method Gc(now: real) returns (drops: seq<Drop>)
      requires Valid()
      modifies this
      ensures Valid() && states.Values <= old(states.Values)
      ensures (model, drops) == GcFrom(old(model), old(order), now)
    {
      ghost var start := model;
      var snapshot := order;
      drops := [];
      CollectingStart(start, now);
      for i := 0 to |snapshot|
        invariant Valid() && states.Values <= old(states.Values)
        invariant Collecting(start, model, snapshot, i, drops, now)
      {
        var k := snapshot[i];
        CollectingStep(start, model, snapshot, i, drops, now);
        assert k in states;
        var state := states[k].View();
        if now - state.lastUpdate >= ttl {
          Pop(k);
          drops := drops + [Drop(k, state, Ttl)];
        }
      }
      CollectingDone(start, model, snapshot, drops, now);
    }

    method Clear() returns (drops: seq<Drop>)
      requires Valid()
      modifies this
      ensures Valid() && model == old(model).(order := [], states := map[], counter := 0)
      ensures drops == Dropped(old(order), old(model).states, Shutdown)
    {
      var views := Views();
      drops := Dropped(order, views, Shutdown);
      order, states, bufferedBytes := [], map[], 0;
      model := model.(order := [], states := map[], counter := 0);
    }

    /** Evicts oldest-first while the counter is above the cap. What is evicted does not depend on
        `exclude`: the branch that spares it is taken only when nothing more would be evicted. */
    method EvictForMemory(exclude: Option<int>) returns (drops: seq<Drop>)
      requires Valid()
      modifies this
      ensures Valid() && states.Values <= old(states.Values)
      ensures model == Evict(old(model))
      ensures drops == Dropped(Victims(old(model)), old(model).states, BufferLimit)
    {
      hide WF, Excess, OldestFirst, Evicting, Evict, Victims, RemoveAll, Remove, VictimCount;
      ghost var start := model;
      EvictKeepsWF(start);
      assert Dropped([], start.states, BufferLimit) == [];
      if bufferedBytes <= maxBytes {
        return [];
      }
      hide Dropped, StateOf;
      drops := [];
      var views := Views();
      var ordered := OldestFirst(order, views);
      EvictingStart(start, ordered);
      var i := 0;
      ghost var n := 0;
      while i < |ordered|
        invariant 0 <= n <= i <= |ordered|
        invariant n < i ==> bufferedBytes <= maxBytes
        invariant Valid() && states.Values <= old(states.Values)
        invariant Evicting(start, model, ordered, n)
        invariant drops == Dropped(ordered[..n], start.states, BufferLimit)
      {
        var k := ordered[i];
        if exclude == Some(k) && bufferedBytes <= maxBytes {
          i := i + 1;
          continue;
        }
        if bufferedBytes <= maxBytes {
          break;
        }
        EvictingStep(start, model, ordered, n);
        DroppedOneMore(ordered, n, start.states, BufferLimit);
        assert k in states;
        var removed := states[k].View();
        Pop(k);
        drops := drops + [Drop(k, removed, BufferLimit)];
        i := i + 1;
        n := n + 1;
      }
      EvictingDone(start, model, ordered, n);
    }

    method Views() returns (views: map<int, Assembly>)
      requires Valid()
      ensures views == model.states
    {
      views := map k | k in states :: states[k].View();
      assert forall k :: k in states ==> views[k] == model.states[k];
      assert views.Keys == model.states.Keys;
    }

    /** Takes one state out and its bytes off the counter. */
    method Pop(k: int)
      requires Valid() && k in states
      modifies this
      ensures Valid() && states == old(states) - {k} && states.Values <= old(states.Values)
      ensures model == Remove(old(model), k)
    {
      RemoveKeepsWF(model, k);
      model := Remove(model, k);
      bufferedBytes := Max(0, bufferedBytes - states[k].received);
      order := Without(order, k);
      states := states - {k};
    }
  }
}
