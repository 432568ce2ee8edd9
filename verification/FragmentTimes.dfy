/** nodes/stream_server.py: which fragments keep a frame alive in `FragmentBuffer`, told from the calls:
    the time stamps that `gc` and the eviction go by. */
module FragmentTimes {
  import opened Common
  import opened Reassembly
  import opened Overcount

  // ---- The calls that began and last fed a frame ----

  predicate Brings(call: Call, k: int) {
    call.CallAdd? && call.sequence == k
  }

  /** The buffer after the first `n` calls. */
  function At(b: Buffer, calls: seq<Call>, n: nat): Buffer
    requires n <= |calls|
  {
    if n == 0 then b else Apply(At(b, calls, n - 1), calls[n - 1])
  }

  /** The buffer when call number `n - 1` has taken its fragment in and has not evicted or finished
      anything. */
  function Filled(b: Buffer, calls: seq<Call>, n: nat): Buffer
    requires 0 < n <= |calls|
  {
    Arrived(At(b, calls, n - 1), calls[n - 1])
  }

  function Arrived(b: Buffer, call: Call): Buffer {
    match call
    case CallAdd(sequence, name, total, expectedLen, index, payload, now) =>
      WithFragment(b, sequence, name, total, expectedLen, index, payload, now).0
    case _ => Apply(b, call)
  }

  /** Of the first `n` calls the one since which frame `k` has been held. */
  ghost function Start(b: Buffer, calls: seq<Call>, n: nat, k: int): (j: nat)
    requires 0 < n <= |calls|
    ensures j < n
  {
    if n == 1 || k !in At(b, calls, n - 1).states then n - 1 else Start(b, calls, n - 1, k)
  }

  lemma AtZero(b: Buffer, calls: seq<Call>)
    ensures At(b, calls, 0) == b
  {
  }

  /** The fragments of frame `k` that calls `from` to `to - 1` brought. */
  ghost function Brought(calls: seq<Call>, k: int, from: nat, to: nat): set<int>
    requires to <= |calls|
  {
    set i | from <= i < to && Brings(calls[i], k) :: calls[i].index
  }

  /** Call `i` brings a fragment of `k` that has not come since `k` has been held. */
  ghost predicate BringsNew(b: Buffer, calls: seq<Call>, i: nat, k: int)
    requires i < |calls|
  {
    Brings(calls[i], k) && calls[i].index !in Brought(calls, k, Start(b, calls, i + 1, k), i)
  }

  /** Of the first `n` calls the last that brought a new fragment of `k`. */
  ghost function Latest(b: Buffer, calls: seq<Call>, n: nat, k: int): (i: nat)
    requires 0 < n <= |calls|
    ensures i < n
  {
    if n == 1 || BringsNew(b, calls, n - 1, k) then n - 1 else Latest(b, calls, n - 1, k)
  }

  /** `Start` and `Latest` with one more call. */
  lemma OneCallMore(b: Buffer, calls: seq<Call>, n: nat, k: int)
    requires n < |calls|
    ensures k !in At(b, calls, n).states ==> Start(b, calls, n + 1, k) == n
    ensures n > 0 && k in At(b, calls, n).states ==> Start(b, calls, n + 1, k) == Start(b, calls, n, k)
    ensures BringsNew(b, calls, n, k) ==> Latest(b, calls, n + 1, k) == n
    ensures n > 0 && !BringsNew(b, calls, n, k) ==> Latest(b, calls, n + 1, k) == Latest(b, calls, n, k)
  {
    hide At, BringsNew;
  }

  // ---- What one call does to one state ----

  lemma {:induction false} ApplyAllIsAt(b: Buffer, calls: seq<Call>)
    ensures ApplyAll(b, calls) == At(b, calls, |calls|)
    decreases |calls|
  {
    hide Apply;
    if calls != [] {
      ApplyAllIsAt(Apply(b, calls[0]), calls[1..]);
      AtFromSecond(b, calls, |calls| - 1);
    }
  }

  lemma {:induction false} AtFromSecond(b: Buffer, calls: seq<Call>, n: nat)
    requires n < |calls|
    ensures At(Apply(b, calls[0]), calls[1..], n) == At(b, calls, n + 1)
  {
    hide Apply;
    if n > 0 {
      AtFromSecond(b, calls, n - 1);
    }
  }

  /** The states after a call are among those it had taken in, unchanged. */
  lemma ApplyKeepsStates(b: Buffer, call: Call, k: int)
    requires WF(b)
    ensures WF(Apply(b, call)) && Apply(b, call).ttl == b.ttl
    ensures k in Apply(b, call).states ==>
              k in Arrived(b, call).states && Apply(b, call).states[k] == Arrived(b, call).states[k]
  {
    match call
    case CallAdd(sequence, name, total, expectedLen, index, payload, now) =>
      hide WF, WithFragment, Add, Evict, Victims, Excess, Held;
      AddBoundsMemory(b, sequence, name, total, expectedLen, index, payload, now);
      AddLeaves(b, sequence, name, total, expectedLen, index, payload, now);
      WithFragmentKeepsWF(b, sequence, name, total, expectedLen, index, payload, now);
      EvictKeepsWF(Arrived(b, call));
    case CallGc(now) => GcDropsExactlyTheExpired(b, now);
    case CallClear =>
  }

  lemma {:induction false} AtKeepsWF(b: Buffer, calls: seq<Call>, n: nat)
    requires WF(b) && n <= |calls|
    ensures WF(At(b, calls, n)) && At(b, calls, n).ttl == b.ttl
  {
    hide WF, Apply;
    if n > 0 {
      AtKeepsWF(b, calls, n - 1);
      ApplyKeepsStates(At(b, calls, n - 1), calls[n - 1], 0);
    }
  }

  lemma HeldWasFilled(b: Buffer, calls: seq<Call>, n: nat, k: int)
    requires WF(b) && 0 < n <= |calls| && k in At(b, calls, n).states
    ensures k in Filled(b, calls, n).states && At(b, calls, n).states[k] == Filled(b, calls, n).states[k]
  {
    hide WF, Apply, Arrived;
    AtKeepsWF(b, calls, n - 1);
    ApplyKeepsStates(At(b, calls, n - 1), calls[n - 1], k);
  }

  /** A fragment that is there already leaves the state as it is, a new one is added and sets the time. */
  lemma ArrivedState(b: Buffer, call: Call, k: int)
    requires k in Arrived(b, call).states && WF(b)
    ensures var s := Arrived(b, call).states[k];
            if !Brings(call, k) then k in b.states && s == b.states[k]
            else if k !in b.states then s.chunks.Keys == {call.index} && s.lastUpdate == call.now
            else if call.index in b.states[k].chunks then s == b.states[k]
            else s.chunks.Keys == b.states[k].chunks.Keys + {call.index} && s.lastUpdate == call.now
  {
    match call
    case CallGc(now) => GcDropsExactlyTheExpired(b, now);
    case _ =>
  }

  lemma BroughtMore(calls: seq<Call>, k: int, from: nat, to: nat)
    requires to < |calls|
    ensures Brought(calls, k, from, to + 1) ==
              Brought(calls, k, from, to) + if from <= to && Brings(calls[to], k) then {calls[to].index} else {}
    ensures Brought(calls, k, to, to) == {}
  {
  }

  // ---- The time stamp of a state ----

  ghost predicate StateIs(b: Buffer, calls: seq<Call>, n: nat, k: int, s: Assembly)
    requires 0 < n <= |calls|
  {
    var i := Latest(b, calls, n, k);
    && s.chunks.Keys == Brought(calls, k, Start(b, calls, n, k), n)
    && Brings(calls[i], k) && s.lastUpdate == calls[i].now
  }

  lemma StateBegins(b: Buffer, calls: seq<Call>, n: nat, k: int, s: Assembly)
    requires n < |calls| && k !in At(b, calls, n).states && Brings(calls[n], k)
    requires s.chunks.Keys == {calls[n].index} && s.lastUpdate == calls[n].now
    ensures StateIs(b, calls, n + 1, k, s) && BringsNew(b, calls, n, k)
  {
    hide At, Brought, Start, Latest;
    OneCallMore(b, calls, n, k);
    BroughtMore(calls, k, n, n);
  }

  lemma StateGoesOn(b: Buffer, calls: seq<Call>, n: nat, k: int, before: Assembly, s: Assembly)
    requires 0 < n < |calls| && k in At(b, calls, n).states && StateIs(b, calls, n, k, before)
    requires if Brings(calls[n], k) && calls[n].index !in before.chunks
             then s.chunks.Keys == before.chunks.Keys + {calls[n].index} && s.lastUpdate == calls[n].now
             else s == before
    ensures StateIs(b, calls, n + 1, k, s)
  {
    hide At, Brought, Start, Latest;
    OneCallMore(b, calls, n, k);
    BroughtMore(calls, k, Start(b, calls, n, k), n);
    if Brings(calls[n], k) {
      assert BringsNew(b, calls, n, k) <==> calls[n].index !in before.chunks.Keys;
      assert calls[n].index in before.chunks.Keys ==> before.chunks.Keys + {calls[n].index} == before.chunks.Keys;
    }
  }

  /** A frame held holds exactly the fragments brought since it has been held, and its time stamp is the
      time of the last call that brought a new one: a repeated fragment does not count. */
  lemma {:induction false} StateTells(b: Buffer, calls: seq<Call>, n: nat, k: int)
    requires WF(b) && k !in b.states && 0 < n <= |calls| && k in Filled(b, calls, n).states
    ensures var s, i := Filled(b, calls, n).states[k], Latest(b, calls, n, k);
            && s.chunks.Keys == Brought(calls, k, Start(b, calls, n, k), n)
            && Brings(calls[i], k) && s.lastUpdate == calls[i].now
  {
    hide WF, Arrived, Brought, Start, Latest, At;
    var before, s := At(b, calls, n - 1), Filled(b, calls, n).states[k];
    AtKeepsWF(b, calls, n - 1);
    ArrivedState(before, calls[n - 1], k);
    AtZero(b, calls);
    if k in before.states {
      HeldWasFilled(b, calls, n - 1, k);
      StateTells(b, calls, n - 1, k);
      StateGoesOn(b, calls, n - 1, k, before.states[k], s);
    } else {
      StateBegins(b, calls, n - 1, k, s);
    }
  }

  /** `Start` is the call that began the state: none was held before it, and one ever since. */
  lemma {:induction false} StartMeans(b: Buffer, calls: seq<Call>, n: nat, k: int, m: nat)
    requires k !in b.states && 0 < n <= |calls|
    ensures k !in At(b, calls, Start(b, calls, n, k)).states
    ensures Start(b, calls, n, k) < m < n ==> k in At(b, calls, m).states
  {
    hide At, Start;
    AtZero(b, calls);
    OneCallMore(b, calls, n - 1, k);
    if k in At(b, calls, n - 1).states {
      StartMeans(b, calls, n - 1, k, m);
    }
  }

  /** `Latest` is the last call since then that brought a new fragment. */
  lemma {:induction false} LatestMeans(b: Buffer, calls: seq<Call>, n: nat, k: int, m: nat)
    requires WF(b) && k !in b.states && 0 < n <= |calls| && k in Filled(b, calls, n).states
    ensures Start(b, calls, n, k) <= Latest(b, calls, n, k) && BringsNew(b, calls, Latest(b, calls, n, k), k)
    ensures Latest(b, calls, n, k) < m < n ==> !BringsNew(b, calls, m, k)
  {
    hide Arrived, At, WF, BringsNew, Start, Latest;
    AtZero(b, calls);
    OneCallMore(b, calls, n - 1, k);
    if k in At(b, calls, n - 1).states {
      HeldWasFilled(b, calls, n - 1, k);
      LatestMeans(b, calls, n - 1, k, m);
    } else {
      AtKeepsWF(b, calls, n - 1);
      ArrivedState(At(b, calls, n - 1), calls[n - 1], k);
      StateBegins(b, calls, n - 1, k, Filled(b, calls, n).states[k]);
    }
  }

  // ---- gc in these times ----

  lemma GcKeeps(b: Buffer, k: int, now: real)
    requires WF(b)
    ensures k in Apply(b, CallGc(now)).states <==> k in b.states && now - b.states[k].lastUpdate < b.ttl
  {
    GcDropsExactlyTheExpired(b, now);
  }

  /** `gc` drops a frame exactly when the last call that brought a new fragment of it is `ttl` ago. */
  lemma GcGoesByLatest(b: Buffer, calls: seq<Call>, k: int, now: real)
    requires WF(b) && k !in b.states && calls != []
    ensures var i := Latest(b, calls, |calls|, k);
            k in Apply(ApplyAll(b, calls), CallGc(now)).states <==>
            k in ApplyAll(b, calls).states && Brings(calls[i], k) && now - calls[i].now < b.ttl
  {
    var n := |calls|;
    hide WF, Apply, Arrived, Latest, ApplyAll, At;
    ApplyAllIsAt(b, calls);
    AtKeepsWF(b, calls, n);
    GcKeeps(At(b, calls, n), k, now);
    if k in At(b, calls, n).states {
      HeldWasFilled(b, calls, n, k);
      StateTells(b, calls, n, k);
    }
  }

  /** A clock that does not run back. */
  ghost predicate ClockRuns(calls: seq<Call>) {
    forall i, j :: 0 <= i < j < |calls| && calls[i].CallAdd? && calls[j].CallAdd? ==> calls[i].now <= calls[j].now
  }

  /** So with such a clock a frame outlives a `gc` exactly when a new fragment of it has come within `ttl`
      since it has been held. */
  lemma GcSparesTheFed(b: Buffer, calls: seq<Call>, k: int, now: real)
    requires WF(b) && k !in b.states && calls != [] && ClockRuns(calls) && k in ApplyAll(b, calls).states
    ensures k in Apply(ApplyAll(b, calls), CallGc(now)).states <==>
            exists m :: Start(b, calls, |calls|, k) <= m < |calls| && BringsNew(b, calls, m, k)
                        && Brings(calls[m], k) && now - calls[m].now < b.ttl
  {
    var n := |calls|;
    hide WF, Apply, Arrived, ApplyAll, Start, Latest, BringsNew, At;
    GcGoesByLatest(b, calls, k, now);
    ApplyAllIsAt(b, calls);
    HeldWasFilled(b, calls, n, k);
    StateTells(b, calls, n, k);
    var i := Latest(b, calls, n, k);
    LatestMeans(b, calls, n, k, 0);
    if m :| Start(b, calls, n, k) <= m < n && BringsNew(b, calls, m, k)
            && Brings(calls[m], k) && now - calls[m].now < b.ttl {
      LatestMeans(b, calls, n, k, m);
      assert m <= i;
    }
  }

  // ---- Eviction in these times ----

  /** Of two keys of `r` the same one comes first in `o`. */
  ghost predicate SameOrder(r: seq<int>, o: seq<int>, x: int, y: int) {
    x in r && y in r ==> x in o && y in o && (Position(r, x) < Position(r, y) <==> Position(o, x) < Position(o, y))
  }

  /** A list with a first key left out. */
  lemma SameOrderTail(first: int, rest: seq<int>, r: seq<int>, keeps: bool, x: int, y: int)
    requires first !in rest && first !in r && SameOrder(r, rest, x, y) && forall z :: z in r ==> z in rest
    ensures SameOrder(if keeps then [first] + r else r, [first] + rest, x, y)
  {
    assert ([first] + rest)[1..] == rest && ([first] + r)[1..] == r;
    assert forall z :: z in [first] + rest <==> z == first || z in rest;
    assert forall z :: z in [first] + r <==> z == first || z in r;
  }

  lemma {:induction false} WithoutSameOrder(o: seq<int>, k: int, x: int, y: int)
    requires Distinct(o)
    ensures SameOrder(Without(o, k), o, x, y)
  {
    if o != [] {
      var first, rest := o[0], o[1..];
      WithoutSameOrder(rest, k, x, y);
      assert o == [first] + rest && first !in rest;
      assert Without(o, k) == (if first == k then [] else [first]) + Without(rest, k);
      assert [] + Without(rest, k) == Without(rest, k);
      hide SameOrder, Without, Distinct;
      SameOrderTail(first, rest, Without(rest, k), first != k, x, y);
    }
  }

  lemma {:induction false} RemoveAllSameOrder(b: Buffer, keys: seq<int>, x: int, y: int)
    requires WF(b) && KeysOf(keys, b.states)
    ensures SameOrder(RemoveAll(b, keys).order, b.order, x, y)
    decreases |keys|
  {
    if keys != [] {
      KeysOfTail(keys, b.states);
      RemoveKeepsWF(b, keys[0]);
      WithoutSameOrder(b.order, keys[0], x, y);
      hide WF, KeysOf, Position;
      RemoveAllSameOrder(Remove(b, keys[0]), keys[1..], x, y);
    }
  }

  lemma {:induction false} GcSameOrder(b: Buffer, keys: seq<int>, now: real, x: int, y: int)
    requires WF(b) && KeysOf(keys, b.states)
    ensures SameOrder(GcFrom(b, keys, now).0.order, b.order, x, y)
    decreases |keys|
  {
    if keys != [] {
      KeysOfTail(keys, b.states);
      assert KeysOf(keys[1..], b.states);
      RemoveKeepsWF(b, keys[0]);
      WithoutSameOrder(b.order, keys[0], x, y);
      hide WF, KeysOf, Position;
      if now - Touched(keys[0], b.states) >= b.ttl {
        GcSameOrder(Remove(b, keys[0]), keys[1..], now, x, y);
      } else {
        GcSameOrder(b, keys[1..], now, x, y);
      }
    }
  }

  lemma OrderIsDistinct(b: Buffer)
    requires WF(b)
    ensures Distinct(b.order) && forall k :: k in b.order <==> k in b.states
  {
  }

  /** No call changes the order of the states it leaves. */
  lemma ApplySameOrder(b: Buffer, call: Call, x: int, y: int)
    requires WF(b)
    ensures SameOrder(Apply(b, call).order, Arrived(b, call).order, x, y)
  {
    match call
    case CallAdd(sequence, name, total, expectedLen, index, payload, now) =>
      var filled := Arrived(b, call);
      hide WF, WithFragment, Add, Victims, Excess, Held, RemoveAll, Position;
      WithFragmentKeepsWF(b, sequence, name, total, expectedLen, index, payload, now);
      AddLeaves(b, sequence, name, total, expectedLen, index, payload, now);
      VictimsAreKeys(filled);
      RemoveAllSameOrder(filled, Victims(filled), x, y);
      EvictKeepsWF(filled);
      var kept := Evict(filled);
      OrderIsDistinct(kept);
      WithoutSameOrder(kept.order, sequence, x, y);
    case _ =>
  }

  lemma {:induction false} PositionAppend(o: seq<int>, k: int, x: int)
    requires k !in o && (x in o || x == k)
    ensures Position(o + [k], x) == if x in o then Position(o, x) else |o|
    ensures x in o ==> Position(o, x) < |o|
  {
    if o == [] {
      assert o + [k] == [k];
    } else {
      assert (o + [k])[1..] == o[1..] + [k] && o == [o[0]] + o[1..];
      if o[0] != x {
        PositionAppend(o[1..], k, x);
      }
    }
  }

  lemma ArrivedOrder(b: Buffer, call: Call)
    requires WF(b)
    ensures forall k :: k in Arrived(b, call).order <==> k in Arrived(b, call).states
    ensures call.CallAdd? ==>
              Arrived(b, call).order == if call.sequence in b.states then b.order else b.order + [call.sequence]
  {
    match call
    case CallAdd(sequence, name, total, expectedLen, index, payload, now) =>
      WithFragmentKeepsWF(b, sequence, name, total, expectedLen, index, payload, now);
    case CallGc(now) => GcDropsExactlyTheExpired(b, now);
    case CallClear =>
  }

  /** Where two states stand when a call has taken its fragment in: as before, a new one behind. */
  lemma ArrivedPositions(b: Buffer, call: Call, x: int, y: int)
    requires WF(b) && x in Arrived(b, call).states && y in Arrived(b, call).states && x != y
    ensures x in b.states && y in b.states ==> SameOrder(Arrived(b, call).order, b.order, x, y)
    ensures x in b.states && y !in b.states ==>
              Position(Arrived(b, call).order, x) < Position(Arrived(b, call).order, y)
    ensures x in b.states || y in b.states
    ensures x in Arrived(b, call).order && y in Arrived(b, call).order
  {
    ArrivedOrder(b, call);
    ArrivedState(b, call, x);
    ArrivedState(b, call, y);
    OrderIsDistinct(b);
    match call
    case CallAdd(sequence, _, _, _, _, _, _) =>
      hide WF, Arrived, Position;
      if sequence !in b.order {
        PositionAppend(b.order, sequence, x);
        PositionAppend(b.order, sequence, y);
      }
    case CallGc(now) => GcSameOrder(b, b.order, now, x, y);
    case CallClear =>
  }

  lemma AtSameOrder(b: Buffer, calls: seq<Call>, n: nat, x: int, y: int)
    requires WF(b) && 0 < n <= |calls|
    ensures SameOrder(At(b, calls, n).order, Filled(b, calls, n).order, x, y)
  {
    hide WF, Apply, Arrived, SameOrder;
    AtKeepsWF(b, calls, n - 1);
    ApplySameOrder(At(b, calls, n - 1), calls[n - 1], x, y);
  }

  /** Frames stand in the order in which they began to be held. */
  lemma {:induction false} OrderIsByStart(b: Buffer, calls: seq<Call>, n: nat, x: int, y: int)
    requires WF(b) && b.states == map[] && 0 < n <= |calls| && x != y
    requires x in Filled(b, calls, n).states && y in Filled(b, calls, n).states
    ensures Position(Filled(b, calls, n).order, x) < Position(Filled(b, calls, n).order, y) <==>
            Start(b, calls, n, x) < Start(b, calls, n, y)
  {
    hide WF, At, Arrived, Position, Start, Latest;
    var before := At(b, calls, n - 1);
    AtZero(b, calls);
    AtKeepsWF(b, calls, n - 1);
    OneCallMore(b, calls, n - 1, x);
    OneCallMore(b, calls, n - 1, y);
    ArrivedPositions(before, calls[n - 1], x, y);
    ArrivedPositions(before, calls[n - 1], y, x);
    if x in before.states && y in before.states {
      HeldWasFilled(b, calls, n - 1, x);
      HeldWasFilled(b, calls, n - 1, y);
      OrderIsByStart(b, calls, n - 1, x, y);
      AtSameOrder(b, calls, n - 1, x, y);
      OrderIsDistinct(before);
    }
  }

  /** Frame `x` was last fed before frame `y`, or at the same time and is held longer. */
  ghost predicate FedBefore(b: Buffer, calls: seq<Call>, n: nat, x: int, y: int)
    requires 0 < n <= |calls|
  {
    var p, q := calls[Latest(b, calls, n, x)], calls[Latest(b, calls, n, y)];
    && Brings(p, x) && Brings(q, y)
    && (p.now < q.now || (p.now == q.now && Start(b, calls, n, x) < Start(b, calls, n, y)))
  }

  lemma OlderIsFedBefore(b: Buffer, calls: seq<Call>, n: nat, x: int, y: int)
    requires WF(b) && b.states == map[] && 0 < n <= |calls| && x != y
    requires x in Filled(b, calls, n).states && y in Filled(b, calls, n).states
    ensures Older(Filled(b, calls, n).order, Filled(b, calls, n).states, x, y) <==> FedBefore(b, calls, n, x, y)
  {
    hide WF, Arrived, At, Position, Latest, Start;
    StateTells(b, calls, n, x);
    StateTells(b, calls, n, y);
    OrderIsByStart(b, calls, n, x, y);
  }

  lemma FilledIsGood(b: Buffer, calls: seq<Call>, n: nat)
    requires WF(b) && 0 < n <= |calls| && calls[n - 1].CallAdd?
    ensures WF(Filled(b, calls, n))
  {
    hide WF, At, Arrived;
    AtKeepsWF(b, calls, n - 1);
    ArrivedIsGood(At(b, calls, n - 1), calls[n - 1]);
  }

  lemma ArrivedIsGood(b: Buffer, call: Call)
    requires WF(b) && call.CallAdd?
    ensures WF(Arrived(b, call))
  {
    WithFragmentKeepsWF(b, call.sequence, call.name, call.total, call.expectedLen, call.index, call.payload, call.now);
  }

  lemma VictimsGo(b: Buffer, call: Call, x: int)
    requires WF(b) && call.CallAdd?
    ensures x in Victims(Arrived(b, call)) ==> x !in Apply(b, call).states
  {
    var filled := Arrived(b, call);
    hide WF, WithFragment, Excess, Victims, Add, Evict;
    WithFragmentKeepsWF(b, call.sequence, call.name, call.total, call.expectedLen, call.index, call.payload, call.now);
    AddLeaves(b, call.sequence, call.name, call.total, call.expectedLen, call.index, call.payload, call.now);
    EvictKeepsWF(filled);
  }

  /** When a call brings a fragment, a frame is evicted exactly when the counter is above the cap even
      without the bytes of the frames in front of it, and these are the frames last fed before it. */
  lemma EvictionGoesByLatest(b: Buffer, calls: seq<Call>, n: nat, k: int, x: int)
    requires WF(b) && b.states == map[] && 0 < n <= |calls| && calls[n - 1].CallAdd?
    requires k in Filled(b, calls, n).states
    ensures var filled := Filled(b, calls, n);
            && k in filled.order
            && (k in Victims(filled) <==> filled.counter - Held(OlderThan(filled, k), filled.states) > filled.maxBytes)
            && (x in OlderThan(filled, k) <==> x in filled.states && x != k && FedBefore(b, calls, n, x, k))
            && (x in Victims(filled) ==> x !in At(b, calls, n).states)
  {
    hide Filled, Held, Older, FedBefore, OlderThan, Victims, WF, At;
    var filled := Filled(b, calls, n);
    FilledIsGood(b, calls, n);
    OrderIsDistinct(filled);
    IsVictimIff(filled, k);
    OlderThanIsOlder(filled, k, x);
    NotOlderThanItself(filled.order, filled.states, k);
    if x in filled.states && x != k {
      OlderIsFedBefore(b, calls, n, x, k);
    }
    VictimsGone(b, calls, n, x);
  }

  lemma NotOlderThanItself(order: seq<int>, states: map<int, Assembly>, k: int)
    ensures !Older(order, states, k, k)
  {
  }

  lemma VictimsGone(b: Buffer, calls: seq<Call>, n: nat, x: int)
    requires WF(b) && 0 < n <= |calls| && calls[n - 1].CallAdd?
    ensures x in Victims(Filled(b, calls, n)) ==> x !in At(b, calls, n).states
  {
    hide WF, Apply, Arrived, Victims;
    AtKeepsWF(b, calls, n - 1);
    VictimsGo(At(b, calls, n - 1), calls[n - 1], x);
  }
}
