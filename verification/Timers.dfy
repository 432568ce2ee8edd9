/** The binary min-heap of (deadline, sequence) pairs that `heapq` maintains inside a list. */
module HeapQueue {

  datatype Entry = Entry(deadline: real, sequence: int)

  /** Python's tuple order on (deadline, sequence). */
  predicate Leq(a: Entry, b: Entry) {
    a.deadline < b.deadline || (a.deadline == b.deadline && a.sequence <= b.sequence)
  }

  /** The entry at `i` does not precede its parent. */
  predicate InOrder(h: seq<Entry>, i: int)
    requires 0 < i < |h|
  {
    Leq(h[(i - 1) / 2], h[i])
  }

  ghost predicate IsHeap(h: seq<Entry>) {
    forall i :: 0 < i < |h| ==> InOrder(h, i)
  }

  lemma {:induction false} RootIsLeast(h: seq<Entry>, i: nat)
    requires IsHeap(h) && i < |h|
    ensures Leq(h[0], h[i])
  {
    if i > 0 {
      assert InOrder(h, i);
      RootIsLeast(h, (i - 1) / 2);
    }
  }

  function Swap(h: seq<Entry>, i: nat, j: nat): (r: seq<Entry>)
    requires i < |h| && j < |h|
    ensures multiset(r) == multiset(h)
  {
    h[i := h[j]][j := h[i]]
  }

  /** The children of `i`, if any, do not precede the parent of `i`. */
  predicate Skips(h: seq<Entry>, i: nat)
    requires i < |h|
  {
    i > 0 ==>
      && (2 * i + 1 < |h| ==> Leq(h[(i - 1) / 2], h[2 * i + 1]))
      && (2 * i + 2 < |h| ==> Leq(h[(i - 1) / 2], h[2 * i + 2]))
  }

  /** A heap but for the entry at `i`, which may be too small for its place. */
  ghost predicate TooSmallAt(h: seq<Entry>, i: nat) {
    i < |h| && Skips(h, i) && forall k :: 0 < k < |h| && k != i ==> InOrder(h, k)
  }

  /** A heap but for the entry at `i`, which may be too large for its place. */
  ghost predicate TooLargeAt(h: seq<Entry>, i: nat) {
    i < |h| && Skips(h, i) && forall k :: 0 < k < |h| && k != 2 * i + 1 && k != 2 * i + 2 ==> InOrder(h, k)
  }

  lemma MoveUp(h: seq<Entry>, i: nat)
    requires TooSmallAt(h, i) && i > 0 && !InOrder(h, i)
    ensures TooSmallAt(Swap(h, i, (i - 1) / 2), (i - 1) / 2)
  {
    var p := (i - 1) / 2;
    var r := Swap(h, i, p);
    assert p > 0 ==> InOrder(h, p);
    forall k | 0 < k < |h| && k != p ensures InOrder(r, k) {
      assert k != i ==> InOrder(h, k);
    }
    if p > 0 {
      assert 2 * p + 1 != i ==> InOrder(h, 2 * p + 1);
      assert 2 * p + 2 < |h| && 2 * p + 2 != i ==> InOrder(h, 2 * p + 2);
    }
  }

  lemma MoveDown(h: seq<Entry>, i: nat, c: nat)
    requires TooLargeAt(h, i) && c < |h| && (c == 2 * i + 1 || c == 2 * i + 2)
    requires 2 * i + 1 < |h| ==> Leq(h[c], h[2 * i + 1])
    requires 2 * i + 2 < |h| ==> Leq(h[c], h[2 * i + 2])
    requires !Leq(h[i], h[c])
    ensures TooLargeAt(Swap(h, i, c), c)
  {
    var r := Swap(h, i, c);
    forall k | 0 < k < |h| && k != 2 * c + 1 && k != 2 * c + 2 ensures InOrder(r, k) {
      assert k != 2 * i + 1 && k != 2 * i + 2 ==> InOrder(h, k);
    }
    assert 2 * c + 1 < |h| ==> InOrder(h, 2 * c + 1);
    assert 2 * c + 2 < |h| ==> InOrder(h, 2 * c + 2);
  }

  method Push(h: seq<Entry>, e: Entry) returns (r: seq<Entry>)
    requires IsHeap(h)
    ensures IsHeap(r)
    ensures multiset(r) == multiset(h) + multiset{e}
  {
    r := h + [e];
    var i := |h|;
    forall k | 0 < k < |h| ensures InOrder(r, k) {
      assert InOrder(h, k);
    }
    while i > 0 && !InOrder(r, i)
      invariant i >= 0 && TooSmallAt(r, i)
      invariant multiset(r) == multiset(h) + multiset{e}
    {
      MoveUp(r, i);
      r := Swap(r, i, (i - 1) / 2);
      i := (i - 1) / 2;
    }
  }

  /** The last entry takes the place of the first. */
  function LastToFront(h: seq<Entry>): (r: seq<Entry>)
    requires |h| > 1
    ensures multiset(r) == multiset(h) - multiset{h[0]}
  {
    var n := |h| - 1;
    assert h == [h[0]] + h[1..n] + [h[n]];
    [h[n]] + h[1..n]
  }

  lemma LastToFrontIsTooLarge(h: seq<Entry>)
    requires IsHeap(h) && |h| > 1
    ensures TooLargeAt(LastToFront(h), 0)
  {
    var r := LastToFront(h);
    forall k | 0 < k < |r| && k != 1 && k != 2 ensures InOrder(r, k) {
      assert InOrder(h, k);
    }
  }

  lemma Settled(h: seq<Entry>, i: nat)
    requires TooLargeAt(h, i)
    requires 2 * i + 1 < |h| ==> Leq(h[i], h[2 * i + 1])
    requires 2 * i + 2 < |h| ==> Leq(h[i], h[2 * i + 2])
    ensures IsHeap(h)
  {
  }

  method Pop(h: seq<Entry>) returns (top: Entry, r: seq<Entry>)
    requires IsHeap(h) && h != []
    ensures top == h[0]
    ensures IsHeap(r)
    ensures multiset(r) == multiset(h) - multiset{top}
  {
    top := h[0];
    if |h| == 1 {
      assert h == [top];
      return top, [];
    }
    r := LastToFront(h);
    LastToFrontIsTooLarge(h);
    var i: nat := 0;
    while 2 * i + 1 < |r|
      invariant TooLargeAt(r, i)
      invariant multiset(r) == multiset(h) - multiset{top}
      decreases |r| - i
    {
      var child := 2 * i + 1;
      if child + 1 < |r| && !Leq(r[child], r[child + 1]) {
        child := child + 1;
      }
      if Leq(r[i], r[child]) {
        break;
      }
      MoveDown(r, i, child);
      r := Swap(r, i, child);
      i := child;
    }
    Settled(r, i);
  }
}

/** common/timers.py: acknowledgement deadlines behind a lazily cleaned heap. */
module Timers {
  import opened Common
  import opened HeapQueue

  // ---- What the class stands for: a plain map from sequence to deadline ----

  /** The sequence whose (deadline, sequence) pair comes first. */
  ghost function First(d: map<int, real>): (s: int)
    requires d != map[]
    ensures s in d
    ensures forall t :: t in d ==> Leq(Entry(d[s], s), Entry(d[t], t))
    decreases |d|
  {
    var k := AnyOf(d.Keys);
    var rest := d - {k};
    if rest == map[] then
      assert d == map[k := d[k]];
      k
    else
      var f := First(rest);
      assert forall t :: t in d && t != k ==> t in rest;
      if Leq(Entry(d[k], k), Entry(d[f], f)) then k else f
  }

  ghost function MinDeadline(d: map<int, real>): (r: Option<real>)
    ensures r == None <==> d == map[]
    ensures r.Some? ==> (exists s :: s in d && d[s] == r.value) && forall s :: s in d ==> r.value <= d[s]
  {
    if d == map[] then None else Some(d[First(d)])
  }

  /** The sequences due at `now`, earliest first: repeatedly take the first one off the map. */
  ghost function DueAt(d: map<int, real>, now: real): seq<int>
    decreases |d|
  {
    if d == map[] || d[First(d)] > now then [] else [First(d)] + DueAt(d - {First(d)}, now)
  }

  lemma {:induction false} DueIsExact(d: map<int, real>, now: real)
    ensures forall s :: s in DueAt(d, now) <==> s in d && d[s] <= now
    ensures Distinct(DueAt(d, now))
    ensures forall i, j :: 0 <= i < j < |DueAt(d, now)| ==>
              DueAt(d, now)[i] in d && DueAt(d, now)[j] in d
              && Leq(Entry(d[DueAt(d, now)[i]], DueAt(d, now)[i]), Entry(d[DueAt(d, now)[j]], DueAt(d, now)[j]))
    decreases |d|
  {
    if d != map[] && d[First(d)] <= now {
      var f := First(d);
      var rest := d - {f};
      DueIsExact(rest, now);
      var tail := DueAt(rest, now);
      assert DueAt(d, now) == [f] + tail;
      assert forall s :: s in d && s != f ==> s in rest && rest[s] == d[s];
      assert forall s :: s in tail ==> s in rest && s in d;
    }
  }

  /** `DueAt` lists exactly the expired sequences, once each, by deadline and for one deadline by number. */
  lemma DueIsExactAndSorted(d: map<int, real>, now: real)
    ensures forall s :: s in DueAt(d, now) <==> s in d && d[s] <= now
    ensures Distinct(DueAt(d, now))
    ensures forall i, j :: 0 <= i < j < |DueAt(d, now)| ==> ComesFirst(d, DueAt(d, now)[i], DueAt(d, now)[j])
  {
    DueIsExact(d, now);
    var due := DueAt(d, now);
    hide DueAt;
    forall i, j | 0 <= i < j < |due| ensures ComesFirst(d, due[i], due[j]) {
      assert due[i] != due[j];
    }
  }

  predicate ComesFirst(d: map<int, real>, s: int, t: int) {
    s in d && t in d && (d[s] < d[t] || (d[s] == d[t] && s < t))
  }

  lemma FirstIsDue(d: map<int, real>, now: real)
    requires d != map[] && d[First(d)] <= now
    ensures DueAt(d, now) == [First(d)] + DueAt(d - {First(d)}, now)
  {
    hide First;
  }

  lemma NothingIsDue(d: map<int, real>, now: real)
    requires d == map[] || d[First(d)] > now
    ensures DueAt(d, now) == []
  {
    hide First;
  }

  lemma WithoutNone(d: map<int, real>)
    ensures d == d - Elements([])
  {
  }

  lemma WithoutOneMore(d: map<int, real>, due: seq<int>, s: int)
    ensures d - Elements(due) - {s} == d - Elements(due + [s])
  {
    assert Elements(due + [s]) == Elements(due) + {s};
  }

  // ---- Stale heap entries ----

  ghost predicate Stale(e: Entry, d: map<int, real>) {
    e.sequence !in d || d[e.sequence] != e.deadline
  }

  ghost function StaleCount(m: multiset<Entry>, d: map<int, real>): nat
    decreases |m|
  {
    if m == multiset{} then 0
    else
      var e :| e in m;
      (if Stale(e, d) then 1 else 0) + StaleCount(m - multiset{e}, d)
  }

  lemma StaleCountPick(m: multiset<Entry>, d: map<int, real>) returns (e: Entry)
    requires m != multiset{}
    ensures e in m && StaleCount(m, d) == (if Stale(e, d) then 1 else 0) + StaleCount(m - multiset{e}, d)
  {
    e :| e in m && StaleCount(m, d) == (if Stale(e, d) then 1 else 0) + StaleCount(m - multiset{e}, d);
  }

  lemma {:induction false} StaleCountRemove(m: multiset<Entry>, e: Entry, d: map<int, real>)
    requires e in m
    ensures StaleCount(m, d) == (if Stale(e, d) then 1 else 0) + StaleCount(m - multiset{e}, d)
    decreases |m|
  {
    hide StaleCount, Stale;
    var f := StaleCountPick(m, d);
    if f != e {
      StaleCountRemove(m - multiset{f}, e, d);
      StaleCountRemove(m - multiset{e}, f, d);
      assert m - multiset{f} - multiset{e} == m - multiset{e} - multiset{f};
    }
  }

  /** Every live deadline has its entry in the heap; entries without a live deadline may linger. */
  ghost predicate Covers(h: seq<Entry>, d: map<int, real>) {
    forall s :: s in d ==> Entry(d[s], s) in h
  }

  /** A stale entry at the top that still has a deadline has a strictly later one, which is in the
      heap already: the re-push in `pop_due` and `next_deadline` adds a second copy of it. */
  lemma StaleTopIsSuperseded(h: seq<Entry>, d: map<int, real>)
    requires IsHeap(h) && Covers(h, d) && h != []
    requires h[0].sequence in d && d[h[0].sequence] != h[0].deadline
    ensures d[h[0].sequence] > h[0].deadline
    ensures Entry(d[h[0].sequence], h[0].sequence) in h[1..]
  {
    var live := Entry(d[h[0].sequence], h[0].sequence);
    var i :| 0 <= i < |h| && h[i] == live;
    RootIsLeast(h, i);
    assert h[1..][i - 1] == live;
  }

  /** A live entry at the top is the first deadline of the map. */
  lemma LiveTopIsFirst(h: seq<Entry>, d: map<int, real>)
    requires IsHeap(h) && Covers(h, d) && h != [] && !Stale(h[0], d)
    ensures First(d) == h[0].sequence && MinDeadline(d) == Some(h[0].deadline)
  {
    var f := First(d);
    var i :| 0 <= i < |h| && h[i] == Entry(d[f], f);
    RootIsLeast(h, i);
    assert Leq(Entry(d[f], f), Entry(d[h[0].sequence], h[0].sequence));
  }

  lemma EmptyHeapCoversNothing(d: map<int, real>)
    requires Covers([], d)
    ensures d == map[]
  {
    assert forall s :: s in d ==> Entry(d[s], s) !in [];
  }

  /** Popping an entry keeps every other live entry. */
  lemma CoversAfterPop(before: seq<Entry>, after: seq<Entry>, e: Entry, d: map<int, real>)
    requires Covers(before, d)
    requires multiset(before) - multiset{e} <= multiset(after)
    requires e.sequence !in d || Entry(d[e.sequence], e.sequence) != e || e in after
    ensures Covers(after, d)
  {
    forall s | s in d ensures Entry(d[s], s) in after {
      assert Entry(d[s], s) in multiset(before);
      assert Entry(d[s], s) == e || Entry(d[s], s) in multiset(after);
    }
  }

  class AckDeadlineHeap {
    var heap: seq<Entry>
    var deadlines: map<int, real>

    ghost predicate Valid()
      reads this
    {
      IsHeap(heap) && Covers(heap, deadlines)
    }

    constructor ()
      ensures Valid() && deadlines == map[]
    {
      heap, deadlines := [], map[];
    }

    /** Registers or moves a deadline; true exactly when the earliest deadline changed. */
    method Push(sequence: int, deadline: real) returns (changed: bool)
      requires Valid()
      modifies this
      ensures Valid()
      ensures deadlines == old(deadlines)[sequence := deadline]
      ensures changed <==> MinDeadline(deadlines) != MinDeadline(old(deadlines))
    {
      var previous := NextDeadline();
      deadlines := deadlines[sequence := deadline];
      ghost var before := heap;
      heap := HeapQueue.Push(heap, Entry(deadline, sequence));
      assert forall e :: e in before ==> e in multiset(heap);
      assert Entry(deadline, sequence) in multiset(heap);
      var current := NextDeadline();
      changed := current != previous;
    }

    method Cancel(sequence: int) returns (found: bool)
      requires Valid()
      modifies this`deadlines
      ensures Valid()
      ensures found <==> sequence in old(deadlines)
      ensures deadlines == old(deadlines) - {sequence}
    {
      found := sequence in deadlines;
      deadlines := deadlines - {sequence};
    }

    /** Takes the expired sequences off, earliest first. Every round either retires a deadline or
        keeps them all and discards one stale entry, though the heap itself need not shrink. */
    method PopDue(now: real) returns (due: seq<int>)
      requires Valid()
      modifies this
      ensures Valid()
      ensures due == DueAt(old(deadlines), now)
      ensures deadlines == old(deadlines) - Elements(due)
    {
      hide DueAt, Elements, StaleCount, IsHeap, Covers, First;
      due := [];
      WithoutNone(deadlines);
      while heap != []
        invariant Valid()
        invariant due + DueAt(deadlines, now) == DueAt(old(deadlines), now)
        invariant deadlines == old(deadlines) - Elements(due)
        decreases |deadlines|, StaleCount(multiset(heap), deadlines)
      {
        var Entry(deadline, sequence) := heap[0];
        if sequence !in deadlines {
          DropTop();
          continue;
        }
        var current := deadlines[sequence];
        if current != deadline {
          ReplaceTop(current);
          continue;
        }
        LiveTopIsFirst(heap, deadlines);
        if deadline > now {
          break;
        }
        FirstIsDue(deadlines, now);
        WithoutOneMore(old(deadlines), due, sequence);
        ghost var rest := DueAt(deadlines - {sequence}, now);
        assert due + ([sequence] + rest) == due + [sequence] + rest;
        RetireTop();
        due := due + [sequence];
      }
      if heap == [] {
        EmptyHeapCoversNothing(deadlines);
      }
      NothingIsDue(deadlines, now);
      assert due + [] == due;
    }

    /** The earliest deadline; cleans stale entries off the top on the way. */
    method NextDeadline() returns (r: Option<real>)
      requires Valid()
      modifies this`heap
      ensures Valid()
      ensures r == MinDeadline(deadlines)
    {
      while heap != []
        invariant Valid()
        decreases StaleCount(multiset(heap), deadlines)
      {
        var Entry(deadline, sequence) := heap[0];
        if sequence !in deadlines {
          DropTop();
          continue;
        }
        if deadlines[sequence] != deadline {
          ReplaceTop(deadlines[sequence]);
          continue;
        }
        LiveTopIsFirst(heap, deadlines);
        return Some(deadline);
      }
      EmptyHeapCoversNothing(deadlines);
      return None;
    }

    /** Drops a top entry whose sequence has no deadline. */
    method DropTop()
      requires Valid() && heap != [] && heap[0].sequence !in deadlines
      modifies this`heap
      ensures Valid()
      ensures multiset(heap) == multiset(old(heap)) - multiset{old(heap)[0]}
      ensures StaleCount(multiset(heap), deadlines) < StaleCount(multiset(old(heap)), deadlines)
    {
      StaleCountRemove(multiset(heap), heap[0], deadlines);
      ghost var before := heap;
      var _, rest := HeapQueue.Pop(heap);
      heap := rest;
      CoversAfterPop(before, heap, before[0], deadlines);
    }

    /** Takes off a top entry that is live, together with its deadline. */
    method RetireTop()
      requires Valid() && heap != [] && !Stale(heap[0], deadlines)
      modifies this
      ensures Valid()
      ensures deadlines == old(deadlines) - {old(heap)[0].sequence}
      ensures multiset(heap) == multiset(old(heap)) - multiset{old(heap)[0]}
    {
      ghost var before := heap;
      var top, rest := HeapQueue.Pop(heap);
      heap := rest;
      deadlines := deadlines - {top.sequence};
      CoversAfterPop(before, heap, top, deadlines);
    }

    /** Swaps a top entry with an outdated deadline for one with the current deadline. */
    method ReplaceTop(current: real)
      requires Valid() && heap != []
      requires heap[0].sequence in deadlines && deadlines[heap[0].sequence] == current != heap[0].deadline
      modifies this`heap
      ensures Valid()
      ensures multiset(heap)
           == multiset(old(heap)) - multiset{old(heap)[0]} + multiset{Entry(current, old(heap)[0].sequence)}
      ensures StaleCount(multiset(heap), deadlines) < StaleCount(multiset(old(heap)), deadlines)
    {
      StaleCountRemove(multiset(heap), heap[0], deadlines);
      ghost var before := heap;
      var top, rest := HeapQueue.Pop(heap);
      heap := HeapQueue.Push(rest, Entry(current, top.sequence));
      StaleCountRemove(multiset(heap), Entry(current, top.sequence), deadlines);
      assert multiset(heap) - multiset{Entry(current, top.sequence)} == multiset(rest);
      CoversAfterPop(before, heap, top, deadlines);
    }
  }
}
