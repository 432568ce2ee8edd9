/** Vocabulary shared by every component of the model. */
module Common {

  datatype Option<+T> = None | Some(value: T)

  datatype Result<+T, +E> = Ok(value: T) | Err(error: E)

  type byte = x: int | 0 <= x < 256

  type Bytes = seq<byte>

  function Min(a: int, b: int): int {
    if a <= b then a else b
  }

  function Max(a: int, b: int): int {
    if a >= b then a else b
  }

  ghost predicate Distinct<T>(s: seq<T>) {
    forall i, j :: 0 <= i < j < |s| ==> s[i] != s[j]
  }

  ghost function Elements<T>(s: seq<T>): set<T> {
    set x | x in s
  }

  ghost function AnyOf<T>(s: set<T>): (x: T)
    requires s != {}
    ensures x in s
  {
    var x :| x in s; x
  }

  lemma FirstIsMember<T>(s: seq<T>)
    ensures s == [] || s[0] in s
  {
  }

  /** The first `x` in `s`, or -1: Python's `find`. */
  function IndexOf<T(==)>(s: seq<T>, x: T): (n: int)
    ensures -1 <= n < |s|
    ensures n == -1 <==> x !in s
    ensures n >= 0 ==> s[n] == x && x !in s[..n]
  {
    if s == [] then -1
    else if s[0] == x then 0
    else
      var n := IndexOf(s[1..], x);
      assert s == [s[0]] + s[1..];
      assert n >= 0 ==> s[..n + 1] == [s[0]] + s[1..][..n];
      if n == -1 then -1 else n + 1
  }

  lemma {:induction false} IndexOfFirst<T>(head: seq<T>, x: T, rest: seq<T>)
    requires x !in head
    ensures IndexOf(head + [x] + rest, x) == |head|
  {
    var s := head + [x] + rest;
    if head != [] {
      IndexOfFirst(head[1..], x, rest);
      assert s[0] == head[0] && s[1..] == head[1..] + [x] + rest;
    }
  }

  /** `s` without its occurrences of `x`; on a list without repetitions, Python's `list.remove`. */
  function Without<T(==,!new)>(s: seq<T>, x: T): (r: seq<T>)
    ensures forall y :: y in r <==> y in s && y != x
    ensures |r| <= |s|
    ensures x !in s ==> r == s
  {
    if s == [] then [] else (if s[0] == x then [] else [s[0]]) + Without(s[1..], x)
  }

  lemma {:induction false} WithoutIsDistinct<T(!new)>(s: seq<T>, x: T)
    requires Distinct(s)
    ensures Distinct(Without(s, x))
    ensures x in s ==> |Without(s, x)| == |s| - 1
  {
    if s != [] {
      WithoutIsDistinct(s[1..], x);
      if s[0] == x {
        assert x !in s[1..];
      } else {
        assert x in s <==> x in s[1..];
        assert s[0] !in Without(s[1..], x);
      }
    }
  }

  lemma {:induction false} DistinctSize<T>(s: seq<T>)
    requires Distinct(s)
    ensures |Elements(s)| == |s|
  {
    if s != [] {
      DistinctSize(s[1..]);
      assert Elements(s) == {s[0]} + Elements(s[1..]);
      assert s[0] !in s[1..];
    }
  }

  ghost function Indices(n: nat): (r: set<int>)
    ensures forall i :: i in r <==> 0 <= i < n
    ensures |r| == n
  {
    if n == 0 then {} else Indices(n - 1) + {n - 1}
  }

  lemma SubsetSize<T>(a: set<T>, b: set<T>)
    requires a <= b
    ensures |a| <= |b|
  {
    assert b == a + (b - a);
  }

  ghost function Count<T>(s: seq<T>, x: T): nat {
    multiset(s)[x]
  }

  function One(b: bool): nat {
    if b then 1 else 0
  }

  lemma CountTail<T>(s: seq<T>, x: T)
    requires s != []
    ensures Count(s, x) == One(s[0] == x) + Count(s[1..], x)
  {
    assert s == [s[0]] + s[1..];
  }

  lemma CountAppend<T>(s: seq<T>, y: T, x: T)
    ensures Count(s + [y], x) == Count(s, x) + One(y == x)
  {
  }

  lemma CountUpdate<T>(s: seq<T>, i: nat, y: T, x: T)
    requires i < |s|
    ensures Count(s[i := y], x) + One(s[i] == x) == Count(s, x) + One(y == x)
  {
  }

  lemma {:induction false} CountIsBounded<T>(s: seq<T>, x: T)
    ensures Count(s, x) <= |s|
    ensures Count(s, x) == |s| ==> forall i :: 0 <= i < |s| ==> s[i] == x
  {
    if s != [] {
      CountTail(s, x);
      CountIsBounded(s[1..], x);
      forall i | 0 < i < |s| && Count(s, x) == |s| ensures s[i] == x {
        assert s[i] == s[1..][i - 1];
      }
    }
  }

  lemma LastIsCounted<T>(s: seq<T>, x: T)
    ensures s != [] && s[|s| - 1] == x ==> Count(s, x) > 0
    ensures x in s <==> Count(s, x) > 0
  {
    if s != [] {
      assert s[|s| - 1] in multiset(s);
    }
  }

  lemma {:induction false} CountNone<T>(s: seq<T>, x: T)
    requires forall i :: 0 <= i < |s| ==> s[i] != x
    ensures Count(s, x) == 0
  {
    LastIsCounted(s, x);
  }

  // ---- What has happened in a run, step `j` leading from `run[j]` ----

  /** One of the first `n` steps is `on`. */
  ghost predicate Ever<S, X>(run: seq<S>, steps: seq<X>, on: (S, X) -> bool, n: nat)
    requires n <= |steps| < |run|
  {
    exists j :: 0 <= j < n && on(run[j], steps[j])
  }

  /** One of the first `n` steps is `on`, and none behind it is `off`. */
  ghost predicate Since<S, X>(run: seq<S>, steps: seq<X>, on: (S, X) -> bool, off: (S, X) -> bool, n: nat)
    requires n <= |steps| < |run|
  {
    exists j :: 0 <= j < n && on(run[j], steps[j]) && NoneBehind(run, steps, off, j, n)
  }

  ghost predicate NoneBehind<S, X>(run: seq<S>, steps: seq<X>, off: (S, X) -> bool, j: nat, n: nat)
    requires n <= |steps| < |run|
  {
    forall k :: j < k < n ==> !off(run[k], steps[k])
  }

  lemma EverStep<S, X>(run: seq<S>, steps: seq<X>, on: (S, X) -> bool, n: nat)
    requires n < |steps| < |run|
    ensures Ever(run, steps, on, n + 1) <==> on(run[n], steps[n]) || Ever(run, steps, on, n)
  {
    if on(run[n], steps[n]) {
      assert Ever(run, steps, on, n + 1);
    }
  }

  /** A step that is both turns on. */
  lemma SinceStep<S, X>(run: seq<S>, steps: seq<X>, on: (S, X) -> bool, off: (S, X) -> bool, n: nat)
    requires n < |steps| < |run|
    ensures Since(run, steps, on, off, n + 1) <==>
            on(run[n], steps[n]) || (Since(run, steps, on, off, n) && !off(run[n], steps[n]))
  {
    if on(run[n], steps[n]) {
      assert NoneBehind(run, steps, off, n, n + 1);
    }
    if Since(run, steps, on, off, n) && !off(run[n], steps[n]) {
      var j :| 0 <= j < n && on(run[j], steps[j]) && NoneBehind(run, steps, off, j, n);
      assert NoneBehind(run, steps, off, j, n + 1);
    }
    if Since(run, steps, on, off, n + 1) && !on(run[n], steps[n]) {
      var j :| 0 <= j < n + 1 && on(run[j], steps[j]) && NoneBehind(run, steps, off, j, n + 1);
      assert j < n && NoneBehind(run, steps, off, j, n) && !off(run[n], steps[n]);
    }
  }

  lemma NothingYet<S, X>(run: seq<S>, steps: seq<X>)
    requires |steps| < |run|
    ensures forall on: (S, X) -> bool {:trigger Ever(run, steps, on, 0)} :: !Ever(run, steps, on, 0)
    ensures forall on: (S, X) -> bool, off: (S, X) -> bool {:trigger Since(run, steps, on, off, 0)} ::
              !Since(run, steps, on, off, 0)
  {
  }

  // ---- First in, first out ----

  /** `queue` holds what was put, without the first `taken`. */
  ghost predicate IsFifo<T>(put: seq<T>, taken: nat, queue: seq<T>) {
    taken <= |put| && queue == put[taken..]
  }

  lemma NothingQueued<T>()
    ensures IsFifo<T>([], 0, [])
  {
  }

  lemma FifoPut<T>(put: seq<T>, taken: nat, queue: seq<T>, more: seq<T>)
    requires IsFifo(put, taken, queue)
    ensures IsFifo(put + more, taken, queue + more) && (put + more)[..taken] == put[..taken]
  {
  }

  lemma FifoTake<T>(put: seq<T>, taken: nat, queue: seq<T>)
    requires IsFifo(put, taken, queue) && queue != []
    ensures taken < |put| && queue[0] == put[taken] && IsFifo(put, taken + 1, queue[1..])
    ensures put[..taken + 1] == put[..taken] + [queue[0]]
  {
  }

  /** A step that puts `more` or takes the next entry. */
  lemma FifoStep<T>(put: seq<T>, taken: nat, queue: seq<T>, more: seq<T>, takes: bool)
    requires IsFifo(put, taken, queue) && (takes ==> queue != [] && more == [])
    ensures IsFifo(put + more, taken + One(takes), if takes then queue[1..] else queue + more)
  {
    FifoPut(put, taken, queue, more);
    if takes {
      assert put + more == put;
      FifoTake(put, taken, queue);
    }
    hide IsFifo;
  }
}
