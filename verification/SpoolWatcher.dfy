/** nodes/stream_client.py: the bounded history of discovered files, four containers in step. */
module SpoolWatchers {
  import opened Common

  const HISTORY_LIMIT := 65536

  /** `known` with its order of discovery, `retired` with its members as a set. */
  datatype Watcher = Watcher(
    window: nat, known: set<string>, knownOrder: seq<string>, retired: seq<string>, retiredSet: set<string>)

  function New(window: nat): Watcher {
    Watcher(window, {}, [], [], {})
  }

  /** `_gc_known`: oldest first, until `window` names are known; a window of 0 switches it off. */
  function GcKnown(w: Watcher): Watcher
    decreases |w.knownOrder|
  {
    if w.window == 0 || |w.known| <= w.window || w.knownOrder == [] then w
    else
      var candidate := w.knownOrder[0];
      var r := w.(knownOrder := w.knownOrder[1..]);
      GcKnown(if candidate in w.retiredSet then r else r.(known := w.known - {candidate}))
  }

  function Remember(w: Watcher, name: string): (Watcher, bool) {
    if name in w.retiredSet || name in w.known then (w, false)
    else (GcKnown(w.(known := w.known + {name}, knownOrder := w.knownOrder + [name])), true)
  }

  function Forget(w: Watcher, name: string): Watcher {
    w.(known := w.known - {name}, knownOrder := Without(w.knownOrder, name))
  }

  function Retire(w: Watcher, name: string): Watcher {
    if name in w.retiredSet then w
    else if |w.retired| == HISTORY_LIMIT then
      w.(retired := w.retired[1..] + [name], retiredSet := w.retiredSet - {w.retired[0]} + {name})
    else w.(retired := w.retired + [name], retiredSet := w.retiredSet + {name})
  }

  function MarkConsumed(w: Watcher, name: string): Watcher {
    Retire(Forget(w, name), name)
  }

  /** The four containers agree: each list holds the members of its set once, no name is both known
      and retired, and both are bounded. */
  ghost predicate Valid(w: Watcher) {
    && Distinct(w.knownOrder) && (forall x :: x in w.knownOrder <==> x in w.known)
    && Distinct(w.retired) && (forall x :: x in w.retired <==> x in w.retiredSet)
    && w.known !! w.retiredSet
    && |w.retired| <= HISTORY_LIMIT
    && (w.window > 0 ==> |w.known| <= w.window)
  }

  /** `Valid` but for the bound on the known names. */
  ghost predicate Linked(w: Watcher) {
    Valid(w.(window := 0))
  }

  lemma {:induction false} GcRestoresValid(w: Watcher)
    requires Linked(w)
    ensures Valid(GcKnown(w)) && GcKnown(w).window == w.window
    ensures GcKnown(w).retired == w.retired && GcKnown(w).known <= w.known
    decreases |w.knownOrder|
  {
    DistinctSize(w.knownOrder);
    assert Elements(w.knownOrder) == w.known;
    if w.window > 0 && |w.known| > w.window {
      GcTakesOldest(w);
      GcRestoresValid(w.(knownOrder := w.knownOrder[1..], known := w.known - {w.knownOrder[0]}));
    }
  }

  /** The oldest known name is never retired: with calls one at a time the `continue` of `_gc_known` is
      not reached. */
  lemma GcTakesOldest(w: Watcher)
    requires Linked(w) && w.knownOrder != []
    ensures w.knownOrder[0] in w.known && w.knownOrder[0] !in w.retiredSet
    ensures Linked(w.(knownOrder := w.knownOrder[1..], known := w.known - {w.knownOrder[0]}))
  {
    var oldest := w.knownOrder[0];
    assert oldest in w.knownOrder && oldest !in w.knownOrder[1..];
    forall x | x in w.knownOrder ensures x == oldest || x in w.knownOrder[1..] {
      assert w.knownOrder == [oldest] + w.knownOrder[1..];
    }
  }

  /** The last `n` of the names, or all when they are not more. */
  function Newest(names: seq<string>, n: nat): seq<string> {
    if |names| <= n then names else names[|names| - n..]
  }

  lemma NewestOfTail(names: seq<string>, n: nat)
    requires |names| > n
    ensures Newest(names[1..], n) == Newest(names, n)
  {
  }

  lemma OneIsForgotten(w: Watcher)
    requires Linked(w) && w.window > 0 && |w.knownOrder| > w.window
    ensures var r := w.(knownOrder := w.knownOrder[1..], known := w.known - {w.knownOrder[0]});
            Linked(r) && GcKnown(w) == GcKnown(r)
  {
    SizeIsLength(w);
    GcTakesOldest(w);
    hide Linked;
  }

  lemma SizeIsLength(w: Watcher)
    requires Linked(w)
    ensures |w.known| == |w.knownOrder| && w.known == Elements(w.knownOrder)
  {
    DistinctSize(w.knownOrder);
    assert Elements(w.knownOrder) == w.known;
  }

  /** The collection leaves exactly the newest `window` names known, in their order, or all when they are
      not more; a window of 0 leaves all. */
  lemma {:induction false} NewestStay(w: Watcher)
    requires Linked(w)
    ensures var kept := if w.window == 0 then w.knownOrder else Newest(w.knownOrder, w.window);
            GcKnown(w).knownOrder == kept && GcKnown(w).known == Elements(kept)
    decreases |w.knownOrder|
  {
    hide Linked, Newest, Elements;
    SizeIsLength(w);
    if w.window > 0 && |w.knownOrder| > w.window {
      OneIsForgotten(w);
      NewestOfTail(w.knownOrder, w.window);
      hide GcKnown;
      NewestStay(w.(knownOrder := w.knownOrder[1..], known := w.known - {w.knownOrder[0]}));
    } else if w.window > 0 {
      ShortStays(w.knownOrder, w.window);
    }
  }

  lemma ShortStays(names: seq<string>, n: nat)
    requires |names| <= n
    ensures Newest(names, n) == names
  {
  }

  lemma RememberKeepsValid(w: Watcher, name: string)
    requires Valid(w)
    ensures Valid(Remember(w, name).0) && Remember(w, name).0.window == w.window
    ensures Remember(w, name).0.retired == w.retired && Remember(w, name).0.retiredSet == w.retiredSet
  {
    if name !in w.retiredSet && name !in w.known {
      var r := w.(known := w.known + {name}, knownOrder := w.knownOrder + [name]);
      assert Linked(r);
      GcRestoresValid(r);
      GcKeepsRetiredSet(r);
    }
  }

  lemma {:induction false} GcKeepsRetiredSet(w: Watcher)
    ensures GcKnown(w).retiredSet == w.retiredSet
    decreases |w.knownOrder|
  {
    if !(w.window == 0 || |w.known| <= w.window || w.knownOrder == []) {
      var candidate := w.knownOrder[0];
      var r := w.(knownOrder := w.knownOrder[1..]);
      GcKeepsRetiredSet(if candidate in w.retiredSet then r else r.(known := w.known - {candidate}));
    }
  }

  lemma ForgetKeepsValid(w: Watcher, name: string)
    requires Valid(w)
    ensures Valid(Forget(w, name)) && name !in Forget(w, name).known
  {
    WithoutIsDistinct(w.knownOrder, name);
    SubsetSize(w.known - {name}, w.known);
  }

  lemma RetireKeepsValid(w: Watcher, name: string)
    requires Valid(w) && name !in w.known
    ensures Valid(Retire(w, name)) && name in Retire(w, name).retiredSet
  {
    if name !in w.retiredSet && |w.retired| == HISTORY_LIMIT {
      RetiredTail(w);
      assert forall x :: x in w.retired[1..] + [name] <==> x in w.retired[1..] || x == name;
    }
  }

  /** The oldest retired name is in the list once. */
  lemma RetiredTail(w: Watcher)
    requires Valid(w) && w.retired != []
    ensures Distinct(w.retired[1..])
    ensures forall x :: x in w.retired[1..] <==> x in w.retiredSet && x != w.retired[0]
    ensures w.retired[0] in w.retiredSet
  {
    var oldest := w.retired[0];
    assert w.retired == [oldest] + w.retired[1..];
    assert oldest in w.retired && oldest !in w.retired[1..];
  }

  lemma ConsumeKeepsValid(w: Watcher, name: string)
    requires Valid(w)
    ensures Valid(MarkConsumed(w, name)) && MarkConsumed(w, name).window == w.window
  {
    hide Valid;
    ForgetKeepsValid(w, name);
    RetireKeepsValid(Forget(w, name), name);
  }

  // ---- Runs ----

  datatype Event = Found(name: string) | Consumed(name: string)

  function Apply(w: Watcher, e: Event): Watcher {
    match e
    case Found(name) => Remember(w, name).0
    case Consumed(name) => MarkConsumed(w, name)
  }

  function After(window: nat, events: seq<Event>): Watcher {
    if events == [] then New(window) else Apply(After(window, events[..|events| - 1]), events[|events| - 1])
  }

  /** Event number `i` is the discovery of a file that is accepted. */
  predicate Accepted(window: nat, events: seq<Event>, i: nat)
    requires i < |events|
  {
    events[i].Found? && Remember(After(window, events[..i]), events[i].name).1
  }

  /** In every run the containers agree and are bounded. */
  lemma {:induction false} RunStaysValid(window: nat, events: seq<Event>)
    ensures Valid(After(window, events)) && After(window, events).window == window
  {
    if events != [] {
      var before := After(window, events[..|events| - 1]);
      RunStaysValid(window, events[..|events| - 1]);
      match events[|events| - 1]
      case Found(name) => RememberKeepsValid(before, name);
      case Consumed(name) => ConsumeKeepsValid(before, name);
    }
  }

  // ---- Without garbage collection: a seen-set, up to the history limit ----

  ghost function ConsumedNames(events: seq<Event>): set<string> {
    set i | 0 <= i < |events| && events[i].Consumed? :: events[i].name
  }

  ghost function FoundNames(events: seq<Event>): set<string> {
    set i | 0 <= i < |events| && events[i].Found? :: events[i].name
  }

  lemma NamesGrow(events: seq<Event>)
    requires events != []
    ensures var e := events[|events| - 1];
            var before := events[..|events| - 1];
            && ConsumedNames(events) == ConsumedNames(before) + (if e.Consumed? then {e.name} else {})
            && FoundNames(events) == FoundNames(before) + (if e.Found? then {e.name} else {})
  {
    var n := |events| - 1;
    var before := events[..n];
    assert forall i :: 0 <= i < n ==> before[i] == events[i];
    forall x | x in ConsumedNames(before) ensures x in ConsumedNames(events) {
      var i :| 0 <= i < n && before[i].Consumed? && before[i].name == x;
      assert events[i].name == x;
    }
    forall x | x in FoundNames(before) ensures x in FoundNames(events) {
      var i :| 0 <= i < n && before[i].Found? && before[i].name == x;
      assert events[i].name == x;
    }
    forall x | x in ConsumedNames(events) ensures x in ConsumedNames(before) || events[n] == Consumed(x) {
      var i :| 0 <= i <= n && events[i].Consumed? && events[i].name == x;
      assert i < n ==> before[i].name == x;
    }
    forall x | x in FoundNames(events) ensures x in FoundNames(before) || events[n] == Found(x) {
      var i :| 0 <= i <= n && events[i].Found? && events[i].name == x;
      assert i < n ==> before[i].name == x;
    }
  }

  lemma RetireWithRoom(w: Watcher, name: string)
    requires Valid(w) && |w.retiredSet + {name}| <= HISTORY_LIMIT
    ensures MarkConsumed(w, name).retiredSet == w.retiredSet + {name}
    ensures MarkConsumed(w, name).known == w.known - {name}
  {
    RetiredSize(w);
    hide Valid;
    if name !in w.retiredSet {
      assert |w.retiredSet + {name}| == |w.retiredSet| + 1;
    }
  }

  lemma RememberWithoutGc(w: Watcher, name: string)
    requires w.window == 0
    ensures var (r, fresh_) := Remember(w, name);
            && r.retiredSet == w.retiredSet
            && r.known == (if name in w.retiredSet then w.known else w.known + {name})
            && fresh_ == (name !in w.known + w.retiredSet)
  {
  }

  /** One event, on the sets alone. */
  lemma SeenSetStep(w: Watcher, found: set<string>, consumed: set<string>, e: Event)
    requires Valid(w) && w.window == 0 && w.retiredSet == consumed && w.known == found - consumed
    requires e.Consumed? ==> |consumed + {e.name}| <= HISTORY_LIMIT
    ensures var r := Apply(w, e);
            var consumedThen := consumed + (if e.Consumed? then {e.name} else {});
            && r.retiredSet == consumedThen
            && r.known == found + (if e.Found? then {e.name} else {}) - consumedThen
  {
    if e.Consumed? {
      RetireWithRoom(w, e.name);
      hide Valid, MarkConsumed, Remember;
      assert found - consumed - {e.name} == found - (consumed + {e.name});
    } else {
      RememberWithoutGc(w, e.name);
      hide Valid, MarkConsumed, Remember;
      assert e.name in consumed ==> found - consumed == found + {e.name} - consumed;
      assert e.name !in consumed ==> found - consumed + {e.name} == found + {e.name} - consumed;
    }
  }

  /** As long as at most 65536 different names were ever consumed, the watcher knows and has retired
      exactly what an unbounded set of everything found or consumed would hold. */
  lemma {:induction false} AgreesWithSeenSet(events: seq<Event>)
    requires |ConsumedNames(events)| <= HISTORY_LIMIT
    ensures var w := After(0, events);
            && w.retiredSet == ConsumedNames(events)
            && w.known == FoundNames(events) - ConsumedNames(events)
  {
    if events != [] {
      var before := events[..|events| - 1];
      NamesGrow(events);
      hide ConsumedNames, FoundNames, Valid, Apply;
      SubsetSize(ConsumedNames(before), ConsumedNames(events));
      AgreesWithSeenSet(before);
      RunStaysValid(0, before);
      SeenSetStep(After(0, before), FoundNames(before), ConsumedNames(before), events[|events| - 1]);
    }
  }

  /** So a name is accepted exactly when it was never found or consumed before. */
  lemma AcceptedIffNew(events: seq<Event>, i: nat)
    requires i < |events| && events[i].Found? && |ConsumedNames(events[..i])| <= 65536
    ensures Accepted(0, events, i)
       <==> events[i].name !in FoundNames(events[..i]) + ConsumedNames(events[..i])
  {
    AgreesWithSeenSet(events[..i]);
    RunStaysValid(0, events[..i]);
    RememberWithoutGc(After(0, events[..i]), events[i].name);
    hide ConsumedNames, FoundNames, Valid, Remember, After;
  }

  lemma RetiredSize(w: Watcher)
    requires Valid(w)
    ensures |w.retiredSet| == |w.retired|
  {
    DistinctSize(w.retired);
    assert Elements(w.retired) == w.retiredSet;
  }

  /** The names other than `name` consumed after event `k` and before event `t`. */
  ghost function OthersConsumed(events: seq<Event>, k: nat, t: nat, name: string): set<string>
    requires t <= |events|
  {
    set i | k < i < t && events[i].Consumed? && events[i].name != name :: events[i].name
  }

  lemma OthersGrow(events: seq<Event>, k: nat, t: nat, name: string)
    requires k < t < |events|
    ensures OthersConsumed(events, k, t + 1, name)
         == OthersConsumed(events, k, t, name)
            + (if events[t].Consumed? && events[t].name != name then {events[t].name} else {})
  {
    forall x | x in OthersConsumed(events, k, t, name) ensures x in OthersConsumed(events, k, t + 1, name) {
      var i :| k < i < t && events[i].Consumed? && events[i].name != name && events[i].name == x;
      assert k < i < t + 1;
    }
  }

  /** `name` is retired, and all names retired after it are among `others`. */
  ghost predicate RetiredBefore(w: Watcher, name: string, others: set<string>) {
    exists p :: 0 <= p < |w.retired| && w.retired[p] == name
                && forall m :: p < m < |w.retired| ==> w.retired[m] in others
  }

  /** Where a name accepted before event `t` has got to: known still, or consumed at `k` and since then
      retired in front of other names only, or pushed out by enough of them. */
  ghost predicate Followed(events: seq<Event>, i: nat, t: nat, name: string)
    requires t <= |events|
  {
    var w := After(0, events[..t]);
    name in w.known
    || exists k :: i < k < t && events[k] == Consumed(name) && PushedOut(events, k, t, name)
  }

  ghost predicate PushedOut(events: seq<Event>, k: nat, t: nat, name: string)
    requires t <= |events|
  {
    var others := OthersConsumed(events, k, t, name);
    |others| >= HISTORY_LIMIT || RetiredBefore(After(0, events[..t]), name, others)
  }

  /** One more name retired behind `name`, which stays in the list. */
  lemma PushWithRoom(w: Watcher, name: string, others: set<string>, x: string)
    requires RetiredBefore(w, name, others) && x != name && w.retired != []
    requires |w.retired| < HISTORY_LIMIT || w.retired[0] != name
    ensures RetiredBefore(Retire(w, x), name, others + {x})
  {
    var p :| 0 <= p < |w.retired| && w.retired[p] == name && forall m :: p < m < |w.retired| ==> w.retired[m] in others;
    var r := Retire(w, x);
    if x in w.retiredSet || |w.retired| != HISTORY_LIMIT {
      assert r.retired[p] == name;
    } else {
      assert r.retired[p - 1] == name;
      forall m | p - 1 < m < |r.retired| ensures r.retired[m] in others + {x} {
        assert m < |w.retired| - 1 ==> r.retired[m] == w.retired[m + 1];
      }
    }
  }

  /** When a full history pushes `name` out, 65536 other names came after it. */
  lemma PushOut(w: Watcher, name: string, others: set<string>, x: string)
    requires Valid(w) && RetiredBefore(w, name, others) && name !in others
    requires |w.retired| == HISTORY_LIMIT && w.retired[0] == name && x != name && x !in w.retiredSet
    ensures |others + {x}| >= HISTORY_LIMIT
  {
    RetiredTail(w);
    var p :| 0 <= p < |w.retired| && w.retired[p] == name && forall m :: p < m < |w.retired| ==> w.retired[m] in others;
    assert p == 0;
    var behind := w.retired[1..];
    assert forall m :: 0 <= m < |behind| ==> behind[m] == w.retired[m + 1];
    hide Valid;
    DistinctSize(behind);
    var e := Elements(behind);
    assert x !in e && e <= others;
    assert |e + {x}| == HISTORY_LIMIT;
    SubsetSize(e + {x}, others + {x});
  }

  lemma PushOne(w: Watcher, name: string, others: set<string>, x: string)
    requires Valid(w) && RetiredBefore(w, name, others) && x != name && name !in others
    ensures |others + {x}| >= HISTORY_LIMIT || RetiredBefore(MarkConsumed(w, x), name, others + {x})
  {
    var f := Forget(w, x);
    ForgetKeepsValid(w, x);
    assert RetiredBefore(f, name, others) && w.retired != [];
    hide RetiredBefore, Valid;
    if |w.retired| < HISTORY_LIMIT || w.retired[0] != name {
      PushWithRoom(f, name, others, x);
    } else if x in w.retiredSet {
      RetiredBeforeMore(f, name, others, others + {x});
    } else {
      assert |w.retired| == HISTORY_LIMIT by { RetiredIsBounded(w); }
      PushOut(f, name, others, x);
    }
  }

  lemma RetiredIsBounded(w: Watcher)
    requires Valid(w)
    ensures |w.retired| <= HISTORY_LIMIT
  {
  }

  lemma RetiredBeforeMore(w: Watcher, name: string, others: set<string>, more: set<string>)
    requires RetiredBefore(w, name, others) && others <= more
    ensures RetiredBefore(w, name, more)
  {
  }

  lemma ConsumeKnown(w: Watcher, name: string)
    requires Valid(w) && name in w.known
    ensures RetiredBefore(MarkConsumed(w, name), name, {})
  {
    var r := MarkConsumed(w, name);
    assert r.retired[|r.retired| - 1] == name;
  }

  lemma FoundKeepsRetired(w: Watcher, name: string)
    requires Valid(w)
    ensures Remember(w, name).0.retired == w.retired
    ensures w.window == 0 ==> w.known <= Remember(w, name).0.known
  {
    RememberKeepsValid(w, name);
  }

  /** One event more behind a retired `name`. */
  lemma PushedOn(w: Watcher, e: Event, name: string, others: set<string>)
    requires Valid(w) && RetiredBefore(w, name, others) && name !in others && name !in w.known
    ensures var more := others + if e.Consumed? && e.name != name then {e.name} else {};
            |more| >= HISTORY_LIMIT || RetiredBefore(Apply(w, e), name, more)
  {
    match e
    case Found(x) =>
      FoundKeepsRetired(w, x);
      hide Valid, Remember;
      assert others + {} == others;
    case Consumed(x) =>
      if x != name {
        PushOne(w, name, others, x);
      } else {
        assert name in w.retired;
        assert MarkConsumed(w, name).retired == w.retired;
        assert others + {} == others;
      }
      hide Valid, MarkConsumed;
  }

  lemma PushedOutStep(events: seq<Event>, k: nat, t: nat, name: string)
    requires k < t < |events| && PushedOut(events, k, t, name)
    requires name !in After(0, events[..t]).known
    ensures PushedOut(events, k, t + 1, name)
  {
    var w := After(0, events[..t]);
    var others := OthersConsumed(events, k, t, name);
    assert name !in others;
    assert events[..t + 1][..t] == events[..t];
    assert After(0, events[..t + 1]) == Apply(w, events[t]);
    RunStaysValid(0, events[..t]);
    OthersGrow(events, k, t, name);
    hide OthersConsumed, After, Apply, Valid, RetiredBefore;
    SubsetSize(others, OthersConsumed(events, k, t + 1, name));
    if |others| < HISTORY_LIMIT {
      PushedOn(w, events[t], name, others);
    }
  }

  /** A known name stays known until it is consumed, and then stands last in the history. */
  lemma KnownStep(w: Watcher, e: Event, name: string)
    requires Valid(w) && w.window == 0 && name in w.known
    ensures if e == Consumed(name) then RetiredBefore(Apply(w, e), name, {}) else name in Apply(w, e).known
  {
    match e
    case Found(x) =>
      FoundKeepsRetired(w, x);
      hide Valid, Remember;
    case Consumed(x) =>
      if x == name {
        ConsumeKnown(w, name);
      }
      hide Valid;
  }

  lemma FollowedKnown(events: seq<Event>, i: nat, t: nat, name: string)
    requires i < t < |events| && name in After(0, events[..t]).known
    ensures Followed(events, i, t + 1, name)
  {
    var w := After(0, events[..t]);
    assert events[..t + 1][..t] == events[..t];
    assert After(0, events[..t + 1]) == Apply(w, events[t]);
    RunStaysValid(0, events[..t]);
    hide Valid, After, Apply, RetiredBefore;
    KnownStep(w, events[t], name);
    if events[t] == Consumed(name) {
      assert OthersConsumed(events, t, t + 1, name) == {};
      assert PushedOut(events, t, t + 1, name);
    }
  }

  lemma FollowedStep(events: seq<Event>, i: nat, t: nat, name: string)
    requires i < t < |events| && Followed(events, i, t, name)
    ensures Followed(events, i, t + 1, name)
  {
    hide After, PushedOut;
    if name in After(0, events[..t]).known {
      FollowedKnown(events, i, t, name);
    } else {
      var k :| i < k < t && events[k] == Consumed(name) && PushedOut(events, k, t, name);
      PushedOutStep(events, k, t, name);
    }
  }

  lemma NowKnown(events: seq<Event>, i: nat)
    requires i < |events| && Accepted(0, events, i)
    ensures Followed(events, i, i + 1, events[i].name)
  {
    assert events[..i + 1][..i] == events[..i];
    RunStaysValid(0, events[..i]);
    RememberWithoutGc(After(0, events[..i]), events[i].name);
    assert After(0, events[..i + 1]) == Apply(After(0, events[..i]), events[i]);
    hide Valid, Remember, After, PushedOut;
  }

  lemma {:induction false} AcceptedIsFollowed(events: seq<Event>, i: nat, t: nat)
    requires i < t <= |events| && Accepted(0, events, i)
    ensures Followed(events, i, t, events[i].name)
    decreases t
  {
    hide Followed;
    if t == i + 1 {
      NowKnown(events, i);
    } else {
      AcceptedIsFollowed(events, i, t - 1);
      FollowedStep(events, i, t - 1, events[i].name);
    }
  }

  /** With garbage collection off a name is accepted a second time only after it was consumed and
      after that 65536 other names were. */
  lemma AcceptedAtMostOnce(events: seq<Event>, i: nat, j: nat) returns (k: nat)
    requires i < j < |events| && Accepted(0, events, i) && Accepted(0, events, j)
    requires events[i].name == events[j].name
    ensures i < k < j && events[k] == Consumed(events[i].name)
    ensures |OthersConsumed(events, k, j, events[i].name)| >= 65536
  {
    var name := events[i].name;
    AcceptedIsFollowed(events, i, j);
    RunStaysValid(0, events[..j]);
    k :| i < k < j && events[k] == Consumed(name) && PushedOut(events, k, j, name);
  }

  // ---- The bound is attained ----

  /** `name` is found and consumed, and then each of `others` is consumed. */
  function History(name: string, others: seq<string>): seq<Event> {
    if others == [] then [Found(name), Consumed(name)]
    else History(name, others[..|others| - 1]) + [Consumed(others[|others| - 1])]
  }

  lemma HistoryStart(name: string)
    ensures After(0, History(name, [])).known == {} && After(0, History(name, [])).retired == [name]
    ensures After(0, [Found(name)]).known == {name}
  {
    var events := History(name, []);
    assert events[..1] == [Found(name)] && events[..1][..0] == [];
    assert After(0, []) == New(0);
    RememberWithoutGc(New(0), name);
    assert Without([name], name) == [] by { assert Without([name][1..], name) == []; }
    assert After(0, [Found(name)]) == Remember(New(0), name).0;
    var w := After(0, [Found(name)]);
    assert After(0, events) == MarkConsumed(w, name);
  }

  lemma AfterHistory(name: string, others: seq<string>)
    requires others != []
    ensures After(0, History(name, others))
         == MarkConsumed(After(0, History(name, others[..|others| - 1])), others[|others| - 1])
  {
    var before := History(name, others[..|others| - 1]);
    var events := History(name, others);
    assert events[..|events| - 1] == before;
    hide MarkConsumed, History;
  }

  lemma LastIsNew(name: string, others: seq<string>)
    requires Distinct(others) && name !in others && others != []
    ensures var n := |others| - 1;
            && Distinct(others[..n]) && name !in others[..n]
            && others[n] !in [name] + others[..n]
            && [name] + others[..n] + [others[n]] == [name] + others
            && ([name] + others[..n])[1..] + [others[n]] == others
  {
    var n := |others| - 1;
    assert forall x :: x in others[..n] ==> x in others;
    assert others[n] in others;
  }

  /** Up to the limit they stand behind `name` in the history. */
  lemma {:induction false} HistoryIsKept(name: string, others: seq<string>)
    requires Distinct(others) && name !in others && |others| < HISTORY_LIMIT
    ensures var w := After(0, History(name, others)); Valid(w) && w.known == {} && w.retired == [name] + others
  {
    RunStaysValid(0, History(name, others));
    if others == [] {
      HistoryStart(name);
      assert [name] + others == [name];
    } else {
      hide Valid, After, History, MarkConsumed, Distinct;
      var n := |others| - 1;
      LastIsNew(name, others);
      HistoryIsKept(name, others[..n]);
      AfterHistory(name, others);
      NewNameIsRetired(After(0, History(name, others[..n])), others[n]);
    }
  }

  lemma NewNameIsRetired(w: Watcher, x: string)
    requires Valid(w) && w.known == {} && x !in w.retired
    ensures var r := MarkConsumed(w, x);
            && r.known == {}
            && r.retired == (if |w.retired| == HISTORY_LIMIT then w.retired[1..] else w.retired) + [x]
  {
    assert x !in w.retiredSet;
    assert w.known - {x} == {};
  }

  /** A name found and consumed is accepted again once 65536 other names were consumed after it. */
  lemma AcceptedAgain(name: string, others: seq<string>)
    requires Distinct(others) && name !in others && |others| == HISTORY_LIMIT
    ensures var events := History(name, others) + [Found(name)];
            Accepted(0, events, |events| - 1) && |events| == HISTORY_LIMIT + 3
  {
    var n := |others| - 1;
    var events := History(name, others) + [Found(name)];
    assert events[..|events| - 1] == History(name, others);
    HistoryLength(name, others);
    RunStaysValid(0, History(name, others));
    hide After, History, MarkConsumed, Valid, Distinct;
    LastIsNew(name, others);
    HistoryIsKept(name, others[..n]);
    AfterHistory(name, others);
    NewNameIsRetired(After(0, History(name, others[..n])), others[n]);
    NeitherKnownNorRetired(After(0, History(name, others)), name);
  }

  lemma NeitherKnownNorRetired(w: Watcher, name: string)
    requires Valid(w) && name !in w.known && name !in w.retired
    ensures Remember(w, name).1
  {
  }

  lemma {:induction false} HistoryLength(name: string, others: seq<string>)
    ensures |History(name, others)| == |others| + 2
  {
    if others != [] {
      HistoryLength(name, others[..|others| - 1]);
    }
  }

  lemma EnoughNames(name: string, n: nat) returns (others: seq<string>)
    ensures Distinct(others) && name !in others && |others| == n
  {
    others := seq(n, i requires 0 <= i < n => seq(|name| + 1 + i, _ => 'x'));
    assert forall i :: 0 <= i < n ==> |others[i]| == |name| + 1 + i;
  }

  /** Every name has such a run: accepted first and accepted last. */
  lemma AcceptedTwice(name: string) returns (events: seq<Event>)
    ensures |events| == HISTORY_LIMIT + 3 && events[0] == events[|events| - 1] == Found(name)
    ensures Accepted(0, events, 0) && Accepted(0, events, |events| - 1)
  {
    var others := EnoughNames(name, HISTORY_LIMIT);
    AcceptedAgain(name, others);
    events := History(name, others) + [Found(name)];
    HistoryBegins(name, others);
    hide History, Accepted;
    FirstIsAccepted(name, events);
  }

  lemma {:induction false} HistoryBegins(name: string, others: seq<string>)
    ensures |History(name, others)| > 0 && History(name, others)[0] == Found(name)
  {
    if others != [] {
      HistoryBegins(name, others[..|others| - 1]);
    }
  }

  lemma FirstIsAccepted(name: string, events: seq<Event>)
    requires events != [] && events[0] == Found(name)
    ensures Accepted(0, events, 0)
  {
    assert events[..0] == [];
  }

  // ---- The object ----

  class SpoolWatcher {
    const window: nat
    var known: set<string>
    var knownOrder: seq<string>
    var retired: seq<string>
    var retiredSet: set<string>

    constructor (window: nat)
      ensures View() == New(window)
    {
      this.window := window;
      known, knownOrder, retired, retiredSet := {}, [], [], {};
    }

    function View(): Watcher
      reads this
    {
      Watcher(window, known, knownOrder, retired, retiredSet)
    }

    method RememberName(name: string) returns (fresh_: bool)
      modifies this
      ensures (View(), fresh_) == Remember(old(View()), name)
    {
      if name in retiredSet {
        return false;
      }
      if name in known {
        return false;
      }
      known := known + {name};
      knownOrder := knownOrder + [name];
      Collect();
      return true;
    }

    method Collect()
      modifies this
      ensures View() == GcKnown(old(View()))
    {
      if window == 0 {
        return;
      }
      while |known| > window && knownOrder != []
        invariant GcKnown(View()) == GcKnown(old(View()))
        decreases |knownOrder|
      {
        var candidate := knownOrder[0];
        knownOrder := knownOrder[1..];
        if candidate in retiredSet {
          continue;
        }
        known := known - {candidate};
      }
    }

    method Consume(name: string)
      requires Valid(View())
      modifies this
      ensures View() == MarkConsumed(old(View()), name)
    {
      known := known - {name};
      knownOrder := Without(knownOrder, name);
      if name in retiredSet {
        return;
      }
      if |retired| == HISTORY_LIMIT {
        var oldest := retired[0];
        retired := retired[1..];
        retiredSet := retiredSet - {oldest};
      }
      retired := retired + [name];
      retiredSet := retiredSet + {name};
    }
  }
}
