/** nodes/stream_client.py: interpolated latency percentiles, over real numbers. */
module Percentiles {
  import opened Common

  function Clamp(p: real): real {
    if p < 0.0 then 0.0 else if p > 100.0 then 100.0 else p
  }

  function Ceiling(x: real): int {
    -(-x).Floor
  }

  function Between(a: real, b: real, t: real): real {
    a + (b - a) * t
  }

  /** The value at position `x` of the samples, interpolated between its two neighbours. */
  function At(samples: seq<real>, x: real): real
    requires 0.0 <= x <= (|samples| - 1) as real
  {
    var lower, upper := x.Floor, Ceiling(x);
    if lower == upper then samples[lower]
    else Between(samples[lower], samples[upper], x - lower as real)
  }

  function Share(whole: real, percent: real): real {
    whole * percent / 100.0
  }

  lemma ShareIsMonotone(whole: real, p: real, q: real)
    requires whole >= 0.0 && p <= q
    ensures Share(whole, p) <= Share(whole, q)
    ensures Share(whole, 0.0) == 0.0 && Share(whole, 100.0) == whole
  {
    ProductIsMonotone(whole, p, q);
  }

  function Position(n: nat, p: real): (x: real)
    requires n > 0
    ensures 0.0 <= x <= (n - 1) as real
  {
    var c, last := Clamp(p), (n - 1) as real;
    ShareIsMonotone(last, 0.0, c);
    ShareIsMonotone(last, c, 100.0);
    Share(last, c)
  }

  function Percentile(samples: seq<real>, p: real): Option<real> {
    if samples == [] then None else Some(At(samples, Position(|samples|, p)))
  }

  ghost predicate Ascending(s: seq<real>) {
    forall i, j :: 0 <= i <= j < |s| ==> s[i] <= s[j]
  }

  lemma ProductIsMonotone(d: real, f: real, g: real)
    requires d >= 0.0 && f <= g
    ensures d * f <= d * g
  {
    assert d * (g - f) >= 0.0;
  }

  lemma BetweenIsMonotone(a: real, b: real, t: real, u: real)
    requires a <= b && t <= u
    ensures Between(a, b, t) <= Between(a, b, u)
    ensures Between(a, b, 0.0) == a && Between(a, b, 1.0) == b
  {
    ProductIsMonotone(b - a, t, u);
  }

  lemma PositionIsMonotone(n: nat, p: real, q: real)
    requires n > 0 && p <= q
    ensures Position(n, p) <= Position(n, q)
    ensures p <= 0.0 ==> Position(n, p) == 0.0
    ensures q >= 100.0 ==> Position(n, q) == (n - 1) as real
  {
    ShareIsMonotone((n - 1) as real, Clamp(p), Clamp(q));
    hide Share;
  }

  /** Both neighbours bound the interpolated value. */
  lemma BetweenNeighbours(s: seq<real>, x: real)
    requires Ascending(s) && 0.0 <= x <= (|s| - 1) as real
    ensures s[x.Floor] <= At(s, x) <= s[Ceiling(x)]
  {
    hide Between;
    var lower, upper := x.Floor, Ceiling(x);
    if lower != upper {
      BetweenIsMonotone(s[lower], s[upper], 0.0, x - lower as real);
      BetweenIsMonotone(s[lower], s[upper], x - lower as real, 1.0);
    }
  }

  lemma AtIsMonotone(s: seq<real>, x: real, y: real)
    requires Ascending(s) && 0.0 <= x <= y <= (|s| - 1) as real
    ensures At(s, x) <= At(s, y)
  {
    BetweenNeighbours(s, x);
    BetweenNeighbours(s, y);
    hide Between;
    if x.Floor < y.Floor {
      assert s[Ceiling(x)] <= s[y.Floor];
    } else if Ceiling(x) == x.Floor {
      assert s[x.Floor] <= At(s, y);
    } else {
      var lower, upper := x.Floor, Ceiling(x);
      assert y.Floor == lower && Ceiling(y) == upper;
      BetweenIsMonotone(s[lower], s[upper], x - lower as real, y - lower as real);
    }
  }

  /** On ascending samples percentiles grow with the percentage asked for, in or out of 0..100, and lie
      between the first sample and the last, which are those for 0 and 100. */
  lemma PercentilesAreMonotone(s: seq<real>, p: real, q: real)
    requires Ascending(s) && s != [] && p <= q
    ensures Percentile(s, p).value <= Percentile(s, q).value
    ensures s[0] <= Percentile(s, p).value && Percentile(s, q).value <= s[|s| - 1]
    ensures p <= 0.0 ==> Percentile(s, p).value == s[0]
    ensures q >= 100.0 ==> Percentile(s, q).value == s[|s| - 1]
  {
    var last := (|s| - 1) as real;
    var x, y := Position(|s|, p), Position(|s|, q);
    PositionIsMonotone(|s|, p, q);
    hide Position, Clamp;
    AtIsMonotone(s, x, y);
    AtIsMonotone(s, 0.0, x);
    AtIsMonotone(s, y, last);
  }

  /** The percentage of the `k`-th of `n` evenly spaced samples gives that sample. */
  lemma PercentileOfRank(s: seq<real>, k: nat)
    requires k < |s| && |s| > 1
    ensures Percentile(s, 100.0 * k as real / (|s| - 1) as real) == Some(s[k])
  {
    var last := (|s| - 1) as real;
    var p := 100.0 * k as real / last;
    Quotient(100.0 * k as real, last, 100.0);
    PositionOfRank(|s|, k as real, p);
  }

  /** A percentage between the ranks of two neighbouring samples gives the value that divides the way from
      one to the other in the same proportion. */
  lemma PercentileBetweenRanks(s: seq<real>, k: nat, t: real)
    requires k + 1 < |s| && 0.0 <= t <= 1.0
    ensures Percentile(s, 100.0 * (k as real + t) / (|s| - 1) as real) == Some((1.0 - t) * s[k] + t * s[k + 1])
  {
    var last, x := (|s| - 1) as real, k as real + t;
    var p := 100.0 * x / last;
    Quotient(100.0 * x, last, 100.0);
    PositionOfRank(|s|, x, p);
    hide Position, Percentile, At;
    PercentileAt(s, p);
    AtDivides(s, k, t);
  }

  lemma PercentileAt(s: seq<real>, p: real)
    requires s != []
    ensures Percentile(s, p) == Some(At(s, Position(|s|, p)))
  {
    hide At, Position;
  }

  lemma AtDivides(s: seq<real>, k: nat, t: real)
    requires k + 1 < |s| && 0.0 <= t <= 1.0
    ensures At(s, k as real + t) == (1.0 - t) * s[k] + t * s[k + 1]
  {
    var x := k as real + t;
    if t == 1.0 {
      assert x == (k + 1) as real;
    } else if 0.0 < t {
      assert x.Floor == k && Ceiling(x) == k + 1;
      Divides(s[k], s[k + 1], t);
    }
  }

  lemma Divides(a: real, b: real, t: real)
    ensures Between(a, b, t) == (1.0 - t) * a + t * b
  {
  }

  lemma PositionOfRank(n: nat, x: real, p: real)
    requires n > 0 && 0.0 <= p <= 100.0 && (n - 1) as real * p == 100.0 * x
    ensures Position(n, p) == x
  {
    assert Position(n, p) == (n - 1) as real * p / 100.0;
  }

  lemma Quotient(a: real, b: real, most: real)
    requires b > 0.0 && 0.0 <= a <= most * b
    ensures 0.0 <= a / b <= most && b * (a / b) == a
  {
    var q := a / b;
    assert q * b == a;
    if q > most {
      assert (q - most) * b > 0.0;
    }
  }

  // ---- As reported ----

  function Insert(x: real, s: seq<real>): seq<real> {
    if s == [] || x <= s[0] then [x] + s else [s[0]] + Insert(x, s[1..])
  }

  function Sorted(s: seq<real>): seq<real> {
    if s == [] then [] else Insert(s[0], Sorted(s[1..]))
  }

  datatype Report = Report(p50: real, p95: real, p99: real)

  /** `percentiles_for`: empty when there are no samples. */
  function PercentilesFor(samples: seq<real>): Option<Report> {
    var ordered := Sorted(samples);
    if Percentile(ordered, 50.0) == None then None
    else Some(Report(Percentile(ordered, 50.0).value, Percentile(ordered, 95.0).value, Percentile(ordered, 99.0).value))
  }

  lemma {:induction false} InsertIsPermutation(x: real, s: seq<real>)
    ensures multiset(Insert(x, s)) == multiset(s) + multiset{x}
  {
    if !(s == [] || x <= s[0]) {
      InsertIsPermutation(x, s[1..]);
      assert s == [s[0]] + s[1..];
    }
  }

  lemma AscendingTail(s: seq<real>)
    requires Ascending(s) && s != []
    ensures Ascending(s[1..]) && (|s| > 1 ==> s[0] <= s[1])
  {
  }

  lemma {:induction false} InsertKeepsOrder(x: real, s: seq<real>)
    requires Ascending(s)
    ensures Ascending(Insert(x, s)) && Insert(x, s)[0] == (if s == [] || x <= s[0] then x else s[0])
  {
    if s == [] || x <= s[0] {
      AscendingWithHead(x, s);
    } else {
      AscendingTail(s);
      hide Ascending;
      InsertKeepsOrder(x, s[1..]);
      AscendingWithHead(s[0], Insert(x, s[1..]));
    }
  }

  lemma AscendingWithHead(x: real, s: seq<real>)
    requires Ascending(s) && (s == [] || x <= s[0])
    ensures Ascending([x] + s)
  {
    var t := [x] + s;
    forall i, j | 0 <= i <= j < |t| ensures t[i] <= t[j] {
      if i > 0 {
        assert t[i] == s[i - 1] && t[j] == s[j - 1];
      } else if j > 0 {
        assert s[0] <= s[j - 1];
      }
    }
  }

  lemma {:induction false} SortedSorts(s: seq<real>)
    ensures Ascending(Sorted(s)) && multiset(Sorted(s)) == multiset(s)
  {
    if s != [] {
      SortedSorts(s[1..]);
      InsertKeepsOrder(s[0], Sorted(s[1..]));
      InsertIsPermutation(s[0], Sorted(s[1..]));
      hide Ascending;
      assert s == [s[0]] + s[1..];
    }
  }

  /** For any samples in any order: a report is made iff there are samples, its three values ascend, and
      no sample is needed outside the range they were taken from. */
  lemma ReportAscends(samples: seq<real>, low: real, high: real)
    requires forall i :: 0 <= i < |samples| ==> low <= samples[i] <= high
    ensures PercentilesFor(samples).Some? <==> samples != []
    ensures PercentilesFor(samples).Some? ==>
              var r := PercentilesFor(samples).value; low <= r.p50 <= r.p95 <= r.p99 <= high
  {
    SortedSorts(samples);
    var s := Sorted(samples);
    assert |s| == |multiset(s)| == |samples|;
    if s != [] {
      assert s[0] in multiset(samples) && s[|s| - 1] in multiset(samples);
      PercentilesAreMonotone(s, 50.0, 95.0);
      PercentilesAreMonotone(s, 95.0, 99.0);
    }
  }

  /** With 101 samples the report is made of the samples with 50, 95 and 99 others in front of them. */
  lemma ReportOfRanks(samples: seq<real>)
    requires |samples| == 101
    ensures |Sorted(samples)| == 101
    ensures PercentilesFor(samples) == Some(Report(Sorted(samples)[50], Sorted(samples)[95], Sorted(samples)[99]))
  {
    SortedSorts(samples);
    var s := Sorted(samples);
    assert |s| == |multiset(s)| == |samples|;
    PercentileOfRank(s, 50);
    PercentileOfRank(s, 95);
    PercentileOfRank(s, 99);
    hide Sorted, Percentile;
  }
}
