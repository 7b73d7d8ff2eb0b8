/** percentile and summarize of scripts/perf-summary.py, over exact reals. */
module PerfSummary {
  import Sorting

  predicate Ordered(s: seq<int>) {
    forall i, j | 0 <= i < j < |s| :: s[i] <= s[j]
  }

  /** sorted(values) */
  function Sorted(values: seq<int>): seq<int> { Sorting.Sort(values, (a, b) => a <= b) }

  lemma SortedKeeps(values: seq<int>)
    ensures Ordered(Sorted(values)) && multiset(Sorted(values)) == multiset(values)
    ensures |Sorted(values)| == |values|
  {
    Sorting.SortSorts(values, (a, b) => a <= b);
  }

  function Ceil(x: real): int { -(-x).Floor }

  /** The value at a place between the ordered values. */
  function Interpolated(ordered: seq<int>, position: real): real
    requires 0.0 <= position <= (|ordered| - 1) as real
  {
    var lower, upper := position.Floor, Ceil(position);
    if lower == upper then ordered[lower] as real
    else
      var fraction := position - lower as real;
      (ordered[lower] as real) * (1.0 - fraction) + (ordered[upper] as real) * fraction
  }

  predicate Fraction(p: real) { 0.0 <= p <= 1.0 }

  /** The place of the fraction p among n ordered values. */
  function Position(n: nat, p: real): real
    requires n >= 1
  {
    (n - 1) as real * p
  }

  lemma PositionInside(n: nat, p: real)
    requires n >= 1 && Fraction(p)
    ensures 0.0 <= Position(n, p) <= (n - 1) as real
  {
    var m := (n - 1) as real;
    assert 0.0 <= m * p <= m * 1.0;
  }

  lemma PositionGrows(n: nat, p: real, q: real)
    requires n >= 1 && p <= q
    ensures Position(n, p) <= Position(n, q)
  {
  }

  /** percentile; the fraction lies between 0 and 1. */
  function Percentile(values: seq<int>, p: real): real
    requires Fraction(p)
  {
    if values == [] then 0.0
    else
      var ordered := Sorted(values);
      SortedKeeps(values);
      PositionInside(|ordered|, p);
      if |ordered| == 1 then ordered[0] as real else Interpolated(ordered, Position(|ordered|, p))
  }

  lemma Mix(a: real, b: real, f: real)
    requires a <= b && 0.0 <= f <= 1.0
    ensures a <= a * (1.0 - f) + b * f <= b
  {
    assert a * (1.0 - f) + b * f == a + (b - a) * f;
    assert (b - a) * f <= (b - a) * 1.0;
  }

  /** The value lies between its two neighbours. */
  lemma AtIsBetween(ordered: seq<int>, x: real)
    requires Ordered(ordered) && 0.0 <= x <= (|ordered| - 1) as real
    ensures 0 <= x.Floor <= Ceil(x) < |ordered|
    ensures ordered[x.Floor] as real <= Interpolated(ordered, x) <= ordered[Ceil(x)] as real
  {
    var lower, upper := x.Floor, Ceil(x);
    if lower != upper {
      Mix(ordered[lower] as real, ordered[upper] as real, x - lower as real);
    }
  }

  lemma MixGrows(a: real, b: real, f: real, g: real)
    requires a <= b && f <= g
    ensures a * (1.0 - f) + b * f <= a * (1.0 - g) + b * g
  {
    assert a * (1.0 - f) + b * f == a + (b - a) * f;
    assert a * (1.0 - g) + b * g == a + (b - a) * g;
    assert (b - a) * f <= (b - a) * g;
  }

  lemma AtGrows(ordered: seq<int>, x: real, y: real)
    requires Ordered(ordered) && 0.0 <= x <= y <= (|ordered| - 1) as real
    ensures Interpolated(ordered, x) <= Interpolated(ordered, y)
  {
    AtIsBetween(ordered, x);
    AtIsBetween(ordered, y);
    if x.Floor == y.Floor {
      if x.Floor != Ceil(x) {
        assert Ceil(x) == Ceil(y);
        MixGrows(ordered[x.Floor] as real, ordered[Ceil(x)] as real, x - x.Floor as real, y - x.Floor as real);
      }
    } else {
      assert Ceil(x) <= y.Floor;
    }
  }

  /** percentile is monotone in its fraction. */
  lemma PercentileGrows(values: seq<int>, p: real, q: real)
    requires Fraction(p) && Fraction(q) && p <= q
    ensures Percentile(values, p) <= Percentile(values, q)
  {
    hide Interpolated, Sorted, Position, Ordered;
    if values != [] {
      SortedKeeps(values);
      PositionInside(|values|, p);
      PositionInside(|values|, q);
      PositionGrows(|values|, p, q);
      if |values| > 1 { AtGrows(Sorted(values), Position(|values|, p), Position(|values|, q)); }
    }
  }

  /** Between two neighbours in the order of the values the percentile is the straight line from one to the other. */
  lemma PercentileInterpolates(values: seq<int>, ordered: seq<int>, k: nat, f: real)
    requires Ordered(ordered) && multiset(ordered) == multiset(values) && k + 1 < |ordered| && 0.0 <= f <= 1.0
    ensures var n := (|values| - 1) as real;
            && n > 0.0 && Fraction((k as real + f) / n)
            && Percentile(values, (k as real + f) / n) == ordered[k] as real + f * (ordered[k + 1] - ordered[k]) as real
  {
    hide Sorted;
    SortedKeeps(values);
    OrderedIsUnique(ordered, Sorted(values));
    var n, x := (|values| - 1) as real, k as real + f;
    assert 0.0 <= x <= n;
    InsideFraction(x, n);
    assert Position(|values|, x / n) == x;
    OnTheLine(ordered, k, f);
  }

  lemma InsideFraction(x: real, n: real)
    requires 0.0 <= x <= n && n > 0.0
    ensures 0.0 <= x / n <= 1.0 && n * (x / n) == x
  {
  }

  lemma OnTheLine(ordered: seq<int>, k: nat, f: real)
    requires k + 1 < |ordered| && 0.0 <= f <= 1.0
    ensures Interpolated(ordered, k as real + f) == ordered[k] as real + f * (ordered[k + 1] - ordered[k]) as real
  {
    var x := k as real + f;
    if f == 0.0 {
      assert x.Floor == k && Ceil(x) == k;
    } else if f == 1.0 {
      assert x.Floor == k + 1 && Ceil(x) == k + 1;
    } else {
      assert x.Floor == k && Ceil(x) == k + 1;
      assert x - k as real == f;
      LineForms(ordered[k] as real, ordered[k + 1] as real, f);
    }
  }

  lemma LineForms(a: real, b: real, f: real)
    ensures a * (1.0 - f) + b * f == a + f * (b - a)
  {
  }

  predicate IsMin(m: int, values: seq<int>) { m in values && forall v | v in values :: m <= v }

  predicate IsMax(m: int, values: seq<int>) { m in values && forall v | v in values :: v <= m }

  /** The ends of the sorted values are the minimum and the maximum. */
  lemma SortedEnds(values: seq<int>)
    requires values != []
    ensures |Sorted(values)| == |values|
    ensures IsMin(Sorted(values)[0], values) && IsMax(Sorted(values)[|values| - 1], values)
  {
    SortedKeeps(values);
    var s := Sorted(values);
    forall v | v in values ensures s[0] <= v <= s[|s| - 1] {
      assert v in multiset(s);
      var k :| 0 <= k < |s| && s[k] == v;
    }
    assert s[0] in multiset(values) && s[|s| - 1] in multiset(values);
  }

  /** percentile is the minimum at 0, the maximum at 1, and between them otherwise. */
  lemma PercentileInRange(values: seq<int>, p: real, low: int, high: int)
    requires Fraction(p) && IsMin(low, values) && IsMax(high, values)
    ensures low as real <= Percentile(values, p) <= high as real
    ensures Percentile(values, 0.0) == low as real && Percentile(values, 1.0) == high as real
  {
    hide Sorted;
    SortedEnds(values);
    PercentileGrows(values, 0.0, p);
    PercentileGrows(values, p, 1.0);
    var s := Sorted(values);
    assert s[0] == low && s[|s| - 1] == high;
  }

  lemma HeadIsLeast(a: seq<int>, b: seq<int>)
    requires Ordered(a) && a != [] && b != [] && multiset(a) == multiset(b)
    ensures a[0] <= b[0]
  {
    assert b[0] in multiset(a);
    var j :| 0 <= j < |a| && a[j] == b[0];
  }

  /** Ordered sequences of the same values are equal. */
  lemma {:induction false} OrderedIsUnique(a: seq<int>, b: seq<int>)
    requires Ordered(a) && Ordered(b) && multiset(a) == multiset(b)
    ensures a == b
  {
    assert |multiset(a)| == |a| && |multiset(b)| == |b|;
    if a != [] {
      HeadIsLeast(a, b);
      HeadIsLeast(b, a);
      assert a == [a[0]] + a[1..] && b == [b[0]] + b[1..];
      assert multiset(a[1..]) == multiset(a) - multiset{a[0]};
      assert multiset(b[1..]) == multiset(b) - multiset{b[0]};
      OrderedIsUnique(a[1..], b[1..]);
    }
  }

  /** The order of the samples does not matter. */
  lemma PercentileIgnoresOrder(values: seq<int>, others: seq<int>, p: real)
    requires multiset(values) == multiset(others) && Fraction(p)
    ensures Percentile(values, p) == Percentile(others, p)
  {
    hide Interpolated, Sorted, Position, Ordered;
    SortedKeeps(values);
    SortedKeeps(others);
    OrderedIsUnique(Sorted(values), Sorted(others));
    assert |multiset(values)| == |multiset(others)|;
  }

  // ---------------------------------------------------------------------------------------
  // summarize
  // ---------------------------------------------------------------------------------------

  function Sum(values: seq<int>): int { if values == [] then 0 else values[0] + Sum(values[1..]) }

  datatype Summary = Summary(count: nat, mean: real, p50: real, p95: real, p99: real, max: int)

  /** max(values) */
  function Max(values: seq<int>): (m: int)
    requires values != []
    ensures IsMax(m, values)
  {
    if |values| == 1 then values[0]
    else
      var rest := Max(values[1..]);
      assert values == [values[0]] + values[1..];
      if values[0] >= rest then values[0] else rest
  }

  function Summarize(values: seq<int>): Summary {
    if values == [] then Summary(0, 0.0, 0.0, 0.0, 0.0, 0)
    else
      Summary(|values|, Sum(values) as real / |values| as real, Percentile(values, 0.5), Percentile(values, 0.95),
              Percentile(values, 0.99), Max(values))
  }

  lemma {:induction false} SumOfParts(a: seq<int>, b: seq<int>)
    ensures Sum(a + b) == Sum(a) + Sum(b)
  {
    if a == [] {
      assert a + b == b;
    } else {
      SumOfParts(a[1..], b);
      assert (a + b)[1..] == a[1..] + b;
    }
  }

  /** What a summary says of its samples: how many, their mean and their maximum, and nothing but zeros of none. */
  lemma SummaryIsExact(values: seq<int>, x: int)
    ensures Summarize([]) == Summary(0, 0.0, 0.0, 0.0, 0.0, 0)
    ensures Summarize([x]).mean == x as real
    ensures var s := Summarize(values + [x]);
            && s.count == |values| + 1 && IsMax(s.max, values + [x])
            && s.mean * s.count as real == Summarize(values).mean * Summarize(values).count as real + x as real
            && s.p50 == Percentile(values + [x], 0.5) && s.p95 == Percentile(values + [x], 0.95)
            && s.p99 == Percentile(values + [x], 0.99)
  {
    hide Percentile, Max;
    MeanTimesCount(values);
    MeanTimesCount(values + [x]);
    SumOfParts(values, [x]);
    MeanOfOne(x);
  }

  lemma MeanTimesCount(values: seq<int>)
    ensures var s := Summarize(values); s.mean * s.count as real == Sum(values) as real
  {
    hide Percentile, Max;
    if values != [] { Divided(Sum(values) as real, |values|); }
  }

  lemma MeanOfOne(x: int)
    ensures Summarize([x]).mean == x as real
  {
    hide Percentile, Max;
    assert [x][1..] == [];
    assert Sum([x]) == x;
  }

  lemma Divided(x: real, n: nat)
    requires n > 0
    ensures x / n as real * n as real == x
  {
  }

  lemma {:induction false} SumInRange(values: seq<int>, low: int, high: int)
    requires forall v | v in values :: low <= v <= high
    ensures low * |values| <= Sum(values) <= high * |values|
  {
    if values != [] {
      assert values[0] in values;
      assert forall v | v in values[1..] :: v in values;
      SumInRange(values[1..], low, high);
      OneMore(low, |values|);
      OneMore(high, |values|);
    }
  }

  lemma OneMore(x: int, n: nat)
    requires n > 0
    ensures x * n == x + x * (n - 1)
  {
  }

  /** The summary is ordered: min <= p50 <= p95 <= p99 <= max, and the mean lies between min and max. */
  lemma SummaryIsOrdered(values: seq<int>, low: int)
    requires IsMin(low, values)
    ensures var s := Summarize(values);
            && low as real <= s.p50 <= s.p95 <= s.p99 <= s.max as real
            && low as real <= s.mean <= s.max as real
  {
    hide Percentile, Sum;
    var s := Summarize(values);
    PercentileGrows(values, 0.5, 0.95);
    PercentileGrows(values, 0.95, 0.99);
    PercentileInRange(values, 0.5, low, s.max);
    PercentileInRange(values, 0.99, low, s.max);
    SumInRange(values, low, s.max);
    MeanInRange(Sum(values), |values|, low, s.max);
  }

  lemma MeanInRange(sum: int, n: nat, low: int, high: int)
    requires n > 0 && low * n <= sum <= high * n
    ensures low as real <= sum as real / n as real <= high as real
  {
    assert (low * n) as real == low as real * n as real;
    assert (high * n) as real == high as real * n as real;
    assert (low as real * n as real) / n as real == low as real;
    assert (high as real * n as real) / n as real == high as real;
  }
}
