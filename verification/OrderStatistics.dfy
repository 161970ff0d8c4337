/** Percentiles by linear interpolation between order statistics, over reals and before rounding. */
module OrderStatistics {
  import opened Lists

  predicate Smaller(x: real, y: real) { x < y }

  /** Python's `sorted(values)`. */
  function Sort(values: seq<real>): (r: seq<real>)
    ensures multiset(r) == multiset(values)
  {
    SortBy(values, Smaller)
  }

  function Ceiling(x: real): int { -((-x).Floor) }

  /** The fractional index of a share of the values. */
  function Index(count: nat, pct: real): (index: real)
    requires count > 0 && 0.0 <= pct <= 1.0
    ensures 0.0 <= index <= (count - 1) as real
  {
    var last := (count - 1) as real;
    assert 0.0 <= last * pct <= last * 1.0;
    last * pct
  }

  function Between(low: real, high: real, part: real): real { low + (high - low) * part }

  /** The piecewise linear curve through the points `(k, ordered[k])`. */
  function Interpolate(ordered: seq<real>, index: real): real
    requires 0.0 <= index <= (|ordered| - 1) as real
  {
    var lower, upper := index.Floor, Ceiling(index);
    if lower == upper then ordered[lower] else Between(ordered[lower], ordered[upper], index - lower as real)
  }

  /** The percentile of the values; `pct` is a share between 0 and 1. */
  function Percentile(values: seq<real>, pct: real): real
    requires 0.0 <= pct <= 1.0
  {
    if values == [] then 0.0
    else
      SortLength(values);
      Interpolate(Sort(values), Index(|values|, pct))
  }

  lemma SortLength(values: seq<real>)
    ensures |Sort(values)| == |values|
  {
    SortedLength(values, Smaller);
  }

  lemma BetweenIsMonotone(low: real, high: real, p: real, q: real)
    requires low <= high && 0.0 <= p <= q <= 1.0
    ensures low <= Between(low, high, p) <= Between(low, high, q) <= high
  {
    var gap := high - low;
    assert 0.0 <= gap * p <= gap * q <= gap * 1.0;
  }

  lemma BetweenGrowsWithEnds(low: real, high: real, low': real, high': real, part: real)
    requires low <= low' && high <= high' && 0.0 <= part <= 1.0
    ensures Between(low, high, part) <= Between(low', high', part)
  {
    assert (1.0 - part) * low <= (1.0 - part) * low';
    assert part * high <= part * high';
    assert Between(low, high, part) == (1.0 - part) * low + part * high;
    assert Between(low', high', part) == (1.0 - part) * low' + part * high';
  }

  lemma IndexIsMonotone(count: nat, p: real, q: real)
    requires count > 0 && 0.0 <= p <= q <= 1.0
    ensures Index(count, p) <= Index(count, q)
    ensures Index(count, 0.0) == 0.0 && Index(count, 1.0) == (count - 1) as real
  {
    var last := (count - 1) as real;
    assert last * (q - p) >= 0.0;
    assert last * q == last * p + last * (q - p);
  }

  // ---------------------------------------------------------------- the sorted sequence

  ghost predicate Ascending(xs: seq<real>) {
    forall j, k :: 0 <= j <= k < |xs| ==> xs[j] <= xs[k]
  }

  lemma SortAscending(values: seq<real>)
    ensures Ascending(Sort(values)) && |Sort(values)| == |values|
  {
    SortBySorted(values, Smaller);
  }

  lemma LeastFirst(a: seq<real>, x: real)
    requires Ascending(a) && x in multiset(a)
    ensures a != [] && a[0] <= x && multiset(a[1..]) == multiset(a) - multiset{a[0]} && Ascending(a[1..])
  {
    var k :| 0 <= k < |a| && a[k] == x;
    assert a == [a[0]] + a[1..];
  }

  /** An ascending sequence is determined by its elements. */
  lemma {:induction false} AscendingIsUnique(a: seq<real>, b: seq<real>)
    requires Ascending(a) && Ascending(b) && multiset(a) == multiset(b)
    ensures a == b
  {
    hide Ascending;
    SameLength(a, b);
    if a != [] {
      LeastFirst(a, b[0]);
      LeastFirst(b, a[0]);
      assert a[0] == b[0];
      AscendingIsUnique(a[1..], b[1..]);
      assert a == [a[0]] + a[1..] == b;
    }
  }

  lemma SameLength(a: seq<real>, b: seq<real>)
    requires multiset(a) == multiset(b)
    ensures |a| == |b|
    ensures a != [] ==> b[0] in multiset(a) && a[0] in multiset(b)
  {
    assert |multiset(a)| == |a| && |multiset(b)| == |b|;
    assert a != [] ==> a[0] in multiset(a);
    assert b != [] ==> b[0] in multiset(b);
  }

  /** The order of the values does not matter. */
  lemma {:induction false} PercentileIgnoresOrder(a: seq<real>, b: seq<real>, pct: real)
    requires multiset(a) == multiset(b) && 0.0 <= pct <= 1.0
    ensures Percentile(a, pct) == Percentile(b, pct)
  {
    hide Index, Interpolate;
    SortAscending(a);
    SortAscending(b);
    AscendingIsUnique(Sort(a), Sort(b));
    assert |multiset(a)| == |a| && |multiset(b)| == |b|;
  }

  // ---------------------------------------------------------------- interpolation

  /** Between two neighbouring points the curve stays between their values. */
  lemma {:induction false} InterpolationBetweenNeighbours(ordered: seq<real>, index: real)
    requires Ascending(ordered) && 0.0 <= index <= (|ordered| - 1) as real
    ensures ordered[index.Floor] <= Interpolate(ordered, index) <= ordered[Ceiling(index)]
  {
    hide Between;
    var lower, upper := index.Floor, Ceiling(index);
    if lower != upper {
      BetweenIsMonotone(ordered[lower], ordered[upper], index - lower as real, 1.0);
    }
  }

  lemma {:induction false} InterpolationIsMonotone(ordered: seq<real>, i: real, j: real)
    requires Ascending(ordered) && 0.0 <= i <= j <= (|ordered| - 1) as real
    ensures Interpolate(ordered, i) <= Interpolate(ordered, j)
  {
    hide Between;
    InterpolationBetweenNeighbours(ordered, i);
    InterpolationBetweenNeighbours(ordered, j);
    var lower := i.Floor;
    if lower < Ceiling(i) && lower == j.Floor {
      assert Ceiling(i) == Ceiling(j) == lower + 1;
      BetweenIsMonotone(ordered[lower], ordered[lower + 1], i - lower as real, j - lower as real);
    } else if i < j {
      assert Ceiling(i) <= j.Floor;
    }
  }

  /** A larger share never gives a smaller percentile. */
  lemma {:induction false} PercentileIsMonotone(values: seq<real>, p: real, q: real)
    requires 0.0 <= p <= q <= 1.0
    ensures Percentile(values, p) <= Percentile(values, q)
  {
    hide Index, Interpolate;
    if values != [] {
      SortAscending(values);
      IndexIsMonotone(|values|, p, q);
      InterpolationIsMonotone(Sort(values), Index(|values|, p), Index(|values|, q));
    }
  }

  /** Python's `max(values)`. */
  function Max(values: seq<real>): (m: real)
    requires values != []
    ensures m in values && forall v :: v in values ==> v <= m
  {
    assert values == [values[0]] + values[1..];
    if |values| == 1 then values[0]
    else
      var m := Max(values[1..]);
      if values[0] >= m then values[0] else m
  }

  lemma ExtremesOfSorted(values: seq<real>)
    requires values != []
    ensures |Sort(values)| == |values|
    ensures forall v :: v in values ==> Sort(values)[0] <= v <= Sort(values)[|values| - 1]
    ensures Sort(values)[0] in values && Sort(values)[|values| - 1] in values
  {
    SortAscending(values);
    var s := Sort(values);
    forall v | v in values ensures s[0] <= v <= s[|s| - 1] {
      assert v in multiset(s);
      var k :| 0 <= k < |s| && s[k] == v;
    }
    assert s[0] in multiset(values) && s[|s| - 1] in multiset(values);
  }

  /** The reported chain: the minimum, P50, P90, P95 and the maximum are in order; shares 0 and 1 are the extremes. */
  lemma {:induction false} ReportedPercentilesAreOrdered(values: seq<real>)
    requires values != []
    ensures Percentile(values, 0.0) in values && forall v :: v in values ==> Percentile(values, 0.0) <= v
    ensures Percentile(values, 0.0) <= Percentile(values, 0.5) <= Percentile(values, 0.9) <= Percentile(values, 0.95)
    ensures Percentile(values, 0.95) <= Percentile(values, 1.0) == Max(values)
  {
    hide Index;
    PercentileIsMonotone(values, 0.0, 0.5);
    PercentileIsMonotone(values, 0.5, 0.9);
    PercentileIsMonotone(values, 0.9, 0.95);
    PercentileIsMonotone(values, 0.95, 1.0);
    ExtremesOfSorted(values);
    IndexIsMonotone(|values|, 0.0, 1.0);
  }

  // ---------------------------------------------------------------- ranks

  /** How many values are not larger than `x`. */
  function AtMost(values: seq<real>, x: real): (n: nat)
    ensures n <= |values|
  {
    if values == [] then 0 else (if values[0] <= x then 1 else 0) + AtMost(values[1..], x)
  }

  lemma {:induction false} AtMostInsert(xs: seq<real>, v: real, x: real)
    ensures AtMost(Insert(xs, v, Smaller), x) == AtMost(xs, x) + if v <= x then 1 else 0
  {
    if xs == [] || v < xs[0] {
      assert ([v] + xs)[1..] == xs;
    } else {
      AtMostInsert(xs[1..], v, x);
      var rest := Insert(xs[1..], v, Smaller);
      assert ([xs[0]] + rest)[1..] == rest;
    }
  }

  lemma {:induction false} AtMostSnoc(xs: seq<real>, v: real, x: real)
    ensures AtMost(xs + [v], x) == AtMost(xs, x) + if v <= x then 1 else 0
  {
    if xs != [] {
      AtMostSnoc(xs[1..], v, x);
      assert (xs + [v])[1..] == xs[1..] + [v];
    }
  }

  lemma {:induction false} AtMostSort(values: seq<real>, x: real)
    ensures AtMost(Sort(values), x) == AtMost(values, x)
  {
    if values != [] {
      var front, last := values[..|values| - 1], values[|values| - 1];
      AtMostSort(front, x);
      AtMostInsert(Sort(front), last, x);
      AtMostSnoc(front, last, x);
      assert values == front + [last];
    }
  }

  /** In an ascending sequence the elements not larger than `x` are a prefix. */
  lemma {:induction false} AtMostAscending(xs: seq<real>, x: real, k: nat)
    requires Ascending(xs) && k < |xs|
    ensures xs[k] <= x <==> AtMost(xs, x) > k
  {
    if xs[0] > x {
      assert forall j :: 0 <= j < |xs| ==> xs[0] <= xs[j];
      NoneAtMost(xs, x);
    } else if k > 0 {
      AtMostAscending(xs[1..], x, k - 1);
    }
  }

  lemma {:induction false} NoneAtMost(xs: seq<real>, x: real)
    requires forall j :: 0 <= j < |xs| ==> xs[j] > x
    ensures AtMost(xs, x) == 0
  {
    if xs != [] {
      NoneAtMost(xs[1..], x);
    }
  }

  /** An order statistic is within a bound exactly when enough values are. */
  lemma OrderStatisticExactly(values: seq<real>, k: nat, x: real)
    requires k < |values|
    ensures |Sort(values)| == |values| && (Sort(values)[k] <= x <==> AtMost(values, x) > k)
  {
    SortAscending(values);
    AtMostSort(values, x);
    AtMostAscending(Sort(values), x, k);
  }

  /**
   The rank of a percentile, without sorting: more values than the whole part of its index are within it; whatever
   bounds more values than the index rounded up bounds it; whatever bounds no more than the whole part is below it.
   */
  lemma {:induction false} PercentileRank(values: seq<real>, pct: real, x: real)
    requires values != [] && 0.0 <= pct <= 1.0
    ensures AtMost(values, Percentile(values, pct)) > Index(|values|, pct).Floor
    ensures AtMost(values, x) > Ceiling(Index(|values|, pct)) ==> Percentile(values, pct) <= x
    ensures AtMost(values, x) <= Index(|values|, pct).Floor ==> x < Percentile(values, pct)
  {
    hide Index, Interpolate, AtMost;
    var index := Index(|values|, pct);
    SortAscending(values);
    InterpolationBetweenNeighbours(Sort(values), index);
    OrderStatisticExactly(values, index.Floor, Percentile(values, pct));
    OrderStatisticExactly(values, Ceiling(index), x);
    OrderStatisticExactly(values, index.Floor, x);
  }

  ghost predicate Dominated(a: seq<real>, b: seq<real>) {
    |a| == |b| && forall k :: 0 <= k < |a| ==> a[k] <= b[k]
  }

  lemma {:induction false} AtMostOfLarger(a: seq<real>, b: seq<real>, x: real)
    requires Dominated(a, b)
    ensures AtMost(b, x) <= AtMost(a, x)
  {
    if a != [] {
      assert a[0] <= b[0];
      forall k | 0 <= k < |a| - 1 ensures a[1..][k] <= b[1..][k] {
        assert a[k + 1] <= b[k + 1];
      }
      AtMostOfLarger(a[1..], b[1..], x);
    }
  }

  lemma SortKeepsDomination(a: seq<real>, b: seq<real>, k: nat)
    requires Dominated(a, b) && k < |a|
    ensures |Sort(a)| == |Sort(b)| == |a| && Sort(a)[k] <= Sort(b)[k]
  {
    SortLength(b);
    var x := Sort(b)[k];
    OrderStatisticExactly(b, k, x);
    AtMostOfLarger(a, b, x);
    OrderStatisticExactly(a, k, x);
  }

  /** If no run gets faster, no percentile gets smaller. */
  lemma {:induction false} PercentileGrowsWithValues(a: seq<real>, b: seq<real>, pct: real)
    requires Dominated(a, b) && 0.0 <= pct <= 1.0
    ensures Percentile(a, pct) <= Percentile(b, pct)
  {
    assert |a| == |b|;
    hide Index, Between, Sort, Dominated, Interpolate;
    if a != [] {
      var index := Index(|a|, pct);
      SortKeepsDomination(a, b, index.Floor);
      SortKeepsDomination(a, b, Ceiling(index));
      InterpolationGrows(Sort(a), Sort(b), index);
    }
  }

  lemma {:induction false} InterpolationGrows(s: seq<real>, t: seq<real>, index: real)
    requires |s| == |t| && 0.0 <= index <= (|s| - 1) as real
    requires s[index.Floor] <= t[index.Floor] && s[Ceiling(index)] <= t[Ceiling(index)]
    ensures Interpolate(s, index) <= Interpolate(t, index)
  {
    hide Between;
    var lower, upper := index.Floor, Ceiling(index);
    if lower != upper {
      BetweenGrowsWithEnds(s[lower], s[upper], t[lower], t[upper], index - lower as real);
    }
  }

  // ---------------------------------------------------------------- linearity and symmetry

  lemma InterpolateIsBetween(ordered: seq<real>, index: real)
    requires 0.0 <= index <= (|ordered| - 1) as real
    ensures Interpolate(ordered, index) ==
            Between(ordered[index.Floor], ordered[Ceiling(index)], index - index.Floor as real)
  {
    if index.Floor == Ceiling(index) {
      assert Between(ordered[index.Floor], ordered[index.Floor], index - index.Floor as real) == ordered[index.Floor];
    }
  }

  lemma BetweenIsWeighted(low: real, high: real, part: real)
    ensures Between(low, high, part) == (1.0 - part) * low + part * high
  {
  }

  /**
   The percentile at an index `(n - 1) * pct` that is whole is that order statistic; otherwise it moves linearly between
   its two neighbours. Of no values it is zero.
   */
  lemma {:induction false} PercentileIsWeightedMean(values: seq<real>, pct: real)
    requires 0.0 <= pct <= 1.0
    ensures |Sort(values)| == |values| && Percentile([], pct) == 0.0
    ensures values != [] ==>
              var index := (|values| - 1) as real * pct;
              var lower := index.Floor;
              && 0 <= lower < |values|
              && (index == lower as real ==> Percentile(values, pct) == Sort(values)[lower])
              && (index != lower as real ==>
                    && lower + 1 < |values|
                    && Percentile(values, pct) == ((lower + 1) as real - index) * Sort(values)[lower]
                                                  + (index - lower as real) * Sort(values)[lower + 1])
  {
    hide Between, Interpolate, Sort;
    SortLength(values);
    if values != [] {
      var index := Index(|values|, pct);
      InterpolateIsBetween(Sort(values), index);
      BetweenIsWeighted(Sort(values)[index.Floor], Sort(values)[Ceiling(index)], index - index.Floor as real);
    }
  }

  /** The values negated, in reverse. */
  function Mirror(values: seq<real>): (r: seq<real>)
    ensures |r| == |values| && forall k :: 0 <= k < |values| ==> r[k] == -values[|values| - 1 - k]
  {
    seq(|values|, k requires 0 <= k < |values| => -values[|values| - 1 - k])
  }

  lemma {:induction false} MirrorCounts(values: seq<real>, x: real)
    ensures multiset(Mirror(values))[x] == multiset(values)[-x]
  {
    if values != [] {
      MirrorCounts(values[1..], x);
      assert values == [values[0]] + values[1..];
      assert Mirror(values) == Mirror(values[1..]) + [-values[0]];
    }
  }

  lemma {:induction false} MirrorKeepsElements(a: seq<real>, b: seq<real>)
    requires multiset(a) == multiset(b)
    ensures multiset(Mirror(a)) == multiset(Mirror(b))
  {
    forall x ensures multiset(Mirror(a))[x] == multiset(Mirror(b))[x] {
      MirrorCounts(a, x);
      MirrorCounts(b, x);
    }
  }

  lemma MirrorAscending(values: seq<real>)
    requires Ascending(values)
    ensures Ascending(Mirror(values))
  {
  }

  lemma {:induction false} SortOfMirror(values: seq<real>)
    ensures Sort(Mirror(values)) == Mirror(Sort(values))
  {
    hide Sort, Mirror, Ascending;
    SortAscending(values);
    SortAscending(Mirror(values));
    MirrorAscending(Sort(values));
    MirrorKeepsElements(Sort(values), values);
    AscendingIsUnique(Sort(Mirror(values)), Mirror(Sort(values)));
  }

  lemma MirrorIndex(count: nat, pct: real)
    requires count > 0 && 0.0 <= pct <= 1.0
    ensures Index(count, 1.0 - pct) == (count - 1) as real - Index(count, pct)
  {
    var last := (count - 1) as real;
    assert last * (1.0 - pct) == last - last * pct;
  }

  lemma MirrorBetween(low: real, high: real, part: real)
    ensures Between(-high, -low, 1.0 - part) == -Between(low, high, part)
  {
  }

  lemma {:induction false} InterpolateMirror(ordered: seq<real>, index: real)
    requires 0.0 <= index <= (|ordered| - 1) as real
    ensures Interpolate(Mirror(ordered), (|ordered| - 1) as real - index) == -Interpolate(ordered, index)
  {
    hide Between;
    var last := |ordered| - 1;
    var lower, upper, mirrored := index.Floor, Ceiling(index), last as real - index;
    assert mirrored.Floor == last - upper && Ceiling(mirrored) == last - lower;
    if lower != upper {
      MirrorBetween(ordered[lower], ordered[upper], index - lower as real);
    }
  }

  /** Negating all values mirrors the percentiles: the share counted from above takes the place of that from below. */
  lemma {:induction false} PercentileOfNegatedValues(values: seq<real>, pct: real)
    requires values != [] && 0.0 <= pct <= 1.0
    ensures Percentile(Mirror(values), 1.0 - pct) == -Percentile(values, pct)
  {
    hide Index, Interpolate, Sort;
    SortLength(values);
    SortOfMirror(values);
    MirrorIndex(|values|, pct);
    InterpolateMirror(Sort(values), Index(|values|, pct));
  }
}
