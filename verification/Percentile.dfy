/** The interpolating percentile, the bootstrap interval built on it, and the verdict built on those intervals. */
module Percentile {
  import opened Wrappers
  import opened Sequences

  const BOOTSTRAP_SAMPLES: nat := 10000

  ghost predicate Sorted(v: seq<real>) {
    forall i, j :: 0 <= i < j < |v| ==> v[i] <= v[j]
  }

  function Ceil(x: real): int {
    -((-x).Floor)
  }

  /** The mean of x and y that gives y the weight w. */
  function Mean(x: real, y: real, w: real): real {
    x * (1.0 - w) + y * w
  }

  /** The value at a fractional index. */
  function Interpolate(v: seq<real>, position: real): real
    requires 0.0 <= position <= (|v| - 1) as real
  {
    var lower, upper := position.Floor, Ceil(position);
    if lower == upper then v[lower] else Mean(v[lower], v[upper], position - lower as real)
  }

  /** The fractional index of a probability, in a sample whose last index is given. */
  function Position(last: nat, probability: real): real {
    last as real * probability
  }

  function Percentile(v: seq<real>, probability: real): real
    requires |v| > 0 && 0.0 <= probability <= 1.0
  {
    PositionFits(|v| - 1, probability);
    Interpolate(v, Position(|v| - 1, probability))
  }

  lemma Fraction(a: real, w: real)
    requires 0.0 <= a && 0.0 <= w <= 1.0
    ensures 0.0 <= a * w <= a
  {
  }

  lemma PositionFits(last: nat, probability: real)
    requires 0.0 <= probability <= 1.0
    ensures 0.0 <= Position(last, probability) <= last as real
  {
    Fraction(last as real, probability);
  }

  lemma PositionGrows(last: nat, p: real, q: real)
    requires p <= q
    ensures Position(last, p) <= Position(last, q)
  {
  }

  lemma MeanFromLeft(x: real, y: real, w: real)
    ensures Mean(x, y, w) == x + (y - x) * w
  {
  }

  /** A weighted mean lies between its ends. */
  lemma MeanIsBetween(x: real, y: real, w: real)
    requires x <= y && 0.0 <= w <= 1.0
    ensures x <= Mean(x, y, w) <= y
  {
    hide Mean;
    MeanFromLeft(x, y, w);
    var d := y - x;
    var part := d * w;
    assert Mean(x, y, w) == x + part;
    assert 0.0 <= part <= d by { Fraction(d, w); }
  }

  lemma Grow(a: real, w: real, z: real)
    requires 0.0 <= a && w <= z
    ensures a * w <= a * z
  {
  }

  lemma MeanGrows(x: real, y: real, w: real, z: real)
    requires x <= y && w <= z
    ensures Mean(x, y, w) <= Mean(x, y, z)
  {
    hide Mean;
    MeanFromLeft(x, y, w);
    MeanFromLeft(x, y, z);
    var d := y - x;
    var part, more := d * w, d * z;
    assert Mean(x, y, w) == x + part && Mean(x, y, z) == x + more;
    assert part <= more by { Grow(d, w, z); }
  }

  lemma FloorAndCeil(position: real)
    ensures position.Floor as real <= position < position.Floor as real + 1.0
    ensures Ceil(position) == if position == position.Floor as real then position.Floor else position.Floor + 1
  {
    var up := (-position).Floor;
    assert up as real <= -position < up as real + 1.0;
  }

  /** The value lies between the two neighbours of its position. */
  lemma InterpolateIsBetween(v: seq<real>, position: real)
    requires Sorted(v) && 0.0 <= position <= (|v| - 1) as real
    ensures 0 <= position.Floor < |v| && v[position.Floor] <= Interpolate(v, position)
    ensures position.Floor + 1 < |v| ==> Interpolate(v, position) <= v[position.Floor + 1]
    ensures position.Floor + 1 == |v| ==> Interpolate(v, position) == v[position.Floor]
  {
    hide Mean;
    FloorAndCeil(position);
    var lower := position.Floor;
    if position != lower as real {
      MeanIsBetween(v[lower], v[lower + 1], position - lower as real);
    }
  }

  lemma InterpolateGrows(v: seq<real>, x: real, y: real)
    requires Sorted(v) && 0.0 <= x <= y <= (|v| - 1) as real
    ensures Interpolate(v, x) <= Interpolate(v, y)
  {
    hide Interpolate;
    FloorAndCeil(x);
    FloorAndCeil(y);
    InterpolateIsBetween(v, x);
    InterpolateIsBetween(v, y);
    if x.Floor == y.Floor && x.Floor + 1 < |v| {
      SameSegment(v, x, y);
    } else if x.Floor < y.Floor {
      assert v[x.Floor + 1] <= v[y.Floor] || x.Floor + 1 == y.Floor;
    }
  }

  lemma SameSegment(v: seq<real>, x: real, y: real)
    requires Sorted(v) && 0.0 <= x <= y <= (|v| - 1) as real && x.Floor == y.Floor && x.Floor + 1 < |v|
    ensures Interpolate(v, x) <= Interpolate(v, y)
  {
    hide Mean, Interpolate;
    OnSegment(v, x);
    OnSegment(v, y);
    MeanGrows(v[x.Floor], v[x.Floor + 1], x - x.Floor as real, y - x.Floor as real);
  }

  lemma OnSegment(v: seq<real>, x: real)
    requires 0.0 <= x <= (|v| - 1) as real && x.Floor + 1 < |v|
    ensures 0 <= x.Floor
    ensures var w := x - x.Floor as real;
            Interpolate(v, x) == Mean(v[x.Floor], v[x.Floor + 1], w)
  {
    assert Mean(v[x.Floor], v[x.Floor + 1], 0.0) == v[x.Floor];
    FloorAndCeil(x);
  }

  /** A percentile stays within the ends of the sorted sample and grows with its probability. */
  lemma PercentileIsMonotone(v: seq<real>, p: real, q: real)
    requires Sorted(v) && |v| > 0 && 0.0 <= p <= q <= 1.0
    ensures v[0] <= Percentile(v, p) <= Percentile(v, q) <= v[|v| - 1]
  {
    hide Interpolate, Position;
    PositionFits(|v| - 1, p);
    PositionFits(|v| - 1, q);
    PositionGrows(|v| - 1, p, q);
    InterpolateStays(v, Position(|v| - 1, p));
    InterpolateStays(v, Position(|v| - 1, q));
    InterpolateGrows(v, Position(|v| - 1, p), Position(|v| - 1, q));
  }

  lemma InterpolateStays(v: seq<real>, position: real)
    requires Sorted(v) && 0.0 <= position <= (|v| - 1) as real
    ensures v[0] <= Interpolate(v, position) <= v[|v| - 1]
  {
    hide Interpolate;
    InterpolateIsBetween(v, position);
    var lower := position.Floor;
    assert v[0] <= v[lower] || lower == 0;
    assert lower + 1 < |v| ==> v[lower + 1] <= v[|v| - 1] || lower + 1 == |v| - 1;
  }

  /** At the probability of an order statistic the percentile is that order statistic. */
  lemma PercentileAtRank(v: seq<real>, k: nat)
    requires 1 < |v| && k < |v|
    ensures 0.0 <= k as real / (|v| - 1) as real <= 1.0
    ensures Percentile(v, k as real / (|v| - 1) as real) == v[k]
  {
    hide Mean;
    var p := k as real / (|v| - 1) as real;
    assert Position(|v| - 1, p) == k as real;
    PositionFits(|v| - 1, p);
    FloorAndCeil(k as real);
  }

  // ---------- Samples ----------

  function Itself(x: real): real { x }

  function Sort(v: seq<real>): seq<real> {
    SortBy(Itself, v)
  }

  /** All values of v lie between low and high. */
  ghost predicate Within(v: seq<real>, low: real, high: real) {
    forall i :: 0 <= i < |v| ==> low <= v[i] <= high
  }

  /** Sorting orders the values, keeps each as often as it was, and so stays within their bounds. */
  lemma SortSorts(v: seq<real>)
    ensures Sorted(Sort(v)) && multiset(Sort(v)) == multiset(v) && |Sort(v)| == |v|
    ensures forall low, high :: Within(v, low, high) ==> Within(Sort(v), low, high)
  {
    var s := Sort(v);
    SortBySorts(Itself, v);
    forall i, j | 0 <= i < j < |s| ensures s[i] <= s[j] {
      assert Itself(s[i]) <= Itself(s[j]);
    }
    SameElements(v, s);
    forall low, high | Within(v, low, high) ensures Within(s, low, high) {
      forall i | 0 <= i < |s| ensures low <= s[i] <= high {
        assert s[i] in v;
      }
    }
  }

  /** The middle value, or the mean of the two middle values. */
  function Median(sample: seq<real>): real
    requires |sample| > 0
  {
    SortSorts(sample);
    var s, n := Sort(sample), |sample|;
    if n % 2 == 1 then s[n / 2] else (s[n / 2 - 1] + s[n / 2]) / 2.0
  }

  lemma MedianIsWithin(sample: seq<real>, low: real, high: real)
    requires |sample| > 0 && Within(sample, low, high)
    ensures low <= Median(sample) <= high
  {
    hide Sort;
    SortSorts(sample);
  }

  /** The draws of an experiment on n values: for each resample, which value each of its n draws picks. */
  predicate FullDraws(draws: seq<seq<nat>>, n: nat) {
    && |draws| == BOOTSTRAP_SAMPLES
    && forall i :: 0 <= i < |draws| ==> |draws[i]| == n && forall j :: 0 <= j < n ==> draws[i][j] < n
  }

  /** The resample that a list of draws picks. */
  function Picked(values: seq<real>, draw: seq<nat>): (sample: seq<real>)
    requires |draw| == |values| && forall j :: 0 <= j < |draw| ==> draw[j] < |values|
    ensures |sample| == |values|
  {
    seq(|draw|, j requires 0 <= j < |draw| => values[draw[j]])
  }

  /** The medians of the first n resamples. */
  function Estimates(values: seq<real>, draws: seq<seq<nat>>, n: nat): (e: seq<real>)
    requires FullDraws(draws, |values|) && values != [] && n <= |draws|
    ensures |e| == n
  {
    if n == 0 then [] else Estimates(values, draws, n - 1) + [Median(Picked(values, draws[n - 1]))]
  }

  /** The interval of the medians of all resamples. */
  function Interval(values: seq<real>, draws: seq<seq<nat>>): (real, real)
    requires FullDraws(draws, |values|) && values != []
  {
    SortSorts(Estimates(values, draws, BOOTSTRAP_SAMPLES));
    var sorted := Sort(Estimates(values, draws, BOOTSTRAP_SAMPLES));
    (Percentile(sorted, 0.025), Percentile(sorted, 0.975))
  }

  lemma {:induction false} EstimatesWithin(values: seq<real>, draws: seq<seq<nat>>, n: nat, low: real, high: real)
    requires FullDraws(draws, |values|) && values != [] && n <= |draws|
    requires forall i :: 0 <= i < n ==> Within(Picked(values, draws[i]), low, high)
    ensures Within(Estimates(values, draws, n), low, high)
  {
    hide Within, Median, Picked;
    if n == 0 {
      NothingOutside(low, high);
    } else {
      EstimatesWithin(values, draws, n - 1, low, high);
      MedianIsWithin(Picked(values, draws[n - 1]), low, high);
      OneMoreWithin(Estimates(values, draws, n - 1), Median(Picked(values, draws[n - 1])), low, high);
    }
  }

  lemma NothingOutside(low: real, high: real)
    ensures Within([], low, high)
  {
  }

  lemma OneMoreWithin(v: seq<real>, x: real, low: real, high: real)
    requires Within(v, low, high) && low <= x <= high
    ensures Within(v + [x], low, high)
  {
  }

  lemma PickedWithin(values: seq<real>, draw: seq<nat>, low: real, high: real)
    requires |draw| == |values| && forall j :: 0 <= j < |draw| ==> draw[j] < |values|
    requires Within(values, low, high)
    ensures Within(Picked(values, draw), low, high)
  {
  }

  /** Whatever is drawn, low is at most high, and both lie within any bounds of all resamples. */
  lemma IntervalIsOrdered(values: seq<real>, draws: seq<seq<nat>>, low: real, high: real)
    requires FullDraws(draws, |values|) && values != []
    requires forall i :: 0 <= i < BOOTSTRAP_SAMPLES ==> Within(Picked(values, draws[i]), low, high)
    ensures low <= Interval(values, draws).0 <= Interval(values, draws).1 <= high
  {
    hide Estimates, Sort, Percentile, Picked;
    var estimates := Estimates(values, draws, BOOTSTRAP_SAMPLES);
    EstimatesWithin(values, draws, BOOTSTRAP_SAMPLES, low, high);
    SortSorts(estimates);
    assert Within(Sort(estimates), low, high);
    PercentileIsMonotone(Sort(estimates), 0.025, 0.975);
  }

  /** Whatever is drawn, the interval is an interval within any bounds of the values. */
  lemma IntervalIsWithin(values: seq<real>, draws: seq<seq<nat>>)
    requires FullDraws(draws, |values|) && values != []
    ensures Interval(values, draws).0 <= Interval(values, draws).1
    ensures forall low, high :: Within(values, low, high) ==>
              low <= Interval(values, draws).0 && Interval(values, draws).1 <= high
  {
    hide Interval, Within, Picked;
    var least, greatest := Bounds(values);
    forall low, high | Within(values, low, high)
      ensures low <= Interval(values, draws).0 <= Interval(values, draws).1 <= high
    {
      forall i | 0 <= i < BOOTSTRAP_SAMPLES ensures Within(Picked(values, draws[i]), low, high) {
        PickedWithin(values, draws[i], low, high);
      }
      IntervalIsOrdered(values, draws, low, high);
    }
    assert Within(values, least, greatest);
  }

  /** No values, no interval. */
  method BootstrapMedianCi(values: seq<real>, draws: seq<seq<nat>>) returns (r: Result<(real, real)>)
    requires FullDraws(draws, |values|)
    ensures r.Success? <==> values != []
    ensures r.Success? ==> r.value == Interval(values, draws) && r.value.0 <= r.value.1
    ensures r.Success? ==> forall low, high :: Within(values, low, high) ==> low <= r.value.0 && r.value.1 <= high
  {
    hide Median, Sort, Percentile, Within;
    if values == [] {
      return Failure;
    }
    var estimates: seq<real> := [];
    for i := 0 to BOOTSTRAP_SAMPLES
      invariant estimates == Estimates(values, draws, i)
    {
      var sample := Resample(values, draws[i]);
      estimates := estimates + [Median(sample)];
    }
    SortSorts(estimates);
    var sorted := Sort(estimates);
    r := Success((Percentile(sorted, 0.025), Percentile(sorted, 0.975)));
    IntervalIsWithin(values, draws);
  }

  method Resample(values: seq<real>, draw: seq<nat>) returns (sample: seq<real>)
    requires |draw| == |values| && forall j :: 0 <= j < |draw| ==> draw[j] < |values|
    ensures sample == Picked(values, draw)
  {
    sample := [];
    for j := 0 to |draw|
      invariant |sample| == j
      invariant forall k :: 0 <= k < j ==> sample[k] == values[draw[k]]
    {
      sample := sample + [values[draw[j]]];
    }
  }

  lemma {:induction false} Bounds(v: seq<real>) returns (low: real, high: real)
    ensures Within(v, low, high)
  {
    if v == [] {
      low, high := 0.0, 0.0;
    } else {
      low, high := Bounds(v[1..]);
      low, high := if v[0] < low then v[0] else low, if v[0] > high then v[0] else high;
      forall i | 0 <= i < |v| ensures low <= v[i] <= high {
        assert i > 0 ==> v[i] == v[1..][i - 1];
      }
    }
  }

  // ---------- The verdict ----------

  /** One row of the summary: two medians' intervals, and the unattached median. */
  datatype Row = Row(
    unattachedMedian: real, unattachedLow: real, unattachedHigh: real, selectLow: real, selectHigh: real)

  datatype Hypothesis = Supported | Contradicted | Mixed

  datatype Verdict = Verdict(
    hypothesis: Hypothesis, fastPathPositive: bool, selectPositive: bool,
    fastPathContradicted: bool, selectContradicted: bool)

  function Classify(rows: seq<Row>): Verdict {
    var fastPathPositive := forall r :: r in rows ==> r.unattachedMedian >= 0.98 && r.unattachedLow >= 0.97;
    var selectPositive := forall r :: r in rows ==> r.selectLow > 1.0;
    var fastPathContradicted := exists r :: r in rows && r.unattachedHigh < 0.98;
    var selectContradicted := exists r :: r in rows && r.selectHigh <= 1.0;
    Verdict(
      if fastPathPositive && selectPositive then Supported
      else if fastPathContradicted || selectContradicted then Contradicted
      else Mixed,
      fastPathPositive, selectPositive, fastPathContradicted, selectContradicted)
  }

  /** The measurements of one cell: a value for each repetition and condition, and the draws of its bootstraps. */
  datatype Cell = Cell(
    stock: seq<real>, unattached: seq<real>, select: seq<real>, fuse: seq<real>,
    unattachedDraws: seq<seq<nat>>, selectDraws: seq<seq<nat>>)

  /** As many values for each condition, none of them zero or negative. */
  predicate ValidCell(c: Cell) {
    && |c.stock| == |c.unattached| == |c.select| == |c.fuse| > 0
    && (forall i :: 0 <= i < |c.stock| ==> c.stock[i] > 0.0)
    && (forall i :: 0 <= i < |c.fuse| ==> c.fuse[i] > 0.0)
    && FullDraws(c.unattachedDraws, |c.stock|) && FullDraws(c.selectDraws, |c.stock|)
  }

  function Ratios(a: seq<real>, b: seq<real>): (r: seq<real>)
    requires |a| == |b| && forall i :: 0 <= i < |b| ==> b[i] > 0.0
    ensures |r| == |a|
  {
    seq(|a|, i requires 0 <= i < |a| => a[i] / b[i])
  }

  /** The row of a cell, as far as the gates read it. */
  function Summarize(c: Cell): Row
    requires ValidCell(c)
  {
    var unattached, select := Ratios(c.unattached, c.stock), Ratios(c.select, c.fuse);
    var u, s := Interval(unattached, c.unattachedDraws), Interval(select, c.selectDraws);
    Row(Median(unattached), u.0, u.1, s.0, s.1)
  }

  function Summaries(cells: seq<Cell>): (rows: seq<Row>)
    requires forall i :: 0 <= i < |cells| ==> ValidCell(cells[i])
    ensures |rows| == |cells|
  {
    seq(|cells|, i requires 0 <= i < |cells| => Summarize(cells[i]))
  }

  /** Whatever was measured and drawn, the intervals of a row are intervals. */
  lemma RowIsOrdered(c: Cell)
    requires ValidCell(c)
    ensures Summarize(c).unattachedLow <= Summarize(c).unattachedHigh
    ensures Summarize(c).selectLow <= Summarize(c).selectHigh
  {
    hide Interval, Median, Ratios;
    IntervalIsWithin(Ratios(c.unattached, c.stock), c.unattachedDraws);
    IntervalIsWithin(Ratios(c.select, c.fuse), c.selectDraws);
  }

  /**
    Whatever was measured and drawn, the two select gates exclude each other, so a supported verdict hides no
    contradicted select cell.
   */
  lemma {:induction false} SelectGatesExclude(cells: seq<Cell>)
    requires forall i :: 0 <= i < |cells| ==> ValidCell(cells[i])
    ensures var v := Classify(Summaries(cells));
            && !(v.selectPositive && v.selectContradicted)
            && (v.hypothesis == Supported ==> !v.selectContradicted)
  {
    hide Summarize, ValidCell;
    var rows := Summaries(cells);
    forall r | r in rows ensures r.selectLow <= r.selectHigh {
      var i :| 0 <= i < |rows| && rows[i] == r;
      RowIsOrdered(cells[i]);
    }
  }

  // ---------- The gates by counting ----------

  function AtLeast(x: real): real -> bool {
    (y: real) => y >= x
  }

  function Above(x: real): real -> bool {
    (y: real) => y > x
  }

  /** A test that every value above a passing one passes. */
  ghost predicate UpClosed(test: real -> bool) {
    forall y, z :: test(y) && y <= z ==> test(z)
  }

  /** How many values pass. */
  function Passing(v: seq<real>, test: real -> bool): nat {
    |Filter(test, v)|
  }

  lemma {:induction false} CountTells(v: seq<real>, test: real -> bool)
    ensures Passing(v, test) <= |v|
    ensures Passing(v, test) > 0 ==> exists y :: y in v && test(y)
    ensures Passing(v, test) < |v| ==> exists y :: y in v && !test(y)
  {
    if v != [] {
      var m := |v| - 1;
      CountTells(v[..m], test);
      var last := v[m];
      assert last in v && forall y :: y in v[..m] ==> y in v;
      if Passing(v[..m], test) > 0 {
        var y :| y in v[..m] && test(y);
        assert y in v;
      }
      if Passing(v[..m], test) < m {
        var y :| y in v[..m] && !test(y);
        assert y in v;
      }
    }
  }

  function GreatestFailing(v: seq<real>, test: real -> bool): (y: real)
    requires exists z :: z in v && !test(z)
    ensures y in v && !test(y) && forall z :: z in v && !test(z) ==> z <= y
  {
    var m := |v| - 1;
    assert v == v[..m] + [v[m]];
    if exists z :: z in v[..m] && !test(z) then
      var y := GreatestFailing(v[..m], test);
      if y < v[m] && !test(v[m]) then v[m] else y
    else v[m]
  }

  function LeastPassing(v: seq<real>, test: real -> bool): (y: real)
    requires exists z :: z in v && test(z)
    ensures y in v && test(y) && forall z :: z in v && test(z) ==> y <= z
  {
    var m := |v| - 1;
    assert v == v[..m] + [v[m]];
    if exists z :: z in v[..m] && test(z) then
      var y := LeastPassing(v[..m], test);
      if v[m] < y && test(v[m]) then v[m] else y
    else v[m]
  }

  /** In a sorted sample the values that pass are the last ones. */
  lemma {:induction false} SortedCount(v: seq<real>, test: real -> bool, i: nat)
    requires Sorted(v) && UpClosed(test) && i < |v|
    ensures test(v[i]) <==> i >= |v| - Passing(v, test)
  {
    var m := |v| - 1;
    CountTells(v[..m], test);
    if m > 0 {
      SortedCount(v[..m], test, m - 1);
      assert v[m - 1] <= v[m];
    }
    if i < m {
      SortedCount(v[..m], test, i);
    }
  }

  /**
    Whether the value at a fractional index passes, told by counting: enough values do, or one fewer than enough and
    the mean of the two values around the threshold does.
   */
  predicate Reaches(v: seq<real>, position: real, test: real -> bool)
    requires 0.0 <= position <= (|v| - 1) as real
  {
    CountTells(v, test);
    var k, c := position.Floor, Passing(v, test);
    || c >= |v| - k
    || (c == |v| - k - 1 && position > k as real
        && test(Mean(GreatestFailing(v, test), LeastPassing(v, test), position - k as real)))
  }

  /** Sorting and interpolating passes exactly when counting says so. */
  lemma {:induction false} InterpolateReaches(v: seq<real>, position: real, test: real -> bool)
    requires UpClosed(test) && 0.0 <= position <= (|v| - 1) as real
    ensures |Sort(v)| == |v|
    ensures test(Interpolate(Sort(v), position)) <==> Reaches(v, position, test)
  {
    hide Sort, Mean, Interpolate, Passing;
    SortSorts(v);
    var s, k := Sort(v), position.Floor;
    FloorAndCeil(position);
    SamePassing(v, s, test);
    SortedCount(s, test, k);
    InterpolateIsBetween(s, position);
    if position == k as real {
      AtIndex(s, position);
    } else {
      SortedCount(s, test, k + 1);
      OnSegment(s, position);
      if Passing(v, test) == |v| - k - 1 {
        Neighbours(v, s, k, test);
      }
    }
  }

  lemma SamePassing(a: seq<real>, b: seq<real>, test: real -> bool)
    requires multiset(a) == multiset(b)
    ensures Passing(a, test) == Passing(b, test)
  {
    FilterPermutation(test, a, b);
  }

  lemma AtIndex(v: seq<real>, position: real)
    requires 0.0 <= position <= (|v| - 1) as real && position == position.Floor as real
    ensures Interpolate(v, position) == v[position.Floor]
  {
    FloorAndCeil(position);
  }

  /** The neighbours of the place where a sorted sample begins to pass. */
  lemma Neighbours(v: seq<real>, s: seq<real>, k: nat, test: real -> bool)
    requires Sorted(s) && multiset(s) == multiset(v) && UpClosed(test)
    requires k + 1 < |s| && !test(s[k]) && test(s[k + 1])
    ensures (exists y :: y in v && !test(y)) && (exists y :: y in v && test(y))
    ensures s[k] == GreatestFailing(v, test) && s[k + 1] == LeastPassing(v, test)
  {
    SameElements(s, v);
    assert s[k] in v && s[k + 1] in v;
    var low, high := GreatestFailing(v, test), LeastPassing(v, test);
    var i :| 0 <= i < |s| && s[i] == low;
    var j :| 0 <= j < |s| && s[j] == high;
  }

  /** The median passes: more than half of the values do, or half of them and the mean of the middle two. */
  predicate MedianReaches(v: seq<real>, test: real -> bool) {
    CountTells(v, test);
    var c := Passing(v, test);
    2 * c > |v| || (2 * c == |v| > 0 && test((GreatestFailing(v, test) + LeastPassing(v, test)) / 2.0))
  }

  /** The low end passes: 9751 of the 10000 estimates do, or 9750 and the interpolated value. */
  predicate LowReaches(e: seq<real>, test: real -> bool)
    requires |e| == 10000
  {
    CountTells(e, test);
    var c := Passing(e, test);
    c >= 9751 || (c == 9750 && test(GreatestFailing(e, test) * 0.025 + LeastPassing(e, test) * 0.975))
  }

  /** The high end passes: 251 of the 10000 estimates do, or 250 and the interpolated value. */
  predicate HighReaches(e: seq<real>, test: real -> bool)
    requires |e| == 10000
  {
    CountTells(e, test);
    var c := Passing(e, test);
    c >= 251 || (c == 250 && test(GreatestFailing(e, test) * 0.975 + LeastPassing(e, test) * 0.025))
  }

  /** The median is the percentile at one half. */
  lemma MedianIsPercentile(v: seq<real>)
    requires |v| > 0
    ensures |Sort(v)| == |v| && Median(v) == Percentile(Sort(v), 0.5)
  {
    hide Sort;
    SortSorts(v);
    var n := |v|;
    FloorAndCeil(Position(n - 1, 0.5));
    if n % 2 == 1 {
      assert n - 1 == 2 * (n / 2);
      assert Position(n - 1, 0.5) == (n / 2) as real;
    } else {
      assert n - 1 == 2 * (n / 2 - 1) + 1;
      assert Position(n - 1, 0.5) == (n / 2 - 1) as real + 0.5;
    }
  }

  lemma {:induction false} MedianByCounting(v: seq<real>, test: real -> bool)
    requires |v| > 0 && UpClosed(test)
    ensures test(Median(v)) <==> MedianReaches(v, test)
  {
    hide Median, Sort, Interpolate, Passing, GreatestFailing, LeastPassing;
    var n := |v|;
    MedianIsPercentile(v);
    PositionFits(n - 1, 0.5);
    InterpolateReaches(v, Position(n - 1, 0.5), test);
    CountTells(v, test);
    if n % 2 == 1 {
      assert n - 1 == 2 * (n / 2);
      assert Position(n - 1, 0.5) == (n / 2) as real;
    } else {
      assert n - 1 == 2 * (n / 2 - 1) + 1;
      assert Position(n - 1, 0.5) == (n / 2 - 1) as real + 0.5;
    }
  }

  /** The medians of the resamples that the draws pick. */
  ghost function ResampledMedians(values: seq<real>, draws: seq<seq<nat>>): (e: seq<real>)
    requires FullDraws(draws, |values|) && values != []
    ensures |e| == 10000
  {
    seq(10000, i requires 0 <= i < 10000 =>
      Median(seq(|values|, j requires 0 <= j < |values| => values[draws[i][j]])))
  }

  lemma {:induction false} EstimatesAre(values: seq<real>, draws: seq<seq<nat>>, n: nat)
    requires FullDraws(draws, |values|) && values != [] && n <= 10000
    ensures Estimates(values, draws, n) == ResampledMedians(values, draws)[..n]
  {
    hide Median;
    if n > 0 {
      EstimatesAre(values, draws, n - 1);
      var picked := Picked(values, draws[n - 1]);
      assert picked == seq(|values|, j requires 0 <= j < |values| => values[draws[n - 1][j]]);
    }
  }

  /** Both ends of the bootstrap interval are decided by counting resampled medians. */
  lemma {:induction false} IntervalByCounting(values: seq<real>, draws: seq<seq<nat>>, test: real -> bool)
    requires FullDraws(draws, |values|) && values != [] && UpClosed(test)
    ensures test(Interval(values, draws).0) <==> LowReaches(ResampledMedians(values, draws), test)
    ensures test(Interval(values, draws).1) <==> HighReaches(ResampledMedians(values, draws), test)
  {
    hide Sort, Interpolate, Passing, GreatestFailing, LeastPassing, Estimates, ResampledMedians;
    var e := Estimates(values, draws, BOOTSTRAP_SAMPLES);
    EstimatesAre(values, draws, 10000);
    assert e == ResampledMedians(values, draws);
    SortSorts(e);
    assert Position(9999, 0.025) == 249.975 && Position(9999, 0.975) == 9749.025;
    InterpolateReaches(e, 249.975, test);
    InterpolateReaches(e, 9749.025, test);
    CountTells(e, test);
  }

  // ---------- The verdict of measured cells ----------

  ghost function UnattachedOverStock(c: Cell): (q: seq<real>)
    requires ValidCell(c)
    ensures |q| == |c.stock|
  {
    seq(|c.stock|, i requires 0 <= i < |c.stock| => c.unattached[i] / c.stock[i])
  }

  ghost function SelectOverFuse(c: Cell): (q: seq<real>)
    requires ValidCell(c)
    ensures |q| == |c.fuse|
  {
    seq(|c.fuse|, i requires 0 <= i < |c.fuse| => c.select[i] / c.fuse[i])
  }

  /** Most of a cell's ratios reach 0.98, and enough of their resampled medians reach 0.97. */
  ghost predicate PassesFastPath(c: Cell)
    requires ValidCell(c)
  {
    && MedianReaches(UnattachedOverStock(c), AtLeast(0.98))
    && LowReaches(ResampledMedians(UnattachedOverStock(c), c.unattachedDraws), AtLeast(0.97))
  }

  /** Too few of the resampled medians of a cell's ratios reach 0.98. */
  ghost predicate ContradictsFastPath(c: Cell)
    requires ValidCell(c)
  {
    !HighReaches(ResampledMedians(UnattachedOverStock(c), c.unattachedDraws), AtLeast(0.98))
  }

  /** Enough of the resampled medians of select over fuse are above 1 to leave only 1 below the interval. */
  ghost predicate PassesSelect(c: Cell)
    requires ValidCell(c)
  {
    LowReaches(ResampledMedians(SelectOverFuse(c), c.selectDraws), Above(1.0))
  }

  /** Too few of the resampled medians of select over fuse are above 1. */
  ghost predicate ContradictsSelect(c: Cell)
    requires ValidCell(c)
  {
    !HighReaches(ResampledMedians(SelectOverFuse(c), c.selectDraws), Above(1.0))
  }

  /**
    Both gates in one cell: half of its ratios reach 0.98 and nearly all resampled medians reach 0.97, yet at most 250
    of the 10000 reach 0.98.
   */
  lemma ClashWithinCell(c: Cell)
    requires ValidCell(c) && PassesFastPath(c) && ContradictsFastPath(c)
    ensures var ratios := UnattachedOverStock(c);
            var medians := ResampledMedians(ratios, c.unattachedDraws);
            && 2 * Passing(ratios, AtLeast(0.98)) >= |ratios|
            && Passing(medians, AtLeast(0.97)) >= 9750 && Passing(medians, AtLeast(0.98)) <= 250
  {
    hide ResampledMedians, UnattachedOverStock, Passing, GreatestFailing, LeastPassing;
  }

  lemma RowByCounting(c: Cell)
    requires ValidCell(c)
    ensures Summarize(c).unattachedMedian >= 0.98 && Summarize(c).unattachedLow >= 0.97 <==> PassesFastPath(c)
    ensures Summarize(c).unattachedHigh < 0.98 <==> ContradictsFastPath(c)
    ensures Summarize(c).selectLow > 1.0 <==> PassesSelect(c)
    ensures Summarize(c).selectHigh <= 1.0 <==> ContradictsSelect(c)
  {
    hide Interval, Median, MedianReaches, LowReaches, HighReaches, ResampledMedians;
    var fast, select := UnattachedOverStock(c), SelectOverFuse(c);
    assert fast == Ratios(c.unattached, c.stock) && select == Ratios(c.select, c.fuse);
    MedianByCounting(fast, AtLeast(0.98));
    IntervalByCounting(fast, c.unattachedDraws, AtLeast(0.97));
    IntervalByCounting(fast, c.unattachedDraws, AtLeast(0.98));
    IntervalByCounting(select, c.selectDraws, Above(1.0));
  }

  lemma RowsByCounting(cells: seq<Cell>)
    requires forall i :: 0 <= i < |cells| ==> ValidCell(cells[i])
    ensures var v := Classify(Summaries(cells));
            && (v.fastPathPositive <==> forall i :: 0 <= i < |cells| ==> PassesFastPath(cells[i]))
            && (v.selectPositive <==> forall i :: 0 <= i < |cells| ==> PassesSelect(cells[i]))
            && (v.fastPathContradicted <==> exists i :: 0 <= i < |cells| && ContradictsFastPath(cells[i]))
            && (v.selectContradicted <==> exists i :: 0 <= i < |cells| && ContradictsSelect(cells[i]))
  {
    hide Summarize, ValidCell, PassesFastPath, ContradictsFastPath, PassesSelect, ContradictsSelect;
    var rows := Summaries(cells);
    forall i | 0 <= i < |cells|
      ensures rows[i] in rows
      ensures rows[i].unattachedMedian >= 0.98 && rows[i].unattachedLow >= 0.97 <==> PassesFastPath(cells[i])
      ensures rows[i].unattachedHigh < 0.98 <==> ContradictsFastPath(cells[i])
      ensures rows[i].selectLow > 1.0 <==> PassesSelect(cells[i])
      ensures rows[i].selectHigh <= 1.0 <==> ContradictsSelect(cells[i])
    {
      RowByCounting(cells[i]);
    }
    forall r ensures r in rows <==> exists i :: 0 <= i < |rows| && rows[i] == r {
    }
  }

  /**
    The verdict of any measurements and draws, by the counts of ratios and resampled medians: supported when every
    cell passes both gates, else contradicted when some cell contradicts one, else mixed.
   */
  lemma {:induction false} VerdictByCounting(cells: seq<Cell>)
    requires forall i :: 0 <= i < |cells| ==> ValidCell(cells[i])
    ensures var h := Classify(Summaries(cells)).hypothesis;
            var supported := forall i :: 0 <= i < |cells| ==> PassesFastPath(cells[i]) && PassesSelect(cells[i]);
            var contradicted :=
              exists i :: 0 <= i < |cells| && (ContradictsFastPath(cells[i]) || ContradictsSelect(cells[i]));
            && (h == Supported <==> supported)
            && (h == Contradicted <==> !supported && contradicted)
            && (h == Mixed <==> !supported && !contradicted)
  {
    hide Summaries, ValidCell, PassesFastPath, ContradictsFastPath, PassesSelect, ContradictsSelect;
    RowsByCounting(cells);
  }

  /**
    The two fast-path gates do not exclude each other. Both hold exactly when every cell passes, by the counts of its
    ratios and resampled medians, and in some cell too few resampled medians reach 0.98.
   */
  lemma {:induction false} FastPathGatesClash(cells: seq<Cell>)
    requires forall i :: 0 <= i < |cells| ==> ValidCell(cells[i])
    ensures var v := Classify(Summaries(cells));
            v.fastPathPositive && v.fastPathContradicted <==>
              && (forall i :: 0 <= i < |cells| ==> PassesFastPath(cells[i]))
              && (exists i :: 0 <= i < |cells| && ContradictsFastPath(cells[i]))
  {
    hide Summaries, ValidCell, PassesFastPath, ContradictsFastPath, PassesSelect, ContradictsSelect;
    RowsByCounting(cells);
  }

  /** Three repetitions of which every resample draws only the first. */
  function UnluckyCell(): Cell {
    var first := seq(BOOTSTRAP_SAMPLES, _ => [0, 0, 0]);
    Cell([1.0, 1.0, 1.0], [0.97, 0.98, 0.98], [2.0, 2.0, 2.0], [1.0, 1.0, 1.0], first, first)
  }

  lemma UnluckyIntervals()
    ensures ValidCell(UnluckyCell())
    ensures Summarize(UnluckyCell()) == Row(0.98, 0.97, 0.97, 2.0, 2.0)
  {
    hide Interval, Median;
    var c := UnluckyCell();
    var u, s := Ratios(c.unattached, c.stock), Ratios(c.select, c.fuse);
    assert u == [0.97, 0.98, 0.98] && s == [2.0, 2.0, 2.0];
    forall i | 0 <= i < BOOTSTRAP_SAMPLES
      ensures Within(Picked(u, c.unattachedDraws[i]), 0.97, 0.97) && Within(Picked(s, c.selectDraws[i]), 2.0, 2.0)
    {
      assert c.unattachedDraws[i] == [0, 0, 0] && c.selectDraws[i] == [0, 0, 0];
    }
    IntervalIsOrdered(u, c.unattachedDraws, 0.97, 0.97);
    IntervalIsOrdered(s, c.selectDraws, 2.0, 2.0);
    MedianOfThree();
  }

  lemma MedianOfThree()
    ensures Median([0.97, 0.98, 0.98]) == 0.98
  {
    hide Median;
    var v: seq<real> := [0.97, 0.98, 0.98];
    var test := AtLeast(0.98);
    assert v[..2] == [0.97, 0.98] && [0.97, 0.98][..1] == [0.97];
    FilterOne(test, 0.97);
    assert Filter(test, [0.97, 0.98]) == [0.98];
    MedianByCounting(v, AtLeast(0.98));
    MedianIsWithin(v, 0.97, 0.98);
  }

  /** For some draws it happens, under a supported verdict: here in all nine cells of a summary. */
  lemma {:induction false} FastPathGatesCanClash(cells: seq<Cell>)
    requires cells == seq(9, _ => UnluckyCell())
    ensures forall i :: 0 <= i < |cells| ==> ValidCell(cells[i])
    ensures Classify(Summaries(cells)) == Verdict(Supported, true, true, true, false)
  {
    hide Summarize, ValidCell, UnluckyCell;
    UnluckyIntervals();
    var rows := Summaries(cells);
    assert forall r :: r in rows ==> r == Row(0.98, 0.97, 0.97, 2.0, 2.0);
    assert rows[0] in rows;
  }
}
