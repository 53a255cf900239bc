/** Latency summaries: exact from samples, updated one sample at a time, and merged. Durations are integers,
    percentile arithmetic is over the reals and truncated back toward zero. */
module LatencySummaries {
  import opened Numbers
  import opened Sorting

  datatype Summary = Summary(count: nat, sum: int, min: int, max: int, p50: int, p90: int, p95: int, p99: int)

  const ZERO := Summary(0, 0, 0, 0, 0, 0, 0, 0)

  function Sum(xs: seq<int>): int {
    if xs == [] then 0 else Sum(xs[..|xs| - 1]) + xs[|xs| - 1]
  }

  /** The value at fraction p of a sorted sample. */
  function Percentile(xs: seq<int>, p: real): int
    requires xs != [] && 0.0 <= p <= 1.0
  {
    ValueAt(xs, Index(p, (|xs| - 1) as real))
  }

  /** The value at a fractional index: interpolated between neighbours and truncated. */
  function ValueAt(xs: seq<int>, index: real): int
    requires xs != [] && 0.0 <= index <= (|xs| - 1) as real
  {
    var lower := index.Floor;
    if lower as real == index then xs[lower]
    else Truncate(Between(xs[lower] as real, xs[lower + 1] as real, index - lower as real))
  }

  /** Linear interpolation. */
  function Between(a: real, b: real, w: real): real {
    a * (1.0 - w) + b * w
  }

  /** The fractional position at fraction p of the way from 0 to n. */
  function Index(p: real, n: real): (i: real)
    requires 0.0 <= p <= 1.0 && n >= 0.0
    ensures 0.0 <= i <= n
  {
    p * n
  }

  /** CalculateLatencySummary. */
  function Calculate(samples: seq<int>): Summary {
    if samples == [] then ZERO else
      var s := Sort(samples);
      Summary(|s|, Sum(s), s[0], s[|s| - 1],
              Percentile(s, 0.50), Percentile(s, 0.90), Percentile(s, 0.95), Percentile(s, 0.99))
  }

  /** UpdateLatency; the percentiles are left alone. */
  function Update(s: Summary, sample: int): Summary {
    s.(count := s.count + 1, sum := s.sum + sample,
       min := if s.count == 0 || sample < s.min then sample else s.min,
       max := if s.count == 0 || sample > s.max then sample else s.max)
  }

  function Min(a: int, b: int): int {
    if a < b then a else b
  }

  function Max(a: int, b: int): int {
    if a > b then a else b
  }

  /** The count-weighted average of two percentiles, truncated. */
  function Blend(x: int, m: nat, y: int, n: nat): int
    requires m + n > 0
  {
    var total := (m + n) as real;
    Truncate(Weighted(x as real, m as real / total, y as real, n as real / total))
  }

  function Weighted(x: real, v: real, y: real, w: real): real {
    x * v + y * w
  }

  /** MergeLatencySummaries. */
  function Merge(a: Summary, b: Summary): Summary {
    if a.count == 0 then b
    else if b.count == 0 then a
    else Summary(a.count + b.count, a.sum + b.sum, Min(a.min, b.min), Max(a.max, b.max),
                 Blend(a.p50, a.count, b.p50, b.count), Blend(a.p90, a.count, b.p90, b.count),
                 Blend(a.p95, a.count, b.p95, b.count), Blend(a.p99, a.count, b.p99, b.count))
  }

  // What the four exact fields mean.

  ghost predicate IsMin(xs: seq<int>, m: int) {
    m in xs && forall x :: x in xs ==> m <= x
  }

  ghost predicate IsMax(xs: seq<int>, m: int) {
    m in xs && forall x :: x in xs ==> x <= m
  }

  /** Count, sum, minimum and maximum of xs; the zero summary stands for no samples. */
  ghost predicate Summarises(s: Summary, xs: seq<int>) {
    && s.count == |xs| && s.sum == Sum(xs)
    && (xs != [] ==> IsMin(xs, s.min) && IsMax(xs, s.max))
  }

  lemma {:induction false} SumConcat(a: seq<int>, b: seq<int>)
    ensures Sum(a + b) == Sum(a) + Sum(b)
  {
    if b == [] {
      assert a + b == a;
    } else {
      assert (a + b)[..|a + b| - 1] == a + b[..|b| - 1];
      SumConcat(a, b[..|b| - 1]);
    }
  }

  lemma Cancel<T>(a: multiset<T>, b: multiset<T>, x: T)
    requires a + multiset{x} == b + multiset{x}
    ensures a == b
  {
    assert a == (a + multiset{x}) - multiset{x};
    assert b == (b + multiset{x}) - multiset{x};
  }

  /** The sum does not depend on the order. */
  lemma {:induction false} SumIsOrderFree(a: seq<int>, b: seq<int>)
    requires multiset(a) == multiset(b)
    ensures Sum(a) == Sum(b)
    decreases |a|
  {
    if a == [] {
      assert |multiset(b)| == 0;
    } else {
      var x := a[|a| - 1];
      assert x in multiset(b);
      var i :| 0 <= i < |b| && b[i] == x;
      var front := a[..|a| - 1];
      assert a == front + [x];
      assert b == b[..i] + ([x] + b[i + 1..]);
      assert multiset(a) == multiset(front) + multiset{x};
      assert multiset(b) == multiset(b[..i] + b[i + 1..]) + multiset{x};
      Cancel(multiset(front), multiset(b[..i] + b[i + 1..]), x);
      SumIsOrderFree(front, b[..i] + b[i + 1..]);
      SumConcat(b[..i], [x] + b[i + 1..]);
      SumConcat([x], b[i + 1..]);
      SumConcat(b[..i], b[i + 1..]);
      assert [x][..0] == [];
    }
  }

  lemma SortedEnds(samples: seq<int>)
    requires samples != []
    ensures var s := Sort(samples);
            Sum(s) == Sum(samples) && IsMin(samples, s[0]) && IsMax(samples, s[|s| - 1])
  {
    var s := Sort(samples);
    SumIsOrderFree(s, samples);
    SameElements(s, samples);
    EndsOfSorted(s);
  }

  lemma EndsOfSorted(s: seq<int>)
    requires s != [] && Sorted(s)
    ensures IsMin(s, s[0]) && IsMax(s, s[|s| - 1])
  {
  }

  /** The exact summary of samples is theirs in count, sum, minimum and maximum. */
  lemma CalculateSummarises(samples: seq<int>)
    ensures Summarises(Calculate(samples), samples)
  {
    if samples != [] {
      SortedEnds(samples);
    }
  }

  /** Merging summaries of two samples gives a summary of the two together. */
  lemma MergeSummarises(a: Summary, xs: seq<int>, b: Summary, ys: seq<int>)
    requires Summarises(a, xs) && Summarises(b, ys)
    ensures Summarises(Merge(a, b), xs + ys)
  {
    SumConcat(xs, ys);
    if xs == [] {
      assert xs + ys == ys;
    } else if ys == [] {
      assert xs + ys == xs;
    }
  }

  lemma UpdateSummarises(s: Summary, xs: seq<int>, sample: int)
    requires Summarises(s, xs)
    ensures Summarises(Update(s, sample), xs + [sample])
  {
    assert (xs + [sample])[..|xs|] == xs;
  }

  /** Two summaries of the same samples agree on the four exact fields. */
  lemma SummaryIsUnique(a: Summary, b: Summary, xs: seq<int>)
    requires xs != [] && Summarises(a, xs) && Summarises(b, xs)
    ensures a.count == b.count && a.sum == b.sum && a.min == b.min && a.max == b.max
  {
  }

  ghost predicate SameCore(a: Summary, b: Summary) {
    a.count == b.count && a.sum == b.sum && a.min == b.min && a.max == b.max
  }

  /** Merge of the summaries agrees with the summary of the concatenation on count, sum, minimum and maximum. */
  lemma MergeIsHomomorphic(xs: seq<int>, ys: seq<int>)
    ensures SameCore(Merge(Calculate(xs), Calculate(ys)), Calculate(xs + ys))
  {
    CalculateSummarises(xs);
    CalculateSummarises(ys);
    MergeSummarises(Calculate(xs), xs, Calculate(ys), ys);
    CalculateSummarises(xs + ys);
    if xs + ys != [] {
      SummaryIsUnique(Merge(Calculate(xs), Calculate(ys)), Calculate(xs + ys), xs + ys);
    }
  }

  function UpdateAll(s: Summary, xs: seq<int>): Summary {
    if xs == [] then s else Update(UpdateAll(s, xs[..|xs| - 1]), xs[|xs| - 1])
  }

  lemma {:induction false} UpdateAllSummarises(xs: seq<int>)
    ensures Summarises(UpdateAll(ZERO, xs), xs)
    decreases |xs|
  {
    if xs != [] {
      UpdateAllSummarises(xs[..|xs| - 1]);
      UpdateSummarises(UpdateAll(ZERO, xs[..|xs| - 1]), xs[..|xs| - 1], xs[|xs| - 1]);
      assert xs == xs[..|xs| - 1] + [xs[|xs| - 1]];
    }
  }

  /** Updating sample by sample gives the same four fields as summarising them all at once. */
  lemma UpdatingEqualsCalculating(xs: seq<int>)
    ensures SameCore(UpdateAll(ZERO, xs), Calculate(xs))
  {
    UpdateAllSummarises(xs);
    CalculateSummarises(xs);
    if xs != [] {
      SummaryIsUnique(UpdateAll(ZERO, xs), Calculate(xs), xs);
    }
  }

  // Order of the percentiles.

  predicate Ordered(s: Summary) {
    s.min <= s.p50 <= s.p90 <= s.p95 <= s.p99 <= s.max
  }

  lemma TruncateIsMonotone(x: real, y: real)
    requires x <= y
    ensures Truncate(x) <= Truncate(y)
  {
  }

  lemma TruncateKeepsBounds(lo: int, x: real, hi: int)
    requires lo as real <= x <= hi as real
    ensures lo <= Truncate(x) <= hi
  {
    TruncateIsMonotone(lo as real, x);
    TruncateIsMonotone(x, hi as real);
  }

  lemma BetweenIsMonotone(a: real, b: real, v: real, w: real)
    requires a <= b && v <= w
    ensures Between(a, b, v) <= Between(a, b, w)
  {
    assert Between(a, b, v) == a + (b - a) * v && Between(a, b, w) == a + (b - a) * w;
    assert (b - a) * v <= (b - a) * w;
  }

  lemma BetweenEnds(a: real, b: real)
    ensures Between(a, b, 0.0) == a && Between(a, b, 1.0) == b
  {
  }

  /** The interpolated value lies between the two samples around it. */
  lemma ValueBounds(xs: seq<int>, index: real)
    requires xs != [] && Sorted(xs) && 0.0 <= index <= (|xs| - 1) as real
    ensures var lower := index.Floor;
            xs[lower] <= ValueAt(xs, index) &&
            (if lower as real == index then ValueAt(xs, index) == xs[lower]
             else lower + 1 < |xs| && ValueAt(xs, index) <= xs[lower + 1])
  {
    var lower := index.Floor;
    if lower as real != index {
      var a, b := xs[lower] as real, xs[lower + 1] as real;
      var w := index - lower as real;
      BetweenEnds(a, b);
      BetweenIsMonotone(a, b, 0.0, w);
      BetweenIsMonotone(a, b, w, 1.0);
      TruncateKeepsBounds(xs[lower], Between(a, b, w), xs[lower + 1]);
    }
  }

  lemma ValueIsMonotone(xs: seq<int>, i: real, j: real)
    requires xs != [] && Sorted(xs) && 0.0 <= i <= j <= (|xs| - 1) as real
    ensures ValueAt(xs, i) <= ValueAt(xs, j)
  {
    ValueBounds(xs, i);
    ValueBounds(xs, j);
    if i.Floor == j.Floor && i.Floor as real != i {
      var a, b := xs[i.Floor] as real, xs[i.Floor + 1] as real;
      var v, w := i - i.Floor as real, j - i.Floor as real;
      BetweenIsMonotone(a, b, v, w);
      TruncateIsMonotone(Between(a, b, v), Between(a, b, w));
    }
  }

  /** A higher percentile of a sorted sample is not lower, and all lie between its ends. */
  lemma PercentileIsMonotone(xs: seq<int>, p: real, q: real)
    requires xs != [] && Sorted(xs) && 0.0 <= p <= q <= 1.0
    ensures xs[0] <= Percentile(xs, p) <= Percentile(xs, q) <= xs[|xs| - 1]
  {
    var n := (|xs| - 1) as real;
    IndexIsMonotone(p, q, n);
    PercentilesOfIndices(xs, Index(p, n), Index(q, n));
  }

  lemma PercentilesOfIndices(xs: seq<int>, i: real, j: real)
    requires xs != [] && Sorted(xs) && 0.0 <= i <= j <= (|xs| - 1) as real
    ensures xs[0] <= ValueAt(xs, i) <= ValueAt(xs, j) <= xs[|xs| - 1]
  {
    ValueBounds(xs, i);
    ValueBounds(xs, j);
    ValueIsMonotone(xs, i, j);
  }

  lemma IndexIsMonotone(p: real, q: real, n: real)
    requires 0.0 <= p <= q <= 1.0 && n >= 0.0
    ensures Index(p, n) <= Index(q, n)
  {
  }

  // What the percentiles are.

  /** v is the value at the fraction p of the way through the sorted sample xs: the rank p (n - 1) falls between two
      neighbouring samples, the value lies between them within one unit of the straight line through the two, and it is
      the sample itself at a whole rank. */
  ghost predicate IsPercentile(xs: seq<int>, p: real, v: int) {
    forall k: int | 0 <= k < |xs| && k as real <= p * (|xs| - 1) as real <= (k + 1) as real :: AtRank(xs, p, k, v)
  }

  ghost predicate AtRank(xs: seq<int>, p: real, k: int, v: int)
    requires 0 <= k < |xs|
  {
    var above := p * (|xs| - 1) as real - k as real;
    if above == 0.0 then v == xs[k]
    else k + 1 < |xs| && xs[k] <= v <= xs[k + 1] &&
         var line := xs[k] as real + above * (xs[k + 1] - xs[k]) as real;
         line - 1.0 < v as real < line + 1.0
  }

  lemma ValueAtRank(xs: seq<int>, index: real, k: int)
    requires Sorted(xs) && 0 <= k < |xs| && 0.0 <= index <= (|xs| - 1) as real
    requires k as real <= index <= (k + 1) as real
    ensures index == k as real ==> ValueAt(xs, index) == xs[k]
    ensures index > k as real ==>
              && k + 1 < |xs| && xs[k] <= ValueAt(xs, index) <= xs[k + 1]
              && var line := xs[k] as real + (index - k as real) * (xs[k + 1] - xs[k]) as real;
                 line - 1.0 < ValueAt(xs, index) as real < line + 1.0
  {
    ValueBounds(xs, index);
    if index == (k + 1) as real {
      assert index.Floor == k + 1;
    } else {
      assert index.Floor == k;
      if index > k as real {
        BetweenIsLine(xs[k], xs[k + 1], index - k as real);
        TruncateTowardZero(Between(xs[k] as real, xs[k + 1] as real, index - k as real));
      }
    }
  }

  lemma BetweenIsLine(a: int, b: int, w: real)
    ensures Between(a as real, b as real, w) == a as real + w * (b - a) as real
  {
    assert (b - a) as real == b as real - a as real;
  }

  lemma PercentileIsAtRank(xs: seq<int>, p: real)
    requires xs != [] && Sorted(xs) && 0.0 <= p <= 1.0
    ensures IsPercentile(xs, p, Percentile(xs, p))
  {
    var index := p * (|xs| - 1) as real;
    assert index == Index(p, (|xs| - 1) as real);
    forall k: int | 0 <= k < |xs| && k as real <= index <= (k + 1) as real
      ensures AtRank(xs, p, k, Percentile(xs, p))
    {
      ValueAtRank(xs, index, k);
    }
  }

  /** Every non-empty sample has such a rank, so there is a percentile to speak of. */
  lemma RankExists(n: nat, p: real) returns (k: nat)
    requires n > 0 && 0.0 <= p <= 1.0
    ensures k < n && k as real <= p * (n - 1) as real < (k + 1) as real
  {
    var index := Index(p, (n - 1) as real);
    k := index.Floor;
    assert index == p * (n - 1) as real;
  }

  /** The four percentiles of an exact summary are those of the sorted samples at 0.50, 0.90, 0.95 and 0.99. */
  lemma CalculateHasPercentiles(samples: seq<int>, sorted: seq<int>)
    requires samples != [] && Sorted(sorted) && multiset(sorted) == multiset(samples)
    ensures var s := Calculate(samples);
            && IsPercentile(sorted, 0.50, s.p50) && IsPercentile(sorted, 0.90, s.p90)
            && IsPercentile(sorted, 0.95, s.p95) && IsPercentile(sorted, 0.99, s.p99)
  {
    SortedIsUnique(sorted, Sort(samples));
    PercentileIsAtRank(sorted, 0.50);
    PercentileIsAtRank(sorted, 0.90);
    PercentileIsAtRank(sorted, 0.95);
    PercentileIsAtRank(sorted, 0.99);
  }

  /** Every exact summary of at least one sample has its percentiles in order between minimum and maximum. */
  lemma CalculateIsOrdered(samples: seq<int>)
    ensures Ordered(Calculate(samples))
  {
    if samples != [] {
      var s := Sort(samples);
      PercentileIsMonotone(s, 0.50, 0.90);
      PercentileIsMonotone(s, 0.90, 0.95);
      PercentileIsMonotone(s, 0.95, 0.99);
    }
  }

  lemma BlendIsMonotone(x: int, x': int, m: nat, y: int, y': int, n: nat)
    requires m + n > 0 && x <= x' && y <= y'
    ensures Blend(x, m, y, n) <= Blend(x', m, y', n)
  {
    Weights(m, n);
    var total := (m + n) as real;
    var v, w := m as real / total, n as real / total;
    WeightedIsMonotone(x as real, x' as real, v, y as real, y' as real, w);
    TruncateIsMonotone(Weighted(x as real, v, y as real, w), Weighted(x' as real, v, y' as real, w));
  }

  lemma WeightedIsMonotone(x: real, x': real, v: real, y: real, y': real, w: real)
    requires x <= x' && y <= y' && v >= 0.0 && w >= 0.0
    ensures Weighted(x, v, y, w) <= Weighted(x', v, y', w)
  {
    assert x * v <= x' * v;
    assert y * w <= y' * w;
  }

  /** The two weights are non-negative and add up to one. */
  lemma Weights(m: nat, n: nat)
    requires m + n > 0
    ensures var total := (m + n) as real;
            m as real / total >= 0.0 && n as real / total >= 0.0 && m as real / total + n as real / total == 1.0
  {
    var total := (m + n) as real;
    assert m as real + n as real == total;
    assert m as real / total + n as real / total == (m as real + n as real) / total;
  }

  /** Blending equal values gives that value. */
  lemma BlendOfEqual(x: int, m: nat, n: nat)
    requires m + n > 0
    ensures Blend(x, m, x, n) == x
  {
    Weights(m, n);
    Distribute(x as real, m as real / (m + n) as real, n as real / (m + n) as real);
  }

  lemma Distribute(x: real, v: real, w: real)
    requires v + w == 1.0
    ensures Weighted(x, v, x, w) == x
  {
    assert x * v + x * w == x * (v + w);
  }

  /** Less than one unit off the average of x and y weighted by m and n. */
  predicate Averages(v: int, x: int, m: nat, y: int, n: nat) {
    var total, sum := m + n, m * x + n * y;
    sum - total < total * v < sum + total
  }

  lemma BlendAverages(x: int, m: nat, y: int, n: nat)
    requires m + n > 0
    ensures Averages(Blend(x, m, y, n), x, m, y, n)
  {
    var total := (m + n) as real;
    var mean := Weighted(x as real, m as real / total, y as real, n as real / total);
    WeightedTotal(x, m, y, n);
    TruncateTowardZero(mean);
    NearMean(m + n, m * x + n * y, mean, Blend(x, m, y, n));
  }

  lemma NearMean(total: int, sum: int, mean: real, v: int)
    requires total > 0 && total as real * mean == sum as real && mean - 1.0 < v as real < mean + 1.0
    ensures sum - total < total * v < sum + total
  {
    ProductOfReals(total, v);
    Scaled(total as real, mean, v as real, sum as real, (total * v) as real);
    NoReals(sum, total, total * v);
  }

  lemma NoReals(sum: int, total: int, product: int)
    requires sum as real - total as real < product as real < sum as real + total as real
    ensures sum - total < product < sum + total
  {
  }

  /** The weighted mean times the total count is the weighted sum. */
  lemma WeightedTotal(x: int, m: nat, y: int, n: nat)
    requires m + n > 0
    ensures var total := (m + n) as real;
            total * Weighted(x as real, m as real / total, y as real, n as real / total) == (m * x + n * y) as real
  {
    var total := (m + n) as real;
    var v, w := m as real / total, n as real / total;
    assert total * v == m as real && total * w == n as real;
    assert total * (x as real * v + y as real * w) == x as real * (total * v) + y as real * (total * w);
    ProductOfReals(m, x);
    ProductOfReals(n, y);
  }

  lemma ProductOfReals(a: int, b: int)
    ensures (a * b) as real == a as real * b as real
  {
  }

  lemma Scaled(total: real, mean: real, v: real, sum: real, product: real)
    requires total > 0.0 && mean - 1.0 < v < mean + 1.0 && total * mean == sum && total * v == product
    ensures sum - total < product < sum + total
  {
    Shift(total, mean, sum);
    Increasing(total, mean - 1.0, v, sum - total, product);
    Increasing(total, v, mean + 1.0, product, sum + total);
  }

  lemma Shift(total: real, mean: real, sum: real)
    requires total * mean == sum
    ensures total * (mean - 1.0) == sum - total && total * (mean + 1.0) == sum + total
  {
  }

  lemma Increasing(total: real, low: real, high: real, a: real, b: real)
    requires total > 0.0 && low < high && a == total * low && b == total * high
    ensures a < b
  {
  }

  /** Merging averages each percentile with its like, by the number of samples. */
  lemma MergeAveragesPercentiles(a: Summary, b: Summary)
    requires a.count > 0 && b.count > 0
    ensures var s := Merge(a, b);
            && Averages(s.p50, a.p50, a.count, b.p50, b.count) && Averages(s.p90, a.p90, a.count, b.p90, b.count)
            && Averages(s.p95, a.p95, a.count, b.p95, b.count) && Averages(s.p99, a.p99, a.count, b.p99, b.count)
  {
    BlendAverages(a.p50, a.count, b.p50, b.count);
    BlendAverages(a.p90, a.count, b.p90, b.count);
    BlendAverages(a.p95, a.count, b.p95, b.count);
    BlendAverages(a.p99, a.count, b.p99, b.count);
  }

  /** Merging keeps the percentiles in order, truncation notwithstanding. */
  lemma MergeIsOrdered(a: Summary, b: Summary)
    requires Ordered(a) && Ordered(b)
    ensures Ordered(Merge(a, b))
  {
    if a.count > 0 && b.count > 0 {
      var m, n := a.count, b.count;
      var lo, hi := Min(a.min, b.min), Max(a.max, b.max);
      BlendOfEqual(lo, m, n);
      BlendOfEqual(hi, m, n);
      BlendIsMonotone(lo, a.p50, m, lo, b.p50, n);
      BlendIsMonotone(a.p50, a.p90, m, b.p50, b.p90, n);
      BlendIsMonotone(a.p90, a.p95, m, b.p90, b.p95, n);
      BlendIsMonotone(a.p95, a.p99, m, b.p95, b.p99, n);
      BlendIsMonotone(a.p99, hi, m, b.p99, hi, n);
    }
  }

  /** An update widens the range but leaves the percentiles, so it breaks their order exactly when it is the first
      sample and the percentiles it inherits are not all equal to it. */
  lemma UpdateKeepsOrderIff(s: Summary, sample: int)
    requires Ordered(s)
    ensures Ordered(Update(s, sample)) <==> s.count > 0 || s.p50 == s.p90 == s.p95 == s.p99 == sample
  {
  }

  lemma {:induction false} UpdatesLeavePercentiles(s: Summary, xs: seq<int>)
    ensures var r := UpdateAll(s, xs);
            r.p50 == s.p50 && r.p90 == s.p90 && r.p95 == s.p95 && r.p99 == s.p99
    decreases |xs|
  {
    if xs != [] {
      UpdatesLeavePercentiles(s, xs[..|xs| - 1]);
    }
  }

  /** A summary built by updates alone has its percentiles in order exactly when some sample is at most zero and some
      is at least zero: they are all zero whatever the samples. */
  lemma UpdatedFromZeroIsOrderedIff(xs: seq<int>)
    requires xs != []
    ensures Ordered(UpdateAll(ZERO, xs)) <==> (exists x :: x in xs && x <= 0) && (exists x :: x in xs && x >= 0)
  {
    UpdatesLeavePercentiles(ZERO, xs);
    UpdateAllSummarises(xs);
    var r := UpdateAll(ZERO, xs);
    assert IsMin(xs, r.min) && IsMax(xs, r.max);
  }

  // The program's own form.

  /** A summary that callers hold by reference. */
  class SummaryRef {
    var s: Summary

    constructor ()
      ensures s == ZERO
    {
      s := ZERO;
    }

    method UpdateLatency(sample: int)
      modifies this
      ensures s == Update(old(s), sample)
    {
      if s.count == 0 {
        s := s.(min := sample, max := sample);
      } else {
        if sample < s.min {
          s := s.(min := sample);
        }
        if sample > s.max {
          s := s.(max := sample);
        }
      }
      s := s.(count := s.count + 1);
      s := s.(sum := s.sum + sample);
    }
  }

  method CalculateLatencySummary(samples: seq<int>) returns (r: Summary)
    ensures r == Calculate(samples)
  {
    if |samples| == 0 {
      return ZERO;
    }
    var sorted := Sort(samples);
    var sum, i := 0, 0;
    while i < |sorted|
      invariant 0 <= i <= |sorted|
      invariant sum == Sum(sorted[..i])
    {
      assert sorted[..i + 1][..i] == sorted[..i];
      sum := sum + sorted[i];
      i := i + 1;
    }
    assert sorted[..i] == sorted;
    return Summary(|sorted|, sum, sorted[0], sorted[|sorted| - 1],
                   Percentile(sorted, 0.50), Percentile(sorted, 0.90),
                   Percentile(sorted, 0.95), Percentile(sorted, 0.99));
  }
}
