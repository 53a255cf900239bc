/** Rolling mean and spread over the last n samples, over the reals: exact until the buffer is full, and how far the
    tracked values can drift from the true ones afterwards. */
module RollingStats {

  /** The circular buffer, the next slot, and the tracked statistics; m2 tracks the sum of squared deviations. */
  datatype Stats = Stats(values: seq<real>, count: int, index: int, mean: real, m2: real)

  predicate Shaped(s: Stats) {
    0 <= s.count <= |s.values| && 0 <= s.index < |s.values|
  }

  function Zeros(n: nat): seq<real> {
    if n == 0 then [] else [0.0] + Zeros(n - 1)
  }

  function Empty(n: nat): Stats {
    Stats(Zeros(n), 0, 0, 0.0, 0.0)
  }

  /** The mean after the influence of an old sample is taken out, as the code does it. */
  function MeanWithout(mean: real, dropped: real, n: real): real
    requires n > 0.0
  {
    mean - (dropped - mean) / n
  }

  function MeanWith(mean: real, v: real, n: real): real
    requires n > 0.0
  {
    mean + (v - mean) / n
  }

  /** m2 after the mean has moved from `before` to `after` to exclude a sample. */
  function SpreadWithout(m2: real, dropped: real, before: real, after: real): real {
    m2 - (dropped - before) * (dropped - after)
  }

  /** m2 after the mean has moved from `before` to `after` to include v. */
  function SpreadWith(m2: real, v: real, before: real, after: real): real {
    m2 + (v - before) * (v - after)
  }

  function Add(s: Stats, v: real): (r: Stats)
    requires Shaped(s)
    ensures Shaped(r) && |r.values| == |s.values|
  {
    var index := (s.index + 1) % |s.values|;
    if s.count < |s.values| then
      var n := (s.count + 1) as real;
      var mean := MeanWith(s.mean, v, n);
      Stats(s.values[s.index := v], s.count + 1, index, mean, SpreadWith(s.m2, v, s.mean, mean))
    else
      var n, dropped := s.count as real, s.values[s.index];
      var mean1 := MeanWithout(s.mean, dropped, n);
      var mean2 := MeanWith(mean1, v, n);
      Stats(s.values[s.index := v], s.count, index, mean2,
            SpreadWith(SpreadWithout(s.m2, dropped, s.mean, mean1), v, mean1, mean2))
  }

  /** All samples added in order to an empty tracker of n slots. */
  function Run(n: nat, xs: seq<real>): (s: Stats)
    requires n > 0
    ensures Shaped(s) && |s.values| == n
  {
    if xs == [] then
      ZerosLength(n);
      Empty(n)
    else Add(Run(n, xs[..|xs| - 1]), xs[|xs| - 1])
  }

  lemma {:induction false} ZerosLength(n: nat)
    ensures |Zeros(n)| == n
  {
    if n > 0 {
      ZerosLength(n - 1);
    }
  }

  // The true statistics.

  function Sum(xs: seq<real>): real {
    if xs == [] then 0.0 else Sum(xs[..|xs| - 1]) + xs[|xs| - 1]
  }

  function SumOfSquares(xs: seq<real>): real {
    if xs == [] then 0.0 else SumOfSquares(xs[..|xs| - 1]) + xs[|xs| - 1] * xs[|xs| - 1]
  }

  /** Sum of squared deviations from m. */
  function Deviations(xs: seq<real>, m: real): real {
    if xs == [] then 0.0 else Deviations(xs[..|xs| - 1], m) + (xs[|xs| - 1] - m) * (xs[|xs| - 1] - m)
  }

  /** The sum of squared deviations from m of k samples with the given sum of squares and sum. */
  function Expanded(squares: real, sum: real, k: real, m: real): real {
    squares - 2.0 * m * sum + k * (m * m)
  }

  lemma {:induction false} DeviationsExpand(xs: seq<real>, m: real)
    ensures Deviations(xs, m) == Expanded(SumOfSquares(xs), Sum(xs), |xs| as real, m)
  {
    if xs != [] {
      var front, x := xs[..|xs| - 1], xs[|xs| - 1];
      DeviationsExpand(front, m);
      assert |xs| as real == |front| as real + 1.0;
      ExpandOne(SumOfSquares(front), Sum(front), |front| as real, x, m);
    }
  }

  lemma ExpandOne(q: real, t: real, k: real, x: real, m: real)
    ensures Expanded(q, t, k, m) + (x - m) * (x - m) == Expanded(q + x * x, t + x, k + 1.0, m)
  {
    assert (x - m) * (x - m) == x * x - 2.0 * m * x + m * m;
    assert 2.0 * m * (t + x) == 2.0 * m * t + 2.0 * m * x;
    assert (k + 1.0) * (m * m) == k * (m * m) + m * m;
  }

  /** Mean and spread are those of k samples with the given sum and sum of squares. */
  predicate Exact(k: real, mean: real, m2: real, sum: real, squares: real) {
    mean * k == sum && m2 == squares - mean * sum
  }

  /** Welford's step on exact statistics of k - 1 samples gives exact statistics of k. */
  lemma WelfordStep(k: real, mean: real, m2: real, sum: real, squares: real, v: real)
    requires k >= 1.0 && Exact(k - 1.0, mean, m2, sum, squares)
    ensures var mean' := MeanWith(mean, v, k);
            Exact(k, mean', SpreadWith(m2, v, mean, mean'), sum + v, squares + v * v)
  {
    var d := v - mean;
    var q := d / k;
    var mean' := mean + q;
    assert q * k == d;
    assert mean' * k == mean * k + q * k;
    assert mean * k == mean * (k - 1.0) + mean;
    assert mean' * k == sum + v;
    assert v == mean + d;
    Polynomial(mean, d, q, k, sum, v);
  }

  lemma Polynomial(mean: real, d: real, q: real, k: real, sum: real, v: real)
    requires v == mean + d && q * k == d && mean * (k - 1.0) == sum
    ensures d * (d - q) - mean * sum == v * v - (mean + q) * (sum + v)
  {
    assert sum + v == mean * k + d;
    assert (mean + q) * (sum + v) == mean * (mean * k) + mean * d + q * (mean * k) + q * d;
    assert q * (mean * k) == mean * (q * k);
    assert mean * sum == mean * (mean * k) - mean * mean;
    assert v * v == mean * mean + 2.0 * (mean * d) + d * d;
  }

  /** The tracker has seen exactly xs, and its statistics are those of xs. */
  ghost predicate ExactFor(s: Stats, xs: seq<real>) {
    && Shaped(s) && |xs| <= |s.values|
    && s.count == |xs| && s.index == (if |xs| == |s.values| then 0 else |xs|)
    && s.values[..|xs|] == xs
    && Exact(|xs| as real, s.mean, s.m2, Sum(xs), SumOfSquares(xs))
  }

  lemma AddWhileFilling(s: Stats, front: seq<real>, v: real)
    requires ExactFor(s, front) && |front| < |s.values|
    ensures ExactFor(Add(s, v), front + [v])
  {
    SumsGrow(front, v);
    AddToPartial(s, v);
    assert (|front| + 1) as real - 1.0 == |front| as real;
    WelfordStep((|front| + 1) as real, s.mean, s.m2, Sum(front), SumOfSquares(front), v);
  }

  lemma AddToPartial(s: Stats, v: real)
    requires Shaped(s) && s.count < |s.values| && s.index == s.count
    ensures var r, k := Add(s, v), s.count + 1;
            && r.count == k && r.index == (if k == |s.values| then 0 else k)
            && r.values[..k] == s.values[..s.count] + [v]
            && r.mean == MeanWith(s.mean, v, k as real) && r.m2 == SpreadWith(s.m2, v, s.mean, r.mean)
  {
    NextIndex(s.index, |s.values|);
    assert s.values[s.index := v][..s.count + 1] == s.values[..s.count] + [v];
  }

  lemma SumsGrow(xs: seq<real>, v: real)
    ensures Sum(xs + [v]) == Sum(xs) + v && SumOfSquares(xs + [v]) == SumOfSquares(xs) + v * v
  {
    assert (xs + [v])[..|xs|] == xs;
  }

  lemma NextIndex(i: int, n: int)
    requires 0 <= i < n
    ensures (i + 1) % n == if i + 1 == n then 0 else i + 1
  {
  }

  /** For the first n samples the buffer holds them and the statistics are exact. */
  lemma {:induction false} ExactWhileFilling(n: nat, xs: seq<real>)
    requires n > 0 && |xs| <= n
    ensures ExactFor(Run(n, xs), xs)
    decreases |xs|
  {
    if xs != [] {
      var front, v := xs[..|xs| - 1], xs[|xs| - 1];
      ExactWhileFilling(n, front);
      AddWhileFilling(Run(n, front), front, v);
      assert xs == front + [v];
    }
  }

  lemma ExactStatistics(s: Stats, xs: seq<real>)
    requires ExactFor(s, xs) && xs != []
    ensures s.mean == Sum(xs) / |xs| as real && s.m2 == Deviations(xs, s.mean)
  {
    DeviationsExpand(xs, s.mean);
    ExactMeans(|xs| as real, s.mean, s.m2, Sum(xs), SumOfSquares(xs));
  }

  lemma ExactMeans(k: real, mean: real, m2: real, sum: real, squares: real)
    requires k >= 1.0 && Exact(k, mean, m2, sum, squares)
    ensures mean == sum / k && m2 == Expanded(squares, sum, k, mean)
  {
    assert k * (mean * mean) == mean * (mean * k);
  }

  /** Until the buffer is full, mean is the mean and m2 the sum of squared deviations of all samples so far. */
  lemma FirstSamplesAreExact(n: nat, xs: seq<real>)
    requires 1 <= |xs| <= n
    ensures Run(n, xs).mean == Sum(xs) / |xs| as real
    ensures Run(n, xs).m2 == Deviations(xs, Run(n, xs).mean)
  {
    ExactWhileFilling(n, xs);
    ExactStatistics(Run(n, xs), xs);
  }

  // Once the buffer is full.

  /** The last n samples. */
  function Window(n: nat, xs: seq<real>): seq<real>
    requires n <= |xs|
  {
    xs[|xs| - n..]
  }

  /** The samples in the buffer, oldest first. */
  function Held(s: Stats): seq<real>
    requires Shaped(s)
  {
    s.values[s.index..] + s.values[..s.index]
  }

  /** Once full, the buffer holds exactly the last n samples. */
  lemma {:induction false} BufferIsWindow(n: nat, xs: seq<real>)
    requires 0 < n <= |xs|
    ensures Run(n, xs).count == n && Held(Run(n, xs)) == Window(n, xs)
    decreases |xs|
  {
    if |xs| == n {
      ExactWhileFilling(n, xs);
      FullBufferIsWindow(Run(n, xs), xs);
    } else {
      var front, v := xs[..|xs| - 1], xs[|xs| - 1];
      assert xs == front + [v];
      BufferIsWindow(n, front);
      RunSnoc(n, front, v);
      WindowSlides(n, front, v);
      AddRotates(Run(n, front), v);
    }
  }

  lemma WindowSlides(n: nat, xs: seq<real>, v: real)
    requires 0 < n <= |xs|
    ensures Window(n, xs + [v]) == Window(n, xs)[1..] + [v]
    ensures Window(n, xs) == [xs[|xs| - n]] + Window(n, xs)[1..]
  {
  }

  lemma FullBufferIsWindow(s: Stats, xs: seq<real>)
    requires ExactFor(s, xs) && |xs| == |s.values|
    ensures s.count == |xs| && Held(s) == Window(|xs|, xs)
  {
    assert s.values[..|xs|] == s.values;
  }

  lemma AddRotates(s: Stats, v: real)
    requires Shaped(s) && s.count == |s.values|
    ensures Add(s, v).count == s.count && Held(Add(s, v)) == Held(s)[1..] + [v]
  {
    Rotate(s.values, s.index, v);
  }

  /** Overwriting the oldest slot drops the front of the window and appends at its back. */
  lemma Rotate(values: seq<real>, index: int, v: real)
    requires 0 <= index < |values|
    ensures var now, next := values[index := v], (index + 1) % |values|;
            now[next..] + now[..next] == (values[index..] + values[..index])[1..] + [v]
  {
    NextIndex(index, |values|);
  }

  /** How far the tracked mean is from the mean of the last n samples. */
  function Drift(n: nat, xs: seq<real>): real
    requires 0 < n <= |xs|
  {
    Run(n, xs).mean - WindowMean(n, xs)
  }

  function WindowMean(n: nat, xs: seq<real>): real
    requires 0 < n <= |xs|
  {
    Sum(Window(n, xs)) / n as real
  }

  lemma {:induction false} SumCons(x: real, xs: seq<real>)
    ensures Sum([x] + xs) == x + Sum(xs)
  {
    var all := [x] + xs;
    if xs == [] {
      assert all[..0] == [];
    } else {
      assert all[..|all| - 1] == [x] + xs[..|xs| - 1];
      SumCons(x, xs[..|xs| - 1]);
    }
  }

  function Square(n: nat): real {
    n as real * n as real
  }

  /** e' = (1 - 1/n^2) e + d/n^2, with r2 for n^2. */
  predicate Recurs(r2: real, e: real, d: real, e': real) {
    r2 * e' == (r2 - 1.0) * e + d
  }

  /** The recurrence on numbers: e is the drift before and e' the drift after. */
  lemma DriftStep(r: real, r2: real, mean: real, mu: real, dropped: real, v: real, e: real, e': real)
    requires r >= 1.0 && r2 == r * r && e == mean - mu
    requires e' == MeanWith(MeanWithout(mean, dropped, r), v, r) - (mu + (v - dropped) / r)
    ensures Recurs(r2, e, dropped - mu, e')
  {
    var a := (dropped - mean) / r;
    var mean1 := mean - a;
    var b := (v - mean1) / r;
    var c := (v - dropped) / r;
    assert r * a == dropped - mean && r * b == v - mean1 && r * c == v - dropped;
    assert r * e' == r * mean1 + r * b - r * mu - r * c;
    assert r * mean1 == r * mean - r * a;
    assert r * e' == r * e - mean1 + mean;
    assert r * (r * e') == r * (r * e) + r * a;
    assert r * (r * e') == r2 * e' && r * (r * e) == r2 * e;
  }

  lemma WindowStep(n: nat, xs: seq<real>, v: real)
    requires 0 < n <= |xs|
    ensures WindowMean(n, xs + [v]) == WindowMean(n, xs) + (v - xs[|xs| - n]) / n as real
  {
    var dropped, kept := xs[|xs| - n], Window(n, xs)[1..];
    WindowSlides(n, xs, v);
    SumCons(dropped, kept);
    SumsGrow(kept, v);
    Quotients(Sum(kept), dropped, v, n as real);
  }

  lemma Quotients(sum: real, dropped: real, v: real, r: real)
    requires r > 0.0
    ensures (sum + v) / r == (dropped + sum) / r + (v - dropped) / r
  {
  }

  lemma RunStep(n: nat, xs: seq<real>, v: real)
    requires 0 < n <= |xs|
    ensures Run(n, xs + [v]).mean == MeanWith(MeanWithout(Run(n, xs).mean, xs[|xs| - n], n as real), v, n as real)
  {
    RunSnoc(n, xs, v);
    BufferIsWindow(n, xs);
    var s := Run(n, xs);
    assert s.values[s.index] == Held(s)[0];
    assert Held(s)[0] == xs[|xs| - n];
  }

  /** The two means after one more sample. */
  lemma DriftAfter(n: nat, xs: seq<real>, v: real)
    requires 0 < n <= |xs|
    ensures Drift(n, xs + [v]) ==
            MeanWith(MeanWithout(Run(n, xs).mean, xs[|xs| - n], n as real), v, n as real)
            - (WindowMean(n, xs) + (v - xs[|xs| - n]) / n as real)
  {
    WindowStep(n, xs, v);
    RunStep(n, xs, v);
  }

  lemma RecursFrom(n: nat, xs: seq<real>, v: real, mean: real, mu: real, e: real, e': real)
    requires 0 < n <= |xs| && e == mean - mu
    requires e' == MeanWith(MeanWithout(mean, xs[|xs| - n], n as real), v, n as real)
                   - (mu + (v - xs[|xs| - n]) / n as real)
    ensures Recurs(Square(n), e, xs[|xs| - n] - mu, e')
  {
    DriftStep(n as real, Square(n), mean, mu, xs[|xs| - n], v, e, e');
  }

  /** One more sample v into a full buffer shrinks the drift by a factor 1 - 1/n^2 and adds the dropped sample's
      distance from the window mean over n^2. */
  lemma DriftRecurrence(n: nat, xs: seq<real>, v: real)
    requires 0 < n <= |xs|
    ensures Recurs(Square(n), Drift(n, xs), xs[|xs| - n] - WindowMean(n, xs), Drift(n, xs + [v]))
  {
    DriftAfter(n, xs, v);
    RecursFrom(n, xs, v, Run(n, xs).mean, WindowMean(n, xs), Drift(n, xs), Drift(n, xs + [v]));
  }

  /** From an exact mean, the next Add is exact exactly when the sample it drops equals the window mean; in general,
      exactly when the old drift cancels that sample's distance. */
  lemma MeanIsExactIff(n: nat, xs: seq<real>, v: real)
    requires 0 < n <= |xs|
    ensures Drift(n, xs + [v]) == 0.0 <==> Cancels(Square(n), Drift(n, xs), xs[|xs| - n] - WindowMean(n, xs))
    ensures Drift(n, xs) == 0.0 ==> (Drift(n, xs + [v]) == 0.0 <==> xs[|xs| - n] == WindowMean(n, xs))
  {
    DriftRecurrence(n, xs, v);
    SquareAtLeastOne(n);
    ExactIff(Square(n), Drift(n, xs), xs[|xs| - n] - WindowMean(n, xs), Drift(n, xs + [v]));
  }

  /** The old drift cancels the dropped sample's distance. */
  predicate Cancels(r2: real, e: real, d: real) {
    (r2 - 1.0) * e == -d
  }

  lemma ExactIff(r2: real, e: real, d: real, e': real)
    requires r2 >= 1.0 && Recurs(r2, e, d, e')
    ensures e' == 0.0 <==> Cancels(r2, e, d)
    ensures e == 0.0 ==> (Cancels(r2, e, d) <==> d == 0.0)
  {
    assert r2 * e' == 0.0 <==> e' == 0.0;
  }

  lemma SquareAtLeastOne(n: nat)
    requires n > 0
    ensures Square(n) >= 1.0
  {
    assert n as real >= 1.0;
  }

  lemma {:induction false} SumBounds(xs: seq<real>, a: real, b: real)
    requires forall i :: 0 <= i < |xs| ==> a <= xs[i] <= b
    ensures a * |xs| as real <= Sum(xs) <= b * |xs| as real
  {
    if xs != [] {
      SumBounds(xs[..|xs| - 1], a, b);
      var k := |xs[..|xs| - 1]| as real;
      assert |xs| as real == k + 1.0;
      assert a * (k + 1.0) == a * k + a && b * (k + 1.0) == b * k + b;
    }
  }

  lemma Cancel(k: real, x: real, y: real)
    requires k >= 1.0 && k * x <= k * y
    ensures x <= y
  {
  }

  lemma MeanBounds(sum: real, r: real, a: real, b: real)
    requires r >= 1.0 && a * r <= sum <= b * r
    ensures a <= sum / r <= b
  {
    var m := sum / r;
    assert r * m == sum;
    Cancel(r, a, m);
    Cancel(r, m, b);
  }

  lemma DriftShrinks(r2: real, e: real, e': real, d: real, w: real)
    requires r2 >= 1.0 && w >= 0.0 && -w <= e <= w && -w <= d <= w
    requires Recurs(r2, e, d, e')
    ensures -w <= e' <= w
  {
    assert (r2 - 1.0) * e <= (r2 - 1.0) * w && (r2 - 1.0) * e >= (r2 - 1.0) * (-w);
    assert r2 * e' <= r2 * w && r2 * e' >= r2 * (-w);
    Cancel(r2, e', w);
    Cancel(r2, -w, e');
  }

  /** When all samples lie in [a, b], the tracked mean is never further than b - a from the mean of the last n. */
  lemma {:induction false} DriftIsBounded(n: nat, xs: seq<real>, a: real, b: real)
    requires 0 < n <= |xs|
    requires forall i :: 0 <= i < |xs| ==> a <= xs[i] <= b
    ensures -(b - a) <= Drift(n, xs) <= b - a
    decreases |xs|
  {
    assert a <= xs[0] <= b;
    if |xs| == n {
      FirstSamplesAreExact(n, xs);
      assert Window(n, xs) == xs;
    } else {
      var front, v := xs[..|xs| - 1], xs[|xs| - 1];
      assert xs == front + [v];
      DriftIsBounded(n, front, a, b);
      BoundedStep(n, front, v, a, b);
    }
  }

  lemma BoundedStep(n: nat, xs: seq<real>, v: real, a: real, b: real)
    requires 0 < n <= |xs|
    requires forall i :: 0 <= i < |xs| ==> a <= xs[i] <= b
    requires -(b - a) <= Drift(n, xs) <= b - a
    ensures -(b - a) <= Drift(n, xs + [v]) <= b - a
  {
    DriftRecurrence(n, xs, v);
    WindowMeanBounds(n, xs, a, b);
    SquareAtLeastOne(n);
    assert a <= xs[|xs| - n] <= b;
    DriftShrinks(Square(n), Drift(n, xs), Drift(n, xs + [v]), xs[|xs| - n] - WindowMean(n, xs), b - a);
  }

  lemma WindowMeanBounds(n: nat, xs: seq<real>, a: real, b: real)
    requires 0 < n <= |xs|
    requires forall i :: 0 <= i < |xs| ==> a <= xs[i] <= b
    ensures a <= WindowMean(n, xs) <= b
  {
    SumBounds(Window(n, xs), a, b);
    MeanBounds(Sum(Window(n, xs)), n as real, a, b);
  }

  /** On a full buffer an Add leaves the tracked spread non-negative exactly when it was at least the difference of
      these two squares; the standard deviation is a number only then. */
  lemma SpreadStaysNonNegativeIff(s: Stats, v: real)
    requires Shaped(s) && s.count == |s.values|
    ensures var r, dropped := s.count as real, s.values[s.index];
            var mean1 := MeanWithout(s.mean, dropped, r);
            Add(s, v).m2 >= 0.0 <==>
              r * s.m2 >= (r + 1.0) * ((dropped - s.mean) * (dropped - s.mean))
                          - (r - 1.0) * ((v - mean1) * (v - mean1))
  {
    SignOfSpread(s.count as real, s.m2, s.mean, s.values[s.index], v);
  }

  lemma SignOfSpread(r: real, m2: real, mean: real, dropped: real, v: real)
    requires r >= 1.0
    ensures var mean1 := MeanWithout(mean, dropped, r);
            var mean2 := MeanWith(mean1, v, r);
            SpreadWith(SpreadWithout(m2, dropped, mean, mean1), v, mean1, mean2) >= 0.0 <==>
              r * m2 >= (r + 1.0) * ((dropped - mean) * (dropped - mean)) - (r - 1.0) * ((v - mean1) * (v - mean1))
  {
    var mean1 := MeanWithout(mean, dropped, r);
    var after := SpreadWith(SpreadWithout(m2, dropped, mean, mean1), v, mean1, MeanWith(mean1, v, r));
    SpreadAfter(r, m2, mean, dropped, v);
    SignOfMultiple(r, after);
  }

  lemma SignOfMultiple(r: real, x: real)
    requires r >= 1.0
    ensures x >= 0.0 <==> r * x >= 0.0
  {
  }

  /** The spread after an Add to a full buffer, in terms of the two deviations. */
  lemma SpreadAfter(r: real, m2: real, mean: real, dropped: real, v: real)
    requires r >= 1.0
    ensures var mean1 := MeanWithout(mean, dropped, r);
            var mean2 := MeanWith(mean1, v, r);
            r * SpreadWith(SpreadWithout(m2, dropped, mean, mean1), v, mean1, mean2) ==
              r * m2 - (r + 1.0) * ((dropped - mean) * (dropped - mean)) + (r - 1.0) * ((v - mean1) * (v - mean1))
  {
    var d := dropped - mean;
    var a := d / r;
    var mean1 := mean - a;
    var f := v - mean1;
    var g := f / r;
    assert r * a == d && r * g == f;
    assert dropped - mean1 == d + a && v - (mean1 + g) == f - g;
    Expand(r, m2, d, a, f, g);
  }

  lemma Expand(r: real, m2: real, d: real, a: real, f: real, g: real)
    requires r * a == d && r * g == f
    ensures r * (m2 - d * (d + a) + f * (f - g)) == r * m2 - (r + 1.0) * (d * d) + (r - 1.0) * (f * f)
  {
    assert r * (d * (d + a)) == r * (d * d) + d * (r * a);
    assert r * (f * (f - g)) == r * (f * f) - f * (r * g);
  }

  lemma RunSnoc(n: nat, xs: seq<real>, v: real)
    requires n > 0
    ensures Run(n, xs + [v]) == Add(Run(n, xs), v)
  {
    assert (xs + [v])[..|xs|] == xs;
  }
}

/** The tracker as the program keeps it: a fixed array overwritten in a circle, and fields updated in place. */
module HistoricalStats {
  import opened RollingStats

  class HistoricalStats {
    const values: array<real>
    var count: int
    var index: int
    var mean: real
    var m2: real

    ghost function View(): Stats
      reads this, values
    {
      Stats(values[..], count, index, mean, m2)
    }

    ghost predicate Valid()
      reads this, values
    {
      Shaped(View())
    }

    constructor (capacity: nat)
      requires capacity > 0
      ensures Valid() && View() == Empty(capacity)
    {
      values := new real[capacity](_ => 0.0);
      count, index, mean, m2 := 0, 0, 0.0, 0.0;
      new;
      AllZero(values[..]);
    }

    /** On a tracker without slots the program panics at its first sample; Valid excludes it. */
    method Add(value: real)
      requires Valid()
      modifies this, values
      ensures Valid() && View() == RollingStats.Add(old(View()), value)
    {
      if count < values.Length {
        count := count + 1;
      } else {
        RemoveOldest();
      }
      values[index] := value;
      Include(value);
      index := (index + 1) % values.Length;
      assert values[..] == old(values[..])[old(index) := value];
    }

    /** Takes the influence of the sample about to be overwritten out of the statistics. */
    method RemoveOldest()
      requires Valid() && count == values.Length
      modifies this`mean, this`m2
      ensures mean == MeanWithout(old(mean), values[index], count as real)
      ensures m2 == SpreadWithout(old(m2), values[index], old(mean), mean)
    {
      var oldValue, oldMean := values[index], mean;
      mean := mean - (oldValue - mean) / count as real;
      m2 := m2 - (oldValue - oldMean) * (oldValue - mean);
    }

    method Include(value: real)
      requires count > 0
      modifies this`mean, this`m2
      ensures mean == MeanWith(old(mean), value, count as real)
      ensures m2 == SpreadWith(old(m2), value, old(mean), mean)
    {
      var oldMean := mean;
      mean := mean + (value - mean) / count as real;
      m2 := m2 + (value - oldMean) * (value - mean);
    }

    /** The mean and the variance whose square root is reported; fewer than two samples report zero. */
    method MeanVariance() returns (m: real, variance: real)
      requires Valid()
      ensures m == mean
      ensures count < 2 ==> variance == 0.0
      ensures count >= 2 ==> variance * (count - 1) as real == m2
    {
      if count < 2 {
        return mean, 0.0;
      }
      return mean, m2 / (count - 1) as real;
    }
  }

  lemma {:induction false} AllZero(s: seq<real>)
    requires forall i :: 0 <= i < |s| ==> s[i] == 0.0
    ensures s == Zeros(|s|)
  {
    if s != [] {
      AllZero(s[1..]);
      assert s == [s[0]] + s[1..];
    }
  }
}
