/** Whole runs of the rolling tracker: what its statistics are worth depends on its capacity alone. */
module RollingRuns {
  import opened Numbers
  import opened RollingStats

  /** With one slot, the mean is the last sample and the spread is zero. */
  lemma {:induction false} SingleSlot(xs: seq<real>)
    requires xs != []
    ensures Run(1, xs).mean == xs[|xs| - 1] && Run(1, xs).m2 == 0.0
    decreases |xs|
  {
    var front, v := xs[..|xs| - 1], xs[|xs| - 1];
    if front == [] {
      assert xs == [v];
      FirstSamplesAreExact(1, xs);
      assert Sum(xs[..0]) == 0.0 && Deviations(xs[..0], v) == 0.0;
    } else {
      SingleSlot(front);
      BufferIsWindow(1, front);
      assert Held(Run(1, front)) == Run(1, front).values;
      assert Run(1, front).values[0] == Window(1, front)[0];
    }
  }

  /** n - 1 zeros and a one. */
  function Block(n: nat): seq<real>
    requires n >= 1
  {
    Zeros(n - 1) + [1.0]
  }

  lemma {:induction false} ZerosSums(n: nat)
    ensures |Zeros(n)| == n && (forall i: nat | i < n :: Zeros(n)[i] == 0.0)
    ensures Sum(Zeros(n)) == 0.0 && SumOfSquares(Zeros(n)) == 0.0
  {
    if n > 0 {
      ZerosSums(n - 1);
      AllZeros(Zeros(n));
    }
  }

  lemma {:induction false} AllZeros(xs: seq<real>)
    requires forall i: nat | i < |xs| :: xs[i] == 0.0
    ensures Sum(xs) == 0.0 && SumOfSquares(xs) == 0.0
  {
    if xs != [] {
      AllZeros(xs[..|xs| - 1]);
    }
  }

  lemma BlockFacts(n: nat)
    requires n >= 1
    ensures var b := Block(n);
            && |b| == n && b[n - 1] == 1.0 && (forall i: nat | i < n - 1 :: b[i] == 0.0)
            && Sum(b) == 1.0 && SumOfSquares(b) == 1.0
  {
    ZerosSums(n - 1);
    SumsGrow(Zeros(n - 1), 1.0);
  }

  /** The rate, (n + 1) / n^3, at which replaying a sample lowers the spread. */
  predicate IsRate(r: real, rate: real) {
    rate > 0.0 && r * r * r * rate == r + 1.0
  }

  lemma RateExists(r: real) returns (rate: real)
    requires r >= 1.0
    ensures IsRate(r, rate)
  {
    var cube := r * r * r;
    assert r * r >= 1.0;
    assert cube >= 1.0;
    rate := (r + 1.0) / cube;
    Divided(r + 1.0, cube);
  }

  /** One sample x replaced by its own value, p being n^2: the mean moves toward x and the spread goes down. */
  predicate Replays(p: real, rate: real, x: real, mean: real, m2: real, mean': real, m2': real) {
    p * (mean' - mean) == x - mean && m2' == m2 - rate * ((x - mean) * (x - mean))
  }

  lemma ReplayStep(r: real, rate: real, mean: real, m2: real, x: real)
    requires r >= 1.0 && IsRate(r, rate)
    ensures var mean1 := MeanWithout(mean, x, r);
            var mean2 := MeanWith(mean1, x, r);
            Replays(r * r, rate, x, mean, m2, mean2, SpreadWith(SpreadWithout(m2, x, mean, mean1), x, mean1, mean2))
  {
    var mean1 := MeanWithout(mean, x, r);
    var after := SpreadWith(SpreadWithout(m2, x, mean, mean1), x, mean1, MeanWith(mean1, x, r));
    ReplayScaled(r, mean, m2, x);
    Unscale(r * r * r, rate, r + 1.0, (x - mean) * (x - mean), m2, after);
  }

  lemma Unscale(c: real, rate: real, e: real, d: real, before: real, after: real)
    requires c * rate == e && e > 0.0 && rate > 0.0 && c * after == c * before - e * d
    ensures after == before - rate * d
  {
    assert c * (rate * d) == e * d;
    assert c * (after - (before - rate * d)) == 0.0;
    assert c != 0.0;
  }

  lemma ReplayScaled(r: real, mean: real, m2: real, x: real)
    requires r >= 1.0
    ensures var mean1 := MeanWithout(mean, x, r);
            var mean2 := MeanWith(mean1, x, r);
            && r * r * (mean2 - mean) == x - mean
            && r * r * r * SpreadWith(SpreadWithout(m2, x, mean, mean1), x, mean1, mean2)
               == r * r * r * m2 - (r + 1.0) * ((x - mean) * (x - mean))
  {
    var d := x - mean;
    var f := x - MeanWithout(mean, x, r);
    ReplayMeans(r, mean, x);
    SpreadAfter(r, m2, mean, x, x);
    ReplaySpread(r, m2, d, f);
    var mean1 := MeanWithout(mean, x, r);
    var after := SpreadWith(SpreadWithout(m2, x, mean, mean1), x, mean1, MeanWith(mean1, x, r));
    Regroup(r, after);
  }

  lemma Regroup(r: real, x: real)
    ensures r * r * r * x == r * r * (r * x)
  {
  }

  lemma ReplayMeans(r: real, mean: real, x: real)
    requires r >= 1.0
    ensures var mean1 := MeanWithout(mean, x, r);
            r * r * (MeanWith(mean1, x, r) - mean) == x - mean && r * (x - mean1) == (r + 1.0) * (x - mean)
  {
    var d := x - mean;
    var a := d / r;
    var mean1 := mean - a;
    var f := x - mean1;
    var g := f / r;
    assert r * a == d && r * g == f && f == d + a;
    assert r * f == r * d + d;
    assert r * (g - a) == a;
    assert r * r * (g - a) == d;
  }

  lemma ReplaySpread(r: real, m2: real, d: real, f: real)
    requires r * f == (r + 1.0) * d
    ensures r * r * (r * m2 - (r + 1.0) * (d * d) + (r - 1.0) * (f * f)) == r * r * r * m2 - (r + 1.0) * (d * d)
  {
    var p := r * f;
    assert r * r * (f * f) == p * p;
    assert p * p == (r + 1.0) * (r + 1.0) * (d * d);
    assert r * r * ((r - 1.0) * (f * f)) == (r - 1.0) * (r * r * (f * f));
    Collect(r, d * d);
  }

  lemma Collect(r: real, x: real)
    ensures (r - 1.0) * ((r + 1.0) * (r + 1.0) * x) - r * r * ((r + 1.0) * x) == -((r + 1.0) * x)
  {
    var y := (r + 1.0) * x;
    assert (r - 1.0) * ((r + 1.0) * y) == (r * r - 1.0) * y;
  }

  /** The tracker after xs and the first i samples of another block. */
  function Replayed(n: nat, xs: seq<real>, i: nat): Stats
    requires 1 <= n && i <= n
  {
    BlockFacts(n);
    Run(n, xs + Block(n)[..i])
  }

  ghost predicate StateReplays(n: nat, rate: real, s: Stats, x: real, s': Stats) {
    Replays(n as real * n as real, rate, x, s.mean, s.m2, s'.mean, s'.m2)
  }

  /** On a full buffer, adding the sample about to be dropped replays it. */
  lemma AddReplays(n: nat, rate: real, s: Stats, x: real)
    requires Shaped(s) && 1 <= n == s.count == |s.values| && s.values[s.index] == x && IsRate(n as real, rate)
    ensures StateReplays(n, rate, s, x, Add(s, x))
  {
    ReplayStep(n as real, rate, s.mean, s.m2, x);
  }

  /** Adding the block sample by sample to a buffer that holds the block drops each sample as it comes in. */
  lemma ReplayedState(n: nat, xs: seq<real>, i: nat)
    requires 1 <= n <= |xs| && Window(n, xs) == Block(n) && i < n
    ensures |Block(n)| == n
    ensures var s := Replayed(n, xs, i);
            && s.count == |s.values| == n && s.values[s.index] == Block(n)[i]
            && Replayed(n, xs, i + 1) == Add(s, Block(n)[i])
  {
    BlockFacts(n);
    var b, ys := Block(n), xs + Block(n)[..i];
    assert xs + b[..i + 1] == ys + [b[i]];
    assert ys[|ys| - n] == Window(n, xs)[i];
    RunSnoc(n, ys, b[i]);
    BufferIsWindow(n, ys);
    assert Run(n, ys).values[Run(n, ys).index] == Held(Run(n, ys))[0];
  }

  lemma ReplayOne(n: nat, rate: real, xs: seq<real>, i: nat)
    requires 1 <= n <= |xs| && Window(n, xs) == Block(n) && i < n && IsRate(n as real, rate)
    ensures |Block(n)| == n && StateReplays(n, rate, Replayed(n, xs, i), Block(n)[i], Replayed(n, xs, i + 1))
  {
    ReplayedState(n, xs, i);
    AddReplays(n, rate, Replayed(n, xs, i), Block(n)[i]);
  }

  lemma ReplayLowers(n: nat, rate: real, s: Stats, x: real, s': Stats)
    requires rate > 0.0 && StateReplays(n, rate, s, x, s')
    ensures s'.m2 <= s.m2
  {
    assert (x - s.mean) * (x - s.mean) >= 0.0;
  }

  lemma {:induction false} ReplayedLowers(n: nat, rate: real, xs: seq<real>, i: nat)
    requires 1 <= n <= |xs| && Window(n, xs) == Block(n) && i <= n && IsRate(n as real, rate)
    ensures Replayed(n, xs, i).m2 <= Replayed(n, xs, 0).m2
    decreases i
  {
    if i > 0 {
      ReplayedLowers(n, rate, xs, i - 1);
      ReplayOne(n, rate, xs, i - 1);
      ReplayLowers(n, rate, Replayed(n, xs, i - 1), Block(n)[i - 1], Replayed(n, xs, i));
    }
  }

  /** A mean cannot be near zero and, one replayed zero later, near one: m is the first, 1 - y the second. */
  lemma CannotFollowBoth(p: real, q: real, m: real, y: real)
    requires 0.0 <= q <= p && p >= 1.0 && p * y + q * m == p
    ensures y * y + m * m >= 0.5
  {
    CauchySchwarz(p, q, y, m);
    SquareGrows(q, p);
    HalfFollows(p * p, p * p + q * q, y * y + m * m);
  }

  lemma SquareGrows(q: real, p: real)
    requires 0.0 <= q <= p && p >= 1.0
    ensures q * q <= p * p && p * p >= 1.0
  {
  }

  lemma ProductGrows(x: real, y: real, s: real)
    requires x <= y && s >= 0.0
    ensures x * s <= y * s
  {
  }

  lemma HalfFollows(a: real, b: real, s: real)
    requires a >= 1.0 && b <= a + a && s >= 0.0 && a <= b * s
    ensures s >= 0.5
  {
    ProductGrows(0.0, a + a - b, s);
    assert (a + a - b) * s == (a + a) * s - b * s;
    assert (a + a) * (s - 0.5) == (a + a) * s - a;
    NonNegativeFactor(a + a, s - 0.5);
  }

  lemma NonNegativeFactor(c: real, x: real)
    requires c > 0.0 && c * x >= 0.0
    ensures x >= 0.0
  {
  }

  lemma CauchySchwarz(a: real, b: real, x: real, y: real)
    ensures (a * x + b * y) * (a * x + b * y) <= (a * a + b * b) * (x * x + y * y)
  {
    var z := a * y - b * x;
    assert (a * a + b * b) * (x * x + y * y) - (a * x + b * y) * (a * x + b * y) == z * z;
  }

  /** Replaying a zero and then a one lowers the spread by at least half the rate. */
  lemma PairLowers(p: real, rate: real, mean0: real, a0: real, mean1: real, a1: real, mean2: real, a2: real)
    requires p >= 1.0 && rate > 0.0
    requires Replays(p, rate, 0.0, mean0, a0, mean1, a1) && Replays(p, rate, 1.0, mean1, a1, mean2, a2)
    ensures a2 <= a0 - 0.5 * rate
  {
    CannotFollowBoth(p, p - 1.0, mean0, 1.0 - mean1);
    assert mean0 * mean0 == (0.0 - mean0) * (0.0 - mean0);
    TwoDrops(rate, (0.0 - mean0) * (0.0 - mean0), (1.0 - mean1) * (1.0 - mean1), a0, a1, a2);
  }

  lemma TwoDrops(c: real, d0: real, d1: real, a0: real, a1: real, a2: real)
    requires c >= 0.0 && d0 + d1 >= 0.5 && a1 == a0 - c * d0 && a2 == a1 - c * d1
    ensures a2 <= a0 - 0.5 * c
  {
    ProductGrows(0.5, d0 + d1, c);
    assert (d0 + d1) * c == c * d0 + c * d1;
  }

  lemma BlockLowers(n: nat, rate: real, xs: seq<real>)
    requires 2 <= n <= |xs| && Window(n, xs) == Block(n) && IsRate(n as real, rate)
    ensures Run(n, xs + Block(n)).m2 <= Run(n, xs).m2 - 0.5 * rate
  {
    BlockFacts(n);
    ReplayedLowers(n, rate, xs, n - 2);
    ReplayOne(n, rate, xs, n - 2);
    ReplayOne(n, rate, xs, n - 1);
    LastPairLowers(n, rate, Replayed(n, xs, n - 2), Replayed(n, xs, n - 1), Replayed(n, xs, n));
    assert Block(n)[..n] == Block(n);
    assert xs + Block(n)[..0] == xs;
  }

  lemma LastPairLowers(n: nat, rate: real, s0: Stats, s1: Stats, s2: Stats)
    requires n >= 1 && rate > 0.0
    requires StateReplays(n, rate, s0, 0.0, s1) && StateReplays(n, rate, s1, 1.0, s2)
    ensures s2.m2 <= s0.m2 - 0.5 * rate
  {
    SquareAtLeastOne(n);
    PairLowers(n as real * n as real, rate, s0.mean, s0.m2, s1.mean, s1.m2, s2.mean, s2.m2);
  }

  function Blocks(n: nat, k: nat): seq<real>
    requires n >= 1
  {
    if k == 0 then [] else Blocks(n, k - 1) + Block(n)
  }

  /** The window is a block, and m2 has come down k times by half the rate. */
  ghost predicate Lowered(n: nat, rate: real, k: nat, xs: seq<real>)
    requires n >= 1
  {
    |xs| >= n && Window(n, xs) == Block(n) && Run(n, xs).m2 <= 1.0 - Total(k, 0.5 * rate)
  }

  lemma {:induction false} BlocksLower(n: nat, rate: real, k: nat)
    requires n >= 2 && IsRate(n as real, rate)
    ensures Lowered(n, rate, k, Blocks(n, k + 1))
    decreases k
  {
    BlockFacts(n);
    if k == 0 {
      assert Blocks(n, 1) == Blocks(n, 0) + Block(n) == Block(n);
      ExactWhileFilling(n, Block(n));
      FirstBlock(n, Run(n, Block(n)));
    } else {
      BlocksLower(n, rate, k - 1);
      OneBlockMore(n, rate, k - 1, Blocks(n, k));
    }
  }

  lemma OneBlockMore(n: nat, rate: real, k: nat, xs: seq<real>)
    requires n >= 2 && IsRate(n as real, rate) && Lowered(n, rate, k, xs)
    ensures Lowered(n, rate, k + 1, xs + Block(n))
  {
    BlockFacts(n);
    BlockLowers(n, rate, xs);
  }

  lemma FirstBlock(n: nat, s: Stats)
    requires n >= 1 && ExactFor(s, Block(n))
    ensures s.m2 <= 1.0
  {
    BlockFacts(n);
    FirstArithmetic(n as real, s.mean, s.m2);
  }

  lemma FirstArithmetic(r: real, mean: real, m2: real)
    requires r > 0.0 && Exact(r, mean, m2, 1.0, 1.0)
    ensures m2 <= 1.0
  {
    PositiveMean(mean, r);
  }

  lemma PositiveMean(m: real, r: real)
    requires r > 0.0 && m * r == 1.0
    ensures m > 0.0
  {
  }

  /** A run whose spread is negative. */
  lemma SpreadGoesNegative(n: nat) returns (xs: seq<real>)
    requires n >= 2
    ensures Run(n, xs).m2 < 0.0
  {
    var rate := RateExists(n as real);
    var k := Archimedes(0.5 * rate, 1.0);
    BlocksLower(n, rate, k);
    xs := Blocks(n, k + 1);
  }

  /** The tracked spread, whose root is reported, is non-negative in every run exactly when the tracker has one slot.
      The condition is the capacity, known when the tracker is made. */
  lemma SpreadIsNonNegativeIffSingleSlot(n: nat)
    requires n >= 1
    ensures (forall xs: seq<real> :: Run(n, xs).m2 >= 0.0) <==> n == 1
  {
    if n == 1 {
      forall xs: seq<real> ensures Run(n, xs).m2 >= 0.0 {
        if xs != [] {
          SingleSlot(xs);
        }
      }
    } else {
      var xs := SpreadGoesNegative(n);
    }
  }

  /** The tracked mean is that of the last n samples in every run exactly when the tracker has one slot. */
  lemma MeanIsExactIffSingleSlot(n: nat)
    requires n >= 1
    ensures (forall xs: seq<real> | |xs| >= n :: Drift(n, xs) == 0.0) <==> n == 1
  {
    if n == 1 {
      forall xs: seq<real> | |xs| >= 1 ensures Drift(1, xs) == 0.0 {
        SingleSlot(xs);
        LastSampleIsMean(xs);
      }
    } else {
      var xs := DriftAppears(n);
      assert |xs| >= n && Drift(n, xs) != 0.0;
    }
  }

  lemma LastSampleIsMean(xs: seq<real>)
    requires xs != []
    ensures WindowMean(1, xs) == xs[|xs| - 1]
  {
    var x := xs[|xs| - 1];
    assert Window(1, xs) == [x];
    SumsGrow([], x);
    assert [] + [x] == [x];
    assert Sum(Window(1, xs)) == x && x / 1.0 == x;
  }

  /** Dropping a zero from the block makes the mean drift. */
  lemma DriftAppears(n: nat) returns (xs: seq<real>)
    requires n >= 2
    ensures |xs| >= n && Drift(n, xs) != 0.0
  {
    var b := Block(n);
    BlockFacts(n);
    NoDriftAtFirst(n, b);
    BlockMean(n);
    MeanIsExactIff(n, b, 0.0);
    assert b[|b| - n] == 0.0 != WindowMean(n, b);
    xs := b + [0.0];
  }

  lemma NoDriftAtFirst(n: nat, xs: seq<real>)
    requires 0 < n == |xs|
    ensures Drift(n, xs) == 0.0
  {
    FirstSamplesAreExact(n, xs);
    assert Window(n, xs) == xs;
  }

  lemma BlockMean(n: nat)
    requires n >= 1
    ensures |Block(n)| == n && WindowMean(n, Block(n)) > 0.0
  {
    BlockFacts(n);
    assert Window(n, Block(n)) == Block(n);
    assert WindowMean(n, Block(n)) == 1.0 / n as real;
    Divided(1.0, n as real);
  }
}
