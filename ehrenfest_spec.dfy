/**
  The Ehrenfest urn model as values: which box each particle is in after a
  sequence of random picks, the statistics the simulator keeps, and the frame
  it yields. The class in module Ehrenfest is proved to produce exactly these
  frames; the lemmas here state what every frame satisfies.

  A membership mask is a `seq<bool>` over the particles, `true` meaning box A
  (the source's mask `A`); box B's mask is always its complement.
*/
module EhrenfestSpec {
  import opened RealSums

  /** The inputs of one simulation: the initial occupation of the two boxes,
      the box size and the uniform draws in [0, 1) that the random generator
      supplied for the particles' coordinates. */
  datatype Setup = Setup(nA: nat, nB: nat, width: real, height: real, rx: seq<real>, ry: seq<real>)
  {
    function N(): nat { nA + nB }

    /** At least one particle (the source divides by `n`), one coordinate
        pair per particle, each draw in [0, 1) as `rng.random` promises. */
    predicate Valid()
    {
      && N() >= 1
      && |rx| == N() && |ry| == N()
      && (forall j :: 0 <= j < |rx| ==> 0.0 <= rx[j] < 1.0)
      && (forall j :: 0 <= j < |ry| ==> 0.0 <= ry[j] < 1.0)
    }
  }

  /** Every pick is a valid particle index (what `rng.choice(n, 1)` returns). */
  predicate Picks(n: nat, picks: seq<nat>)
  {
    forall k :: 0 <= k < |picks| ==> picks[k] < n
  }

  // ---------------------------------------------------------------------
  // Membership masks and counts
  // ---------------------------------------------------------------------

  /** The first `nA` particles start in box A, the rest in box B. */
  function InitialMask(nA: nat, n: nat): (m: seq<bool>)
    ensures |m| == n
  {
    seq(n, j => j < nA)
  }

  /** Move particle `i` to the other box. */
  function Flip(m: seq<bool>, i: nat): (r: seq<bool>)
    requires i < |m|
    ensures |r| == |m|
  {
    m[i := !m[i]]
  }

  /** The mask of box B given that of box A. */
  function Complement(m: seq<bool>): (c: seq<bool>)
    ensures |c| == |m|
    ensures forall j :: 0 <= j < |m| ==> c[j] == !m[j]
  {
    seq(|m|, j requires 0 <= j < |m| => !m[j])
  }

  /** Number of `true` entries: `mask.sum()`. */
  function Count(m: seq<bool>): (c: nat)
    ensures c <= |m|
  {
    if m == [] then 0 else Count(m[..|m| - 1]) + (if m[|m| - 1] then 1 else 0)
  }

  function CountB(m: seq<bool>): nat { Count(Complement(m)) }

  /** Fraction of particles in box A, `A.sum()/n`. */
  function FractionA(m: seq<bool>): real
    requires |m| > 0
  {
    Count(m) as real / |m| as real
  }

  /** Fraction of particles in box B, `B.sum()/n`. */
  function FractionB(m: seq<bool>): real
    requires |m| > 0
  {
    CountB(m) as real / |m| as real
  }

  /** The signed imbalance `B.sum() - A.sum()`. */
  function Fluctuation(m: seq<bool>): int
  {
    CountB(m) - Count(m)
  }

  lemma {:induction false} CountPrefix(nA: nat, n: nat)
    ensures Count(InitialMask(nA, n)) == if nA <= n then nA else n
  {
    if n > 0 {
      assert InitialMask(nA, n)[..n - 1] == InitialMask(nA, n - 1);
      CountPrefix(nA, n - 1);
    }
  }

  lemma {:induction false} CountComplement(m: seq<bool>)
    ensures Count(m) + CountB(m) == |m|
  {
    if m != [] {
      assert Complement(m)[..|m| - 1] == Complement(m[..|m| - 1]);
      CountComplement(m[..|m| - 1]);
    }
  }

  /** Particle conservation: every particle is in exactly one box, so the two
      counts add up to `n` and the two fractions to 1. */
  lemma Conservation(m: seq<bool>)
    requires |m| > 0
    ensures Count(m) + CountB(m) == |m|
    ensures FractionA(m) + FractionB(m) == 1.0
    ensures Fluctuation(m) == |m| - 2 * Count(m)
    ensures -|m| <= Fluctuation(m) <= |m|
  {
    CountComplement(m);
    var n := |m| as real;
    var a, b := Count(m), CountB(m);
    assert FractionA(m) == a as real / n && FractionB(m) == b as real / n;
    SharesOfWhole(a as real, b as real, n);
  }

  lemma SharesOfWhole(x: real, y: real, n: real)
    requires n > 0.0 && x + y == n
    ensures x / n + y / n == 1.0
  {
    assert x / n + y / n == (x + y) / n;
  }

  /** Flipping one particle moves the A count by exactly one. */
  lemma {:induction false} CountFlip(m: seq<bool>, i: nat)
    requires i < |m|
    ensures Count(Flip(m, i)) == if m[i] then Count(m) - 1 else Count(m) + 1
  {
    var last := |m| - 1;
    if i < last {
      assert Flip(m, i)[..last] == Flip(m[..last], i);
      CountFlip(m[..last], i);
    } else {
      assert Flip(m, i)[..last] == m[..last];
    }
  }

  // ---------------------------------------------------------------------
  // Trajectories: the mask after every step
  // ---------------------------------------------------------------------

  /** The masks of the initial configuration and after each pick, in order. */
  function Trajectory(nA: nat, n: nat, picks: seq<nat>): (ms: seq<seq<bool>>)
    requires Picks(n, picks)
    ensures |ms| == |picks| + 1
    ensures forall t :: 0 <= t < |ms| ==> |ms[t]| == n
    ensures ms[0] == InitialMask(nA, n)
    decreases |picks|
  {
    if picks == [] then [InitialMask(nA, n)]
    else
      var prev := Trajectory(nA, n, picks[..|picks| - 1]);
      prev + [Flip(prev[|prev| - 1], picks[|picks| - 1])]
  }

  /** The trajectory of a longer run extends that of a shorter one. */
  lemma {:induction false} TrajectoryPrefix(nA: nat, n: nat, picks: seq<nat>, k: nat)
    requires Picks(n, picks) && k <= |picks|
    ensures Trajectory(nA, n, picks[..k]) == Trajectory(nA, n, picks)[..k + 1]
    decreases |picks|
  {
    if k < |picks| {
      var p := picks[..|picks| - 1];
      assert p[..k] == picks[..k];
      TrajectoryPrefix(nA, n, p, k);
    } else {
      assert picks[..k] == picks;
    }
  }

  /** `seq` of a trajectory's fractions in A: the list `fA`. */
  function FractionsA(ms: seq<seq<bool>>): (f: seq<real>)
    requires forall t :: 0 <= t < |ms| ==> |ms[t]| > 0
    ensures |f| == |ms|
  {
    seq(|ms|, t requires 0 <= t < |ms| => FractionA(ms[t]))
  }

  /** The list `fB`. */
  function FractionsB(ms: seq<seq<bool>>): (f: seq<real>)
    requires forall t :: 0 <= t < |ms| ==> |ms[t]| > 0
    ensures |f| == |ms|
  {
    seq(|ms|, t requires 0 <= t < |ms| => FractionB(ms[t]))
  }

  /** The list `fluctuation`. */
  function Fluctuations(ms: seq<seq<bool>>): (f: seq<int>)
    ensures |f| == |ms|
  {
    seq(|ms|, t requires 0 <= t < |ms| => Fluctuation(ms[t]))
  }

  // ---------------------------------------------------------------------
  // Histogram over the fixed integer bins -n..n
  // ---------------------------------------------------------------------

  /** Every value lies in [-n, n]. */
  predicate InRange(vals: seq<int>, n: nat)
  {
    forall t :: 0 <= t < |vals| ==> -(n as int) <= vals[t] <= n
  }

  /** The bin edges `np.arange(-n, n+1, 1)`: the 2n+1 integers -n..n. */
  function Edges(n: nat): (e: seq<int>)
    ensures |e| == 2 * n + 1
  {
    seq(2 * n + 1, k => k - n)
  }

  /** The bin of value `v`: bins are half-open [e_k, e_k+1) except the last,
      which is closed, as in `np.histogram`. */
  function Bin(v: int, n: nat): (k: nat)
    requires n >= 1 && -(n as int) <= v <= n
    ensures k < 2 * n
    ensures Edges(n)[k] <= v
    ensures v < Edges(n)[k + 1] || (k == 2 * n - 1 && v == Edges(n)[k + 1])
  {
    if v == n then 2 * n - 1 else v + n
  }

  /** Sample `t` of `vals` exists and falls in bin `k`. */
  predicate InBinAt(vals: seq<int>, n: nat, k: nat, t: int)
  {
    && n >= 1 && 0 <= t < |vals| && -(n as int) <= vals[t] <= n
    && Bin(vals[t], n) == k
  }

  /** The number of samples that fall in bin `k`. */
  function InBin(vals: seq<int>, n: nat, k: nat): nat
  {
    |set t | 0 <= t < |vals| && InBinAt(vals, n, k, t)|
  }

  /** No samples, nothing in any bin. */
  lemma InBinEmpty(n: nat)
    ensures forall k: nat :: InBin([], n, k) == 0
  {
    var none: seq<int> := [];
    forall k: nat
      ensures InBin(none, n, k) == 0
    {
      assert (set t | 0 <= t < |none| && InBinAt(none, n, k, t)) == {};
    }
  }

  /** A sample appended to `vals` adds one to its own bin and to no other. */
  lemma InBinSnoc(vals: seq<int>, n: nat, k: nat)
    requires n >= 1 && InRange(vals, n) && vals != []
    ensures InBin(vals, n, k) == InBin(vals[..|vals| - 1], n, k)
                                 + (if Bin(vals[|vals| - 1], n) == k then 1 else 0)
  {
    var init := vals[..|vals| - 1];
    var last := |vals| - 1;
    var S := set t | 0 <= t < |vals| && InBinAt(vals, n, k, t);
    var S' := set t | 0 <= t < |init| && InBinAt(init, n, k, t);
    assert forall t :: 0 <= t < last ==> init[t] == vals[t];
    if Bin(vals[last], n) == k {
      assert S == S' + {last};
    } else {
      assert S == S';
    }
  }

  /** Per-bin counts, one per bin; no sample is dropped, since every value
      has a bin. */
  function Counts(vals: seq<int>, n: nat): (c: seq<int>)
    requires n >= 1 && InRange(vals, n)
    ensures |c| == 2 * n
    ensures forall k :: 0 <= k < |c| ==> c[k] >= 0
    ensures IntSum(c) == |vals|
  {
    if vals == [] then
      IntSumZeros(2 * n);
      seq(2 * n, _ => 0)
    else
      var c := Counts(vals[..|vals| - 1], n);
      var k := Bin(vals[|vals| - 1], n);
      IntSumIncrement(c, k);
      c[k := c[k] + 1]
  }

  /** Count `k` is the number of samples that fall in bin `k`. */
  lemma {:induction false} CountsPerBin(vals: seq<int>, n: nat)
    requires n >= 1 && InRange(vals, n)
    ensures forall k :: 0 <= k < 2 * n ==> Counts(vals, n)[k] == InBin(vals, n, k)
  {
    if vals == [] {
      InBinEmpty(n);
    } else {
      var init := vals[..|vals| - 1];
      CountsPerBin(init, n);
      forall k | 0 <= k < 2 * n
        ensures Counts(vals, n)[k] == InBin(vals, n, k)
      {
        InBinSnoc(vals, n, k);
      }
    }
  }

  /** What `np.histogram(..., density=True)` returns: the densities and the edges. */
  datatype Histogram = Histogram(density: seq<real>, edges: seq<int>)

  /** The density histogram of `vals` over the unit-width bins between the
      edges -n..n: the densities are non-negative and their total area is
      exactly 1 (HistogramDensities gives each bin's share). */
  function HistogramOf(vals: seq<int>, n: nat): (h: Histogram)
    requires n >= 1 && |vals| >= 1 && InRange(vals, n)
    ensures |h.density| == 2 * n && h.edges == Edges(n)
    ensures forall k :: 0 <= k < |h.density| ==> h.density[k] >= 0.0
    ensures Sum(h.density) == 1.0
  {
    var c := Counts(vals, n);
    var density := Densities(c, |vals|);
    DensitiesSum(c, |vals|);
    Histogram(density, Edges(n))
  }

  /** Density `k` is the share of the samples that fall in bin `k`. */
  lemma HistogramDensities(vals: seq<int>, n: nat)
    requires n >= 1 && |vals| >= 1 && InRange(vals, n)
    ensures forall k :: 0 <= k < 2 * n ==>
      HistogramOf(vals, n).density[k] == InBin(vals, n, k) as real / |vals| as real
  {
    CountsPerBin(vals, n);
  }

  /** Count per bin divided by the number of samples (every bin has width 1). */
  function Densities(c: seq<int>, total: nat): (d: seq<real>)
    requires total > 0
    ensures |d| == |c|
  {
    seq(|c|, k requires 0 <= k < |c| => c[k] as real / total as real)
  }

  lemma SelfQuotient(t: real)
    requires t > 0.0
    ensures t / t == 1.0
  {
  }

  lemma DensitiesSum(c: seq<int>, total: nat)
    requires total > 0 && IntSum(c) == total
    requires forall k :: 0 <= k < |c| ==> c[k] >= 0
    ensures Sum(Densities(c, total)) == 1.0
    ensures forall k :: 0 <= k < |c| ==> Densities(c, total)[k] >= 0.0
  {
    var asReals := seq(|c|, k requires 0 <= k < |c| => c[k] as real);
    SumOfIntegers(c, asReals);
    SumDivided(asReals, Densities(c, total), total as real);
    var t := total as real;
    assert Sum(asReals) == t;
    SelfQuotient(t);
  }

  // ---------------------------------------------------------------------
  // Gaussian fit
  // ---------------------------------------------------------------------

  function Reals(xs: seq<int>): (r: seq<real>)
    ensures |r| == |xs|
  {
    seq(|xs|, k requires 0 <= k < |xs| => xs[k] as real)
  }

  /** `fluct_arr.mean()` */
  function Mean(xs: seq<int>): real
    requires |xs| > 0
  {
    Sum(Reals(xs)) / |xs| as real
  }

  function SquaredDeviations(xs: seq<int>, m: real): (d: seq<real>)
    ensures |d| == |xs|
  {
    seq(|xs|, k requires 0 <= k < |xs| => Sq(xs[k] as real - m))
  }

  /** `fluct_arr.std()**2`: numpy's default is the population variance (ddof 0). */
  function Variance(xs: seq<int>): real
    requires |xs| > 0
  {
    Sum(SquaredDeviations(xs, Mean(xs))) / |xs| as real
  }

  /** The fit is well defined (normpdf never divides by zero) as soon as the
      history holds two different values. */
  lemma VariancePositive(xs: seq<int>, i: nat, j: nat)
    requires i < |xs| && j < |xs| && xs[i] != xs[j]
    ensures Variance(xs) > 0.0
  {
    var m := Mean(xs);
    var d := SquaredDeviations(xs, m);
    var k := if xs[i] as real != m then i else j;
    forall t | 0 <= t < |d|
      ensures d[t] >= 0.0
    {
      SquareNonNegative(xs[t] as real - m);
    }
    var dev := xs[k] as real - m;
    assert dev != 0.0;
    SquarePositive(dev);
    assert d[k] == Sq(dev);
    SumBoundsTerm(d, k);
    var total, count := Sum(d), |xs| as real;
    assert Variance(xs) == total / count;
  }

  function Sq(x: real): real { x * x }

  lemma SquarePositive(x: real)
    requires x != 0.0
    ensures Sq(x) > 0.0
  {
    if x < 0.0 {
      var y := -x;
      calc {
        Sq(x);
        x * x;
        y * y;
      > 0.0;
      }
    } else {
      calc {
        Sq(x);
        x * x;
      > 0.0;
      }
    }
  }

  lemma SquareNonNegative(x: real)
    ensures Sq(x) >= 0.0
  {
    if x != 0.0 {
      SquarePositive(x);
    }
  }

  /** The fitted curve (`hist_fit`); the first frame has none (`[[], []]`). */
  datatype Fit = NoFit | Gaussian(mean: real, variance: real, values: seq<real>)

  /** `normpdf(hist[1], mean, std)` evaluated at every bin edge. The density
      function `pdf(x, mean, variance)` is a parameter: `normpdf` reads its `sd`
      argument only through `sd**2`, so it receives the variance directly. */
  function GaussianFit(vals: seq<int>, n: nat, pdf: (real, real, real) -> real): (f: Fit)
    requires |vals| > 0
    ensures f.Gaussian? && f.mean == Mean(vals) && f.variance == Variance(vals)
    ensures |f.values| == 2 * n + 1
    ensures forall k :: 0 <= k < |f.values| ==> f.values[k] == pdf(Edges(n)[k] as real, f.mean, f.variance)
  {
    var m := Mean(vals);
    var v := Variance(vals);
    Gaussian(m, v, seq(2 * n + 1, k => pdf((k - n) as real, m, v)))
  }

  // ---------------------------------------------------------------------
  // Frames
  // ---------------------------------------------------------------------

  /** x coordinates: the draw scaled to the box width, shifted by one width for
      particles in box B. */
  function Positions(s: Setup, m: seq<bool>): (x: seq<real>)
    requires s.Valid() && |m| == s.N()
    ensures |x| == s.N()
  {
    seq(s.N(), j requires 0 <= j < s.N() => Scale(s.rx[j], s.width) + (if m[j] then 0.0 else s.width))
  }

  /** y coordinates: the draw scaled to the box height; never modified. */
  function Heights(s: Setup): (y: seq<real>)
    requires s.Valid()
    ensures |y| == s.N()
  {
    seq(s.N(), j requires 0 <= j < s.N() => Scale(s.ry[j], s.height))
  }

  /** One yielded frame: X, Y, fA, fB, hist, hist_fit. */
  datatype Frame = Frame(X: seq<real>, Y: seq<real>, fA: seq<real>, fB: seq<real>, hist: Histogram, fit: Fit)

  lemma FluctuationsInRange(ms: seq<seq<bool>>, n: nat)
    requires forall t :: 0 <= t < |ms| ==> |ms[t]| == n
    ensures InRange(Fluctuations(ms), n)
  {
    forall t | 0 <= t < |ms|
      ensures -(n as int) <= Fluctuations(ms)[t] <= n
    {
      CountComplement(ms[t]);
    }
  }

  /** The fluctuation history after `picks`. */
  function FluctuationsAfter(s: Setup, picks: seq<nat>): (f: seq<int>)
    requires s.Valid() && Picks(s.N(), picks)
    ensures |f| == |picks| + 1 && InRange(f, s.N())
  {
    var ms := Trajectory(s.nA, s.N(), picks);
    FluctuationsInRange(ms, s.N());
    Fluctuations(ms)
  }

  /** The statistics the simulator holds after `picks`: the lists `fA`, `fB`,
      `fluctuation`, the histogram and the fit. */
  ghost predicate Histories(s: Setup, pdf: (real, real, real) -> real, picks: seq<nat>,
                            fA: seq<real>, fB: seq<real>, fl: seq<int>, hist: Histogram, fit: Fit)
    requires s.Valid() && Picks(s.N(), picks)
  {
    var ms := Trajectory(s.nA, s.N(), picks);
    && fA == FractionsA(ms)
    && fB == FractionsB(ms)
    && fl == FluctuationsAfter(s, picks)
    && hist == HistogramOf(fl, s.N())
    && fit == if picks == [] then NoFit else GaussianFit(fl, s.N(), pdf)
  }

  /** One step appends the new mask's statistics to each list and recomputes
      the histogram and the fit from the whole fluctuation history. */
  lemma HistoriesStep(s: Setup, pdf: (real, real, real) -> real, picks: seq<nat>, i: nat,
                      fA: seq<real>, fB: seq<real>, fl: seq<int>, hist: Histogram, fit: Fit)
    requires s.Valid() && Picks(s.N(), picks) && i < s.N()
    requires Histories(s, pdf, picks, fA, fB, fl, hist, fit)
    ensures Picks(s.N(), picks + [i])
    ensures var m := Trajectory(s.nA, s.N(), picks + [i])[|picks| + 1];
      var fl' := fl + [Fluctuation(m)];
      && InRange(fl', s.N()) && |fl'| > 0
      && Histories(s, pdf, picks + [i], fA + [FractionA(m)], fB + [FractionB(m)], fl',
                   HistogramOf(fl', s.N()), GaussianFit(fl', s.N(), pdf))
  {
    TrajectoryStep(s.nA, s.N(), picks, i);
    var ms := Trajectory(s.nA, s.N(), picks);
    var ms' := Trajectory(s.nA, s.N(), picks + [i]);
    var m := ms'[|picks| + 1];
    assert ms' == ms + [m];
    assert FractionsA(ms') == FractionsA(ms) + [FractionA(m)];
    assert FractionsB(ms') == FractionsB(ms) + [FractionB(m)];
    assert Fluctuations(ms') == Fluctuations(ms) + [Fluctuation(m)];
  }

  /** Before the first pick the histories hold the initial mask's statistics
      and there is no fit. */
  lemma InitialHistories(s: Setup, pdf: (real, real, real) -> real)
    requires s.Valid()
    ensures var m := InitialMask(s.nA, s.N());
      var fl := [Fluctuation(m)];
      Histories(s, pdf, [], [FractionA(m)], [FractionB(m)], fl, HistogramOf(fl, s.N()), NoFit)
  {
    assert Trajectory(s.nA, s.N(), []) == [InitialMask(s.nA, s.N())];
  }

  /** The frame the simulator yields after the picks `picks` (the first frame
      for `picks == []`). */
  function FrameAfter(s: Setup, pdf: (real, real, real) -> real, picks: seq<nat>): Frame
    requires s.Valid() && Picks(s.N(), picks)
  {
    var ms := Trajectory(s.nA, s.N(), picks);
    var fl := FluctuationsAfter(s, picks);
    Frame(Positions(s, ms[|ms| - 1]), Heights(s),
          FractionsA(ms), FractionsB(ms),
          HistogramOf(fl, s.N()),
          if picks == [] then NoFit else GaussianFit(fl, s.N(), pdf))
  }

  /** Every prefix of valid picks is valid. */
  lemma PicksPrefixes(n: nat, picks: seq<nat>)
    requires Picks(n, picks)
    ensures forall k :: 0 <= k <= |picks| ==> Picks(n, picks[..k])
  {
  }

  /** The first k + 1 picks are the first k followed by pick k. */
  lemma PrefixStep(picks: seq<nat>, k: nat)
    requires k < |picks|
    ensures picks[..k] + [picks[k]] == picks[..k + 1]
    ensures picks[..k + 1][..k] == picks[..k]
  {
    assert picks[..k + 1] == picks[..k] + [picks[k]];
  }

  // ---------------------------------------------------------------------
  // Properties of the frames
  // ---------------------------------------------------------------------

  /** What each part of a frame is, in terms of the trajectory. */
  lemma FrameParts(s: Setup, pdf: (real, real, real) -> real, picks: seq<nat>)
    requires s.Valid() && Picks(s.N(), picks)
    ensures var f := FrameAfter(s, pdf, picks);
      var ms := Trajectory(s.nA, s.N(), picks);
      && f.X == Positions(s, ms[|picks|])
      && f.Y == Heights(s)
      && f.fA == FractionsA(ms)
      && f.fB == FractionsB(ms)
      && FluctuationsAfter(s, picks) == Fluctuations(ms)
      && f.hist == HistogramOf(FluctuationsAfter(s, picks), s.N())
      && f.fit == if picks == [] then NoFit else GaussianFit(FluctuationsAfter(s, picks), s.N(), pdf)
  {
  }

  /** The first frame: particles 0..nA-1 in A, the rest in B; fA = [nA/n],
      fB = [nB/n], fluctuation = [nB - nA], no fit yet. */
  lemma InitialFrame(s: Setup, pdf: (real, real, real) -> real)
    requires s.Valid()
    ensures Trajectory(s.nA, s.N(), [])[0] == InitialMask(s.nA, s.N())
    ensures FrameAfter(s, pdf, []).fA == [s.nA as real / s.N() as real]
    ensures FrameAfter(s, pdf, []).fB == [s.nB as real / s.N() as real]
    ensures FluctuationsAfter(s, []) == [s.nB - s.nA]
    ensures FrameAfter(s, pdf, []).fit == NoFit
  {
    var m := InitialMask(s.nA, s.N());
    CountPrefix(s.nA, s.N());
    CountComplement(m);
  }

  /** For every step t so far: fA[t] + fB[t] == 1, and the fluctuation
      equals n - 2 * count_A, within [-n, n]. */
  lemma HistoryInvariants(s: Setup, picks: seq<nat>)
    requires s.Valid() && Picks(s.N(), picks)
    ensures var ms := Trajectory(s.nA, s.N(), picks);
      forall t :: 0 <= t <= |picks| ==>
        && FractionsA(ms)[t] + FractionsB(ms)[t] == 1.0
        && Fluctuations(ms)[t] == s.N() - 2 * Count(ms[t])
        && -(s.N() as int) <= Fluctuations(ms)[t] <= s.N()
  {
    var ms := Trajectory(s.nA, s.N(), picks);
    forall t | 0 <= t <= |picks|
      ensures FractionA(ms[t]) + FractionB(ms[t]) == 1.0
      ensures Fluctuation(ms[t]) == s.N() - 2 * Count(ms[t])
    {
      Conservation(ms[t]);
    }
  }

  /** One step extends the trajectory by the previous mask with the picked
      particle moved to the other box. */
  lemma TrajectoryStep(nA: nat, n: nat, picks: seq<nat>, i: nat)
    requires Picks(n, picks) && i < n
    ensures Picks(n, picks + [i])
    ensures Trajectory(nA, n, picks + [i]) ==
      Trajectory(nA, n, picks) + [Flip(Trajectory(nA, n, picks)[|picks|], i)]
  {
    var p := picks + [i];
    assert p[..|p| - 1] == picks;
  }

  /** Moving particle i changes only its own x: by +width when it leaves A
      for B, by -width when it returns to A. */
  lemma PositionsFlip(s: Setup, m: seq<bool>, i: nat)
    requires s.Valid() && |m| == s.N() && i < s.N()
    ensures Positions(s, Flip(m, i))[i] == Positions(s, m)[i] + (if m[i] then s.width else -s.width)
    ensures forall j :: 0 <= j < s.N() && j != i ==> Positions(s, Flip(m, i))[j] == Positions(s, m)[j]
  {
  }

  /** The histories only grow: the frame after one more pick carries the
      previous histories plus one entry each. */
  lemma HistoriesExtend(s: Setup, pdf: (real, real, real) -> real, picks: seq<nat>, i: nat)
    requires s.Valid() && Picks(s.N(), picks) && i < s.N()
    ensures Picks(s.N(), picks + [i])
    ensures FrameAfter(s, pdf, picks + [i]).fA[..|picks| + 1] == FrameAfter(s, pdf, picks).fA
    ensures FrameAfter(s, pdf, picks + [i]).fB[..|picks| + 1] == FrameAfter(s, pdf, picks).fB
    ensures FluctuationsAfter(s, picks + [i])[..|picks| + 1] == FluctuationsAfter(s, picks)
  {
    var p := picks + [i];
    assert p[..|p| - 1] == picks;
    FrameParts(s, pdf, picks);
    FrameParts(s, pdf, p);
  }

  /** Consecutive fluctuation entries differ by exactly 2: one particle moves
      per step. */
  lemma FluctuationSteps(s: Setup, picks: seq<nat>, t: nat)
    requires s.Valid() && Picks(s.N(), picks) && t < |picks|
    ensures var f := FluctuationsAfter(s, picks);
      f[t + 1] - f[t] == 2 || f[t + 1] - f[t] == -2
  {
    var ms := Trajectory(s.nA, s.N(), picks);
    TrajectoryPrefix(s.nA, s.N(), picks, t + 1);
    var p := picks[..t + 1];
    assert p[..t] == picks[..t];
    TrajectoryPrefix(s.nA, s.N(), picks, t);
    assert ms[t + 1] == Flip(ms[t], picks[t]);
    CountFlip(ms[t], picks[t]);
    Conservation(ms[t]);
    Conservation(ms[t + 1]);
  }

  /** Geometry: with positive width, a particle lies in [0, width) exactly when
      it is in box A and in [width, 2 * width) exactly when it is in box B;
      with positive height, y lies in [0, height). */
  lemma Geometry(s: Setup, m: seq<bool>, j: nat)
    requires s.Valid() && |m| == s.N() && j < s.N()
    ensures s.width > 0.0 ==> (0.0 <= Positions(s, m)[j] < s.width <==> m[j])
    ensures s.width > 0.0 ==> (s.width <= Positions(s, m)[j] < 2.0 * s.width <==> !m[j])
    ensures s.height > 0.0 ==> 0.0 <= Heights(s)[j] < s.height
  {
    if s.width > 0.0 {
      DrawScaled(s.rx[j], s.width);
    }
    if s.height > 0.0 {
      DrawScaled(s.ry[j], s.height);
    }
  }

  /** A uniform draw scaled to a box side: `rng.random(...) * np.array((width, height))`. */
  function Scale(u: real, size: real): real { u * size }

  /** A draw in [0, 1) scaled by a positive size lies in [0, size). */
  lemma DrawScaled(u: real, size: real)
    requires 0.0 <= u < 1.0 && size > 0.0
    ensures 0.0 <= Scale(u, size) < size
  {
    calc {
      Scale(u, size);
      u * size;
    <  1.0 * size;
    }
    calc {
      0.0;
    <= u * size;
      Scale(u, size);
    }
  }

  /** Every frame after the first carries a Gaussian fit with positive
      variance, evaluated at the 2n+1 bin edges. */
  lemma FitWellDefined(s: Setup, pdf: (real, real, real) -> real, picks: seq<nat>)
    requires s.Valid() && Picks(s.N(), picks) && picks != []
    ensures FrameAfter(s, pdf, picks).fit.Gaussian?
    ensures FrameAfter(s, pdf, picks).fit.variance > 0.0
    ensures |FrameAfter(s, pdf, picks).fit.values| == 2 * s.N() + 1
  {
    FluctuationSteps(s, picks, 0);
    VariancePositive(FluctuationsAfter(s, picks), 0, 1);
  }

  /** At most one particle changes box per step, so after t steps box A's
      count is within t of nA (with nA = 50, nB = 0, after 5 steps box B holds
      at most 5 particles). */
  lemma {:induction false} Drift(nA: nat, n: nat, picks: seq<nat>)
    requires Picks(n, picks) && nA <= n
    ensures var m := Trajectory(nA, n, picks)[|picks|];
      nA - |picks| <= Count(m) <= nA + |picks|
    decreases |picks|
  {
    if picks == [] {
      CountPrefix(nA, n);
    } else {
      var p := picks[..|picks| - 1];
      Drift(nA, n, p);
      CountFlip(Trajectory(nA, n, p)[|p|], picks[|picks| - 1]);
    }
  }
}
