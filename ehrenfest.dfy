/**
  The Ehrenfest generator as imperative code: the masks `A`, `B` and the
  coordinate arrays `X`, `Y` are updated in place, the lists `fA`, `fB` and
  `fluctuation` grow by one entry per step, and the histogram and fit are
  recomputed from the whole history at every step. The random choices are
  parameters; every yielded frame is proved equal to the frame that
  EhrenfestSpec.FrameAfter describes.
*/
module Ehrenfest {
  import opened RealSums
  import opened EhrenfestSpec

  /** The generator's state between two yields. */
  class Urn {
    const setup: Setup
    const pdf: (real, real, real) -> real
    const n: nat
    const width: real
    const A: array<bool>   // mask for box A
    const B: array<bool>   // mask for box B
    const X: array<real>
    const Y: array<real>
    var fA: seq<real>
    var fB: seq<real>
    var fluctuation: seq<int>
    var hist: Histogram
    var histFit: Fit
    ghost var picks: seq<nat>   // the particles picked so far, in order

    /** The arrays hold the configuration after `p`: A is the mask of box A,
        B its complement, X and Y the coordinates drawn from it. */
    ghost predicate ArraysAt(p: seq<nat>)
      reads A, B, X, Y
    {
      && setup.Valid() && n == setup.N() && width == setup.width
      && A.Length == n && B.Length == n && X.Length == n && Y.Length == n
      && A != B && X != Y
      && Picks(n, p)
      && A[..] == Trajectory(setup.nA, n, p)[|p|]
      && B[..] == Complement(A[..])
      && X[..] == Positions(setup, A[..])
      && Y[..] == Heights(setup)
    }

    /** The lists, the histogram and the fit are those of the picks `p`. */
    ghost predicate HistoriesAt(p: seq<nat>)
      reads this
    {
      && setup.Valid() && Picks(setup.N(), p)
      && Histories(setup, pdf, p, fA, fB, fluctuation, hist, histFit)
    }

    ghost predicate Valid()
      reads this, A, B, X, Y
    {
      ArraysAt(picks) && HistoriesAt(picks)
    }

    /** Everything the generator does before its first `yield`. */
    constructor (nA: nat, nB: nat, width: real, height: real, rx: seq<real>, ry: seq<real>,
                 pdf: (real, real, real) -> real)
      requires Setup(nA, nB, width, height, rx, ry).Valid()
      ensures Valid() && picks == []
      ensures setup == Setup(nA, nB, width, height, rx, ry) && this.pdf == pdf
      ensures fresh(A) && fresh(B) && fresh(X) && fresh(Y)
    {
      var n := nA + nB;
      var s := Setup(nA, nB, width, height, rx, ry);
      setup := s;
      this.pdf := pdf;
      this.n := n;
      this.width := width;
      var a, b, x, y := InitialArrays(s);
      A, B, X, Y := a, b, x, y;
      ghost var m := InitialMask(nA, n);
      var fa, fb, d := MaskStatistics(a, b, m);
      var fl := [d];
      fA, fB, fluctuation := [fa], [fb], fl;
      hist := HistogramOf(fl, n);
      histFit := NoFit;
      picks := [];
      new;
      assert Trajectory(nA, n, [])[0] == m;
      InitialHistories(setup, pdf);
    }

    /** One pass of the `for step in range(nsteps)` loop body, with the random
        choice `i`: particle i changes box, its x moves by one box width, and
        each history gains one entry. Nothing else changes. */
    method Step(i: nat)
      requires Valid() && i < n
      modifies this, A, B, X
      ensures Valid() && picks == old(picks) + [i]
      ensures A[..] == old(A[..])[i := !old(A[i])]
      ensures B[..] == old(B[..])[i := !old(B[i])]
      ensures X[..] == old(X[..])[i := X[i]]
      ensures X[i] == old(X[i]) + (if B[i] then width else -width)
      ensures Y[..] == old(Y[..])
      ensures fA == old(fA) + [FractionA(A[..])]
      ensures fB == old(fB) + [FractionB(A[..])]
      ensures fluctuation == old(fluctuation) + [Fluctuation(A[..])]
    {
      MoveParticle(i);
      RecordStatistics(i);
    }

    /** `A[i] = not A[i]`, `B[i] = not B[i]` and the matching shift of X[i]. */
    method MoveParticle(i: nat)
      requires ArraysAt(picks) && i < n
      modifies A, B, X
      ensures ArraysAt(picks + [i])
      ensures A[..] == old(A[..])[i := !old(A[i])]
      ensures B[..] == old(B[..])[i := !old(B[i])]
      ensures X[..] == old(X[..])[i := X[i]]
      ensures X[i] == old(X[i]) + (if B[i] then width else -width)
    {
      ghost var m, x0 := A[..], X[..];
      ghost var m' := Flip(m, i);
      TrajectoryStep(setup.nA, n, picks, i);
      PositionsFlip(setup, m, i);
      assert Trajectory(setup.nA, n, picks + [i])[|picks| + 1] == m';
      A[i] := !A[i];
      B[i] := !B[i];
      if B[i] {
        X[i] := X[i] + width;   // moved from A to B
      } else {
        X[i] := X[i] - width;   // moved from B to A
      }
      assert X[..] == x0[i := X[i]];
      assert A[..] == m';
      assert B[..] == Complement(m');
      assert X[..] == Positions(setup, m');
    }

    /** The appends to fA, fB and fluctuation and the recomputed histogram
        and fit, once particle `i` has moved. */
    method RecordStatistics(ghost i: nat)
      requires HistoriesAt(picks) && ArraysAt(picks + [i])
      modifies this
      ensures Valid() && picks == old(picks) + [i]
      ensures fA == old(fA) + [FractionA(A[..])]
      ensures fB == old(fB) + [FractionB(A[..])]
      ensures fluctuation == old(fluctuation) + [Fluctuation(A[..])]
    {
      var a', b', fl', h', g' := NextHistories(setup, pdf, picks, i, fA, fB, fluctuation, hist, histFit, A, B);
      fA, fB, fluctuation, hist, histFit, picks := a', b', fl', h', g', picks + [i];
    }

    /** The values the generator yields: X, Y, fA, fB, hist, hist_fit. */
    method Snapshot() returns (f: Frame)
      requires Valid()
      ensures f == FrameAfter(setup, pdf, picks)
    {
      f := Frame(X[..], Y[..], fA, fB, hist, histFit);
      FrameParts(setup, pdf, picks);
      assert f.X == Positions(setup, Trajectory(setup.nA, n, picks)[|picks|]);
    }
  }

  /** The lists, histogram and fit after pick `i`, computed from the boxes'
      masks `a` and `b` after the move and the lists before it. */
  method NextHistories(s: Setup, pdf: (real, real, real) -> real, ghost picks: seq<nat>, ghost i: nat,
                       fA: seq<real>, fB: seq<real>, fl: seq<int>, hist: Histogram, fit: Fit,
                       a: array<bool>, b: array<bool>)
      returns (fA': seq<real>, fB': seq<real>, fl': seq<int>, hist': Histogram, fit': Fit)
    requires s.Valid() && Picks(s.N(), picks) && i < s.N()
    requires Histories(s, pdf, picks, fA, fB, fl, hist, fit)
    requires a[..] == Trajectory(s.nA, s.N(), picks + [i])[|picks| + 1] && b[..] == Complement(a[..])
    ensures Picks(s.N(), picks + [i])
    ensures Histories(s, pdf, picks + [i], fA', fB', fl', hist', fit')
    ensures fA' == fA + [FractionA(a[..])] && fB' == fB + [FractionB(a[..])]
    ensures fl' == fl + [Fluctuation(a[..])]
  {
    ghost var m := a[..];
    HistoriesStep(s, pdf, picks, i, fA, fB, fl, hist, fit);
    var fa, fb, d := MaskStatistics(a, b, m);
    fl' := fl + [d];
    fA', fB' := fA + [fa], fB + [fb];
    hist', fit' := HistogramOf(fl', s.N()), GaussianFit(fl', s.N(), pdf);
  }

  /** `A.sum()/n`, `B.sum()/n` and `B.sum()-A.sum()`, from the masks of the
      two boxes. */
  method MaskStatistics(a: array<bool>, b: array<bool>, ghost m: seq<bool>)
      returns (fa: real, fb: real, fl: int)
    requires |m| > 0 && a[..] == m && b[..] == Complement(m)
    ensures fa == FractionA(m) && fb == FractionB(m) && fl == Fluctuation(m)
  {
    var n := a.Length;
    var countA, countB := Count(a[..]), Count(b[..]);
    fl := countB as int - countA;
    fa := countA as real / n as real;
    fb := countB as real / n as real;
  }

  /** The arrays before the first yield: the first nA particles in A, the
      others in B; coordinates scaled from the draws, with the particles in B
      shifted one box width to the right. */
  method InitialArrays(s: Setup) returns (a: array<bool>, b: array<bool>, x: array<real>, y: array<real>)
    requires s.Valid()
    ensures fresh(a) && fresh(b) && fresh(x) && fresh(y) && a != b && x != y
    ensures a[..] == InitialMask(s.nA, s.N()) && b[..] == Complement(a[..])
    ensures x[..] == Positions(s, a[..]) && y[..] == Heights(s)
  {
    var n := s.N();
    a := new bool[n](j => j < s.nA);
    b := new bool[n](j requires 0 <= j < n reads a => !a[j]);
    x := new real[n](j requires 0 <= j < n => Scale(s.rx[j], s.width));
    y := new real[n](j requires 0 <= j < n => Scale(s.ry[j], s.height));
    // X[B] += width: particles in B are drawn in the right-hand box
    forall j | 0 <= j < n && b[j] {
      x[j] := x[j] + s.width;
    }
    assert a[..] == InitialMask(s.nA, n);
  }

  /** The generator `Ehrenfest(nA, nB, nsteps, width, height)`, run to
      exhaustion with the random draws `rx`, `ry` (coordinates) and `choices`
      (one particle per step): exactly nsteps + 1 frames, the k-th being the
      configuration after the first k choices. */
  method Simulate(nA: nat, nB: nat, nsteps: nat, width: real, height: real,
                  rx: seq<real>, ry: seq<real>, choices: seq<nat>,
                  pdf: (real, real, real) -> real)
    returns (frames: seq<Frame>)
    requires Setup(nA, nB, width, height, rx, ry).Valid()
    requires |choices| == nsteps && Picks(nA + nB, choices)
    ensures |frames| == nsteps + 1
    ensures forall k :: 0 <= k <= nsteps ==>
      frames[k] == FrameAfter(Setup(nA, nB, width, height, rx, ry), pdf, choices[..k])
  {
    var urn := new Urn(nA, nB, width, height, rx, ry, pdf);
    ghost var setup := Setup(nA, nB, width, height, rx, ry);
    PicksPrefixes(setup.N(), choices);
    var first := urn.Snapshot();
    frames := [first];
    assert choices[..0] == [];
    for step := 0 to nsteps
      invariant urn.Valid() && urn.picks == choices[..step]
      invariant urn.setup == setup && urn.pdf == pdf
      invariant fresh(urn.A) && fresh(urn.B) && fresh(urn.X)
      invariant |frames| == step + 1
      invariant forall k :: 0 <= k <= step ==> frames[k] == FrameAfter(setup, pdf, choices[..k])
    {
      PrefixStep(choices, step);
      urn.Step(choices[step]);
      var f := urn.Snapshot();
      ghost var before := frames;
      frames := frames + [f];
      forall k | 0 <= k <= step + 1
        ensures frames[k] == FrameAfter(setup, pdf, choices[..k])
      {
        if k <= step {
          assert frames[k] == before[k];
        }
      }
    }
  }
}
