/**
  Boltzmann populations of a set of energy levels: each level's Boltzmann
  factor exp(-E/kT), divided by the partition function Q, the sum of the
  factors. Energies are in electronvolts and temperatures in kelvin, as the
  unit conversion in the source fixes them. The exponential is a parameter;
  each property states the facts about it that it relies on.
*/
module BoltzmannModel {
  import opened RealSums

  /** Boltzmann constant, 1.380649e-23 J/K. */
  const Boltzmann: real := 1.380649 / 100000000000000000000000.0

  /** One electronvolt, 1.602176634e-19 J. */
  const ElectronVolt: real := 1.602176634 / 10000000000000000000.0

  ghost predicate ExpPositive(exp: real -> real)
  {
    forall x :: exp(x) > 0.0
  }

  ghost predicate ExpMonotone(exp: real -> real)
  {
    forall x, y :: x <= y ==> exp(x) <= exp(y)
  }

  ghost predicate ExpIncreasing(exp: real -> real)
  {
    forall x, y :: x < y ==> exp(x) < exp(y)
  }

  /** The exponent -E/(kT), with E converted from eV to joules. */
  function Exponent(E: real, T: real): real
    requires T != 0.0
  {
    -(E * ElectronVolt) / (Boltzmann * T)
  }

  /** `boltzmann_factor(E, T)`: exp(-E/(kT)). */
  function BoltzmannFactor(E: real, T: real, exp: real -> real): real
    requires T != 0.0
  {
    exp(Exponent(E, T))
  }

  /** The factors of all levels (`np.exp` on the array of energies). */
  function Factors(E: seq<real>, T: real, exp: real -> real): (bf: seq<real>)
    requires T != 0.0
    ensures |bf| == |E|
    ensures forall i :: 0 <= i < |E| ==> bf[i] == BoltzmannFactor(E[i], T, exp)
  {
    seq(|E|, i requires 0 <= i < |E| => BoltzmannFactor(E[i], T, exp))
  }

  /** Partition function Q, the sum of the Boltzmann factors. */
  function PartitionFunction(E: seq<real>, T: real, exp: real -> real): real
    requires T != 0.0
  {
    Sum(Factors(E, T, exp))
  }

  lemma PartitionFunctionPositive(E: seq<real>, T: real, exp: real -> real)
    requires T != 0.0 && ExpPositive(exp) && E != []
    ensures PartitionFunction(E, T, exp) > 0.0
  {
    SumPositive(Factors(E, T, exp));
  }

  /** `population(E, T)`: each level's factor divided by Q. An empty set of
      levels has an empty population (numpy divides the empty array). */
  function Population(E: seq<real>, T: real, exp: real -> real): (pop: seq<real>)
    requires T != 0.0 && ExpPositive(exp)
    ensures |pop| == |E|
    ensures E != [] ==> forall i :: 0 <= i < |E| ==>
      pop[i] * PartitionFunction(E, T, exp) == BoltzmannFactor(E[i], T, exp)
  {
    if E == [] then []
    else
      var levels := Factors(E, T, exp);
      var Q := Sum(levels);
      PartitionFunctionPositive(E, T, exp);
      seq(|E|, i requires 0 <= i < |E| => levels[i] / Q)
  }

  /** Each population is a fraction in (0, 1]. */
  lemma PopulationBounds(E: seq<real>, T: real, exp: real -> real, i: nat)
    requires T != 0.0 && ExpPositive(exp) && i < |E|
    ensures 0.0 < Population(E, T, exp)[i] <= 1.0
  {
    var levels := Factors(E, T, exp);
    var Q := Sum(levels);
    PartitionFunctionPositive(E, T, exp);
    SumBoundsTerm(levels, i);
    assert Population(E, T, exp)[i] == levels[i] / Q;
    DivideBounds(levels[i], Q);
  }

  lemma DivideBounds(a: real, q: real)
    requires 0.0 < a <= q
    ensures 0.0 < a / q <= 1.0
  {
    calc {
      a / q;
    <= q / q;
    ==
      1.0;
    }
  }

  /** The populations sum to 1: Q normalises the distribution. */
  lemma PopulationNormalised(E: seq<real>, T: real, exp: real -> real)
    requires T != 0.0 && ExpPositive(exp) && E != []
    ensures Sum(Population(E, T, exp)) == 1.0
  {
    var levels := Factors(E, T, exp);
    var Q := Sum(levels);
    PartitionFunctionPositive(E, T, exp);
    var pop := Population(E, T, exp);
    assert pop == seq(|E|, i requires 0 <= i < |E| => levels[i] / Q);
    SumDivided(levels, pop, Q);
    assert Q / Q == 1.0;
  }

  /** At positive temperature a higher level is never more populated, and
      levels of equal energy are equally populated. */
  lemma PopulationOrder(E: seq<real>, T: real, exp: real -> real, i: nat, j: nat)
    requires T > 0.0 && ExpPositive(exp) && ExpMonotone(exp)
    requires i < |E| && j < |E| && E[i] <= E[j]
    ensures Population(E, T, exp)[i] >= Population(E, T, exp)[j]
    ensures E[i] == E[j] ==> Population(E, T, exp)[i] == Population(E, T, exp)[j]
  {
    var levels := Factors(E, T, exp);
    var Q := Sum(levels);
    PartitionFunctionPositive(E, T, exp);
    ExponentDecreasing(E[i], E[j], T);
    assert levels[i] >= levels[j];
    assert Population(E, T, exp)[i] == levels[i] / Q;
    assert Population(E, T, exp)[j] == levels[j] / Q;
    DivideMonotone(levels[j], levels[i], Q);
  }

  /** At positive temperature, raising the energy of one level of two or more,
      all others fixed, strictly lowers that level's population. */
  lemma RaisingLevelLowersIt(E: seq<real>, T: real, exp: real -> real, i: nat, e: real)
    requires T > 0.0 && ExpPositive(exp) && ExpIncreasing(exp)
    requires |E| >= 2 && i < |E| && e > E[i]
    ensures Population(E[i := e], T, exp)[i] < Population(E, T, exp)[i]
  {
    var E' := E[i := e];
    var levels, levels' := Factors(E, T, exp), Factors(E', T, exp);
    var f, f' := levels[i], levels'[i];
    assert levels' == levels[i := f'];
    ExponentStrictlyDecreasing(E[i], e, T);
    assert f' < f;
    var Q, Q' := Sum(levels), Sum(levels');
    PartitionFunctionPositive(E, T, exp);
    PartitionFunctionPositive(E', T, exp);
    assert Population(E, T, exp)[i] == f / Q;
    assert Population(E', T, exp)[i] == f' / Q';
    // the other levels weigh the same in both, and at least one is positive
    var rest := levels[i := 0.0];
    SumUpdate(levels, i, 0.0);
    SumUpdate(levels, i, f');
    var j := if i == 0 then 1 else 0;
    SumBoundsTerm(rest, j);
    var R := Sum(rest);
    assert R > 0.0;
    assert Q == f + R && Q' == f' + R;
    ShareIncreasing(f', f, R);
  }

  /** x / (x + R) grows strictly with x for a positive R: its complement
      R / (x + R) shrinks. */
  lemma ShareIncreasing(x1: real, x2: real, R: real)
    requires 0.0 < x1 < x2 && R > 0.0
    ensures x1 / (x1 + R) < x2 / (x2 + R)
  {
    ShareComplement(x1, R);
    ShareComplement(x2, R);
    QuotientDecreasing(R, x1 + R, x2 + R);
  }

  lemma ShareComplement(x: real, R: real)
    requires x + R > 0.0
    ensures x / (x + R) == 1.0 - R / (x + R)
  {
    var d := x + R;
    assert x / d + R / d == (x + R) / d;
    assert d / d == 1.0;
  }

  /** A positive numerator over a larger denominator gives a smaller quotient. */
  lemma QuotientDecreasing(a: real, d1: real, d2: real)
    requires a > 0.0 && 0.0 < d1 < d2
    ensures a / d2 < a / d1
  {
    var q1, q2 := a / d1, a / d2;
    assert q1 * d1 == a && q2 * d2 == a;
    assert q2 > 0.0;
    MulLess(q2, d1, d2);
    if q1 <= q2 {
      MulLeq(q1, q2, d1);
      assert false;
    }
  }

  /** c x < c y for a positive c and x < y. */
  lemma MulLess(c: real, x: real, y: real)
    requires c > 0.0 && x < y
    ensures c * x < c * y
  {
    assert c * y - c * x == c * (y - x);
  }

  /** x d <= y d for a positive d and x <= y. */
  lemma MulLeq(x: real, y: real, d: real)
    requires x <= y && d > 0.0
    ensures x * d <= y * d
  {
    assert y * d - x * d == (y - x) * d;
  }

  lemma ExponentStrictlyDecreasing(e1: real, e2: real, T: real)
    requires T > 0.0 && e1 < e2
    ensures Exponent(e1, T) > Exponent(e2, T)
  {
    var d := Boltzmann * T;
    assert d > 0.0;
    assert e1 * ElectronVolt < e2 * ElectronVolt;
    assert (e1 * ElectronVolt) / d < (e2 * ElectronVolt) / d;
  }

  lemma ExponentDecreasing(e1: real, e2: real, T: real)
    requires T > 0.0 && e1 <= e2
    ensures Exponent(e1, T) >= Exponent(e2, T)
  {
    var d := Boltzmann * T;
    assert d > 0.0;
    assert e1 * ElectronVolt <= e2 * ElectronVolt;
    DivideMonotone(e1 * ElectronVolt, e2 * ElectronVolt, d);
  }

  lemma DivideMonotone(a: real, b: real, q: real)
    requires a <= b && q > 0.0
    ensures a / q <= b / q
  {
  }
}
