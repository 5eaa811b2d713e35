/**
  Initial rate of an enzyme-catalysed reaction by Michaelis-Menten kinetics,
  v0 = k2 E0 S / (KM + S), with the effective constants an inhibitor of
  concentration I leaves behind. With the factor 1 + I/KI, a competitive
  inhibitor multiplies KM by it, a noncompetitive one divides k2 by it and an
  uncompetitive one divides both; the name of the inhibition kind is matched
  without regard to case, and any other name leaves KM and k2 as they are.
*/
module MichaelisMenten {

  /** Lower case of one character (ASCII letters only). */
  function LowerChar(c: char): (d: char)
    ensures !('A' <= d <= 'Z')
    ensures !('A' <= c <= 'Z') ==> d == c
  {
    if 'A' <= c <= 'Z' then (c as int - 'A' as int + 'a' as int) as char else c
  }

  /** `str.lower()` on ASCII text: same length, no upper-case letter left. */
  function Lower(s: string): (r: string)
    ensures |r| == |s|
    ensures forall i :: 0 <= i < |r| ==> !('A' <= r[i] <= 'Z')
    ensures forall i :: 0 <= i < |r| ==> r[i] == LowerChar(s[i])
  {
    if s == [] then [] else [LowerChar(s[0])] + Lower(s[1..])
  }

  /** Lowering twice is lowering once. */
  lemma {:induction false} LowerIdempotent(s: string)
    ensures Lower(Lower(s)) == Lower(s)
  {
    if s != [] {
      LowerIdempotent(s[1..]);
      assert Lower(s)[1..] == Lower(s[1..]);
    }
  }

  datatype Inhibition = Competitive | Noncompetitive | Uncompetitive | Uninhibited

  /** The kind of inhibition a name selects, compared after lowering it. */
  function Kind(name: string): Inhibition
  {
    var l := Lower(name);
    if l == "competitive" then Competitive
    else if l == "noncompetitive" then Noncompetitive
    else if l == "uncompetitive" then Uncompetitive
    else Uninhibited
  }

  /** The inhibition factor 1 + I/KI. */
  function Factor(I: real, KI: real): real
    requires KI != 0.0
  {
    1.0 + I / KI
  }

  /** The kinds that divide by the factor. */
  predicate Divides(k: Inhibition)
  {
    k == Noncompetitive || k == Uncompetitive
  }

  /** The effective (KM, k2) under inhibition kind k with factor f. */
  function Effective(KM: real, k2: real, f: real, k: Inhibition): (real, real)
    requires Divides(k) ==> f != 0.0
  {
    match k
    case Competitive => (KM * f, k2)
    case Noncompetitive => (KM, k2 / f)
    case Uncompetitive => (KM / f, k2 / f)
    case Uninhibited => (KM, k2)
  }

  /** The Michaelis-Menten rate law. */
  function Rate(S: real, KM: real, k2: real, E0: real): real
    requires KM + S != 0.0
  {
    (k2 * E0 * S) / (KM + S)
  }

  /** v0 and the effective KM and k2. */
  datatype Kinetics = Kinetics(v0: real, KM: real, k2: real)

  /** The inputs for which `michaelis_menten` divides by no zero. */
  predicate Admissible(S: real, KM: real, k2: real, I: real, KI: real, inhibition: string)
  {
    && KI != 0.0
    && (Divides(Kind(inhibition)) ==> Factor(I, KI) != 0.0)
    && Effective(KM, k2, Factor(I, KI), Kind(inhibition)).0 + S != 0.0
  }

  /** `michaelis_menten(S, KM, k2, E0, I, KI, inhibition)`: each kind changes
      the constants it names by the factor and no other, and v0 obeys the
      rate law with the effective constants. */
  function MichaelisMenten(S: real, KM: real, k2: real, E0: real, I: real, KI: real,
                           inhibition: string): (r: Kinetics)
    requires Admissible(S, KM, k2, I, KI, inhibition)
    ensures Kind(inhibition) == Competitive ==> r.KM == KM * Factor(I, KI) && r.k2 == k2
    ensures Kind(inhibition) == Noncompetitive ==> r.KM == KM && r.k2 * Factor(I, KI) == k2
    ensures Kind(inhibition) == Uncompetitive ==> r.KM * Factor(I, KI) == KM && r.k2 * Factor(I, KI) == k2
    ensures Kind(inhibition) == Uninhibited ==> r.KM == KM && r.k2 == k2
    ensures r.v0 * (r.KM + S) == r.k2 * E0 * S
  {
    var e := Effective(KM, k2, Factor(I, KI), Kind(inhibition));
    Kinetics(Rate(S, e.0, e.1, E0), e.0, e.1)
  }

  /** The kind's name is matched without regard to case. */
  lemma CaseInsensitive(S: real, KM: real, k2: real, E0: real, I: real, KI: real, inhibition: string)
    requires Admissible(S, KM, k2, I, KI, inhibition)
    ensures Admissible(S, KM, k2, I, KI, Lower(inhibition))
    ensures MichaelisMenten(S, KM, k2, E0, I, KI, Lower(inhibition))
         == MichaelisMenten(S, KM, k2, E0, I, KI, inhibition)
  {
    LowerIdempotent(inhibition);
  }

  /** Without inhibitor the factor is 1 and every kind gives the plain rate. */
  lemma NoInhibitor(S: real, KM: real, k2: real, E0: real, KI: real, inhibition: string)
    requires KI != 0.0 && KM + S != 0.0
    ensures Admissible(S, KM, k2, 0.0, KI, inhibition)
    ensures var r := MichaelisMenten(S, KM, k2, E0, 0.0, KI, inhibition);
      r.KM == KM && r.k2 == k2 && r.v0 == Rate(S, KM, k2, E0)
  {
    assert Factor(0.0, KI) == 1.0;
  }

  /** For positive constants and a non-negative substrate concentration the
      rate lies in [0, Vmax) with Vmax = k2 E0. */
  lemma RateBounds(S: real, KM: real, k2: real, E0: real)
    requires KM > 0.0 && k2 > 0.0 && E0 > 0.0 && S >= 0.0
    ensures 0.0 <= Rate(S, KM, k2, E0) < k2 * E0
  {
    var vmax := k2 * E0;
    MulPositive(k2, E0);
    calc {
      Rate(S, KM, k2, E0);
      (vmax * S) / (KM + S);
      { MulDiv(vmax, S, KM + S); }
      vmax * (S / (KM + S));
    }
    assert 0.0 <= S / (KM + S) < 1.0;
    MulBelow(vmax, S / (KM + S));
  }

  /** At S = KM the rate is half the maximal one. */
  lemma HalfMaximalRate(KM: real, k2: real, E0: real)
    requires KM != 0.0
    ensures 2.0 * Rate(KM, KM, k2, E0) == k2 * E0
  {
    var vmax := k2 * E0;
    calc {
      Rate(KM, KM, k2, E0);
      (vmax * KM) / (KM + KM);
      { MulDiv(vmax, KM, KM + KM); }
      vmax * (KM / (KM + KM));
      { assert KM / (KM + KM) == 0.5; }
      vmax * 0.5;
    }
  }

  /** An uncompetitive inhibitor leaves the ratio KM/k2 (the slope of the
      Lineweaver-Burk plot) unchanged. */
  lemma UncompetitiveKeepsSlope(S: real, KM: real, k2: real, E0: real, I: real, KI: real, inhibition: string)
    requires Admissible(S, KM, k2, I, KI, inhibition) && Kind(inhibition) == Uncompetitive
    ensures var r := MichaelisMenten(S, KM, k2, E0, I, KI, inhibition);
      r.KM * k2 == KM * r.k2
  {
    var r := MichaelisMenten(S, KM, k2, E0, I, KI, inhibition);
    var f := Factor(I, KI);
    calc {
      r.KM * k2;
      r.KM * (r.k2 * f);
      { assert r.KM * (r.k2 * f) == (r.KM * f) * r.k2; }
      (r.KM * f) * r.k2;
      KM * r.k2;
    }
  }

  /** For positive constants, a non-negative inhibitor concentration and a
      positive KI, no kind of inhibition makes the reaction faster. */
  lemma InhibitionSlows(S: real, KM: real, k2: real, E0: real, I: real, KI: real, inhibition: string)
    requires KM > 0.0 && k2 > 0.0 && E0 > 0.0 && S >= 0.0 && I >= 0.0 && KI > 0.0
    ensures Admissible(S, KM, k2, I, KI, inhibition)
    ensures MichaelisMenten(S, KM, k2, E0, I, KI, inhibition).v0 <= Rate(S, KM, k2, E0)
  {
    var f := Factor(I, KI);
    assert I / KI >= 0.0;
    match Kind(inhibition)
    case Competitive => CompetitiveSlows(S, KM, k2, E0, f);
    case Noncompetitive => NoncompetitiveSlows(S, KM, k2, E0, f);
    case Uncompetitive => UncompetitiveSlows(S, KM, k2, E0, f);
    case Uninhibited =>
  }

  lemma CompetitiveSlows(S: real, KM: real, k2: real, E0: real, f: real)
    requires KM > 0.0 && k2 > 0.0 && E0 > 0.0 && S >= 0.0 && f >= 1.0
    ensures KM * f + S > 0.0
    ensures Rate(S, KM * f, k2, E0) <= Rate(S, KM, k2, E0)
  {
    ScaleUp(KM, f);
    NumeratorNonNegative(S, k2, E0);
    DivLeq(k2 * E0 * S, KM + S, KM * f + S);
  }

  lemma NoncompetitiveSlows(S: real, KM: real, k2: real, E0: real, f: real)
    requires KM > 0.0 && k2 > 0.0 && E0 > 0.0 && S >= 0.0 && f >= 1.0
    ensures Rate(S, KM, k2 / f, E0) <= Rate(S, KM, k2, E0)
  {
    DivBelow(k2, f);
    MulNonNegative(E0, S);
    MulLeq(k2 / f, k2, E0 * S);
    Assoc(k2 / f, E0, S);
    Assoc(k2, E0, S);
    assert (k2 / f * E0 * S) / (KM + S) <= (k2 * E0 * S) / (KM + S);
  }

  lemma UncompetitiveSlows(S: real, KM: real, k2: real, E0: real, f: real)
    requires KM > 0.0 && k2 > 0.0 && E0 > 0.0 && S >= 0.0 && f >= 1.0
    ensures KM / f + S > 0.0
    ensures Rate(S, KM / f, k2 / f, E0) <= Rate(S, KM, k2, E0)
  {
    ScaleUp(S, f);
    assert KM / f > 0.0;
    UncompetitiveRate(S, KM, k2, E0, f);
    NumeratorNonNegative(S, k2, E0);
    DivLeq(k2 * E0 * S, KM + S, KM + S * f);
  }

  lemma NumeratorNonNegative(S: real, k2: real, E0: real)
    requires k2 > 0.0 && E0 > 0.0 && S >= 0.0
    ensures k2 * E0 * S >= 0.0
  {
    MulPositive(k2, E0);
    MulNonNegative(k2 * E0, S);
  }

  /** The uncompetitive rate, rewritten as k2 E0 S / (KM + f S). */
  lemma UncompetitiveRate(S: real, KM: real, k2: real, E0: real, f: real)
    requires f > 0.0 && KM / f + S > 0.0
    ensures KM + S * f > 0.0
    ensures Rate(S, KM / f, k2 / f, E0) == (k2 * E0 * S) / (KM + S * f)
  {
    var d := KM / f + S;
    assert d * f == KM + S * f;
    MulPositive(d, f);
    var n := k2 / f * E0 * S;
    assert n * f == k2 * E0 * S by {
      calc {
        n * f;
        (k2 / f) * (E0 * S) * f;
        (k2 / f) * f * (E0 * S);
        k2 * (E0 * S);
      }
    }
    assert n / d == (n * f) / (d * f);
  }

  // Small facts of real arithmetic the rate lemmas rely on.

  lemma MulPositive(a: real, b: real)
    requires a > 0.0 && b > 0.0
    ensures a * b > 0.0
  {
  }

  lemma MulNonNegative(a: real, b: real)
    requires a >= 0.0 && b >= 0.0
    ensures a * b >= 0.0
  {
  }

  lemma Assoc(a: real, b: real, c: real)
    ensures a * b * c == a * (b * c)
  {
  }

  lemma MulDiv(a: real, b: real, d: real)
    requires d != 0.0
    ensures (a * b) / d == a * (b / d)
  {
  }

  lemma MulLeq(a: real, b: real, c: real)
    requires a <= b && c >= 0.0
    ensures a * c <= b * c
  {
    MulNonNegative(b - a, c);
    assert b * c - a * c == (b - a) * c;
  }

  lemma MulBelow(v: real, x: real)
    requires v > 0.0 && 0.0 <= x < 1.0
    ensures 0.0 <= v * x < v
  {
    MulNonNegative(v, x);
    MulPositive(v, 1.0 - x);
    assert v - v * x == v * (1.0 - x);
  }

  lemma ScaleUp(x: real, f: real)
    requires x >= 0.0 && f >= 1.0
    ensures x <= x * f
  {
    MulNonNegative(x, f - 1.0);
    assert x * f - x == x * (f - 1.0);
  }

  lemma DivBelow(a: real, f: real)
    requires a > 0.0 && f >= 1.0
    ensures a / f <= a
  {
    var q := a / f;
    assert q * f == a;
    assert q > 0.0;
    ScaleUp(q, f);
  }

  /** A larger denominator gives a smaller quotient. */
  lemma DivLeq(a: real, d1: real, d2: real)
    requires a >= 0.0 && 0.0 < d1 <= d2
    ensures a / d2 <= a / d1
  {
    var q1 := a / d1;
    var q2 := a / d2;
    assert q1 * d1 == a && q2 * d2 == a;
    assert q1 >= 0.0 && q2 >= 0.0;
    MulLeq(d1, d2, q1);
    if q2 > q1 {
      MulPositive(q2 - q1, d2);
      assert false;
    }
  }
}
