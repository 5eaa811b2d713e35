/**
  Protein saturation by the Hill-Langmuir equation: with the dissociation
  constant Kd = L50^n, the saturation at ligand concentration L is
  s = L^n / (Kd + L^n). The real power is a parameter.
*/
module Hill {

  /** The saturation for L^n = Ln and dissociation constant Kd. */
  function Saturation(Ln: real, Kd: real): real
    requires Kd + Ln != 0.0
  {
    Ln / (Kd + Ln)
  }

  /** `hill(L, L50, n)`: the saturation s solves s (Kd + L^n) = L^n with
      Kd = L50^n. */
  function Hill(L: real, L50: real, n: real, pow: (real, real) -> real): (s: real)
    requires pow(L50, n) + pow(L, n) != 0.0
    ensures s * (pow(L50, n) + pow(L, n)) == pow(L, n)
  {
    Saturation(pow(L, n), pow(L50, n))
  }

  /** At L = L50 the protein is half saturated. */
  lemma HalfSaturation(L50: real, n: real, pow: (real, real) -> real)
    requires pow(L50, n) > 0.0
    ensures Hill(L50, L50, n, pow) == 0.5
  {
    var x := pow(L50, n);
    assert Hill(L50, L50, n, pow) * (x + x) == x;
  }

  /** The saturation is a fraction: 0 <= s < 1, and 0 exactly when L^n = 0. */
  lemma SaturationBounds(Ln: real, Kd: real)
    requires Ln >= 0.0 && Kd > 0.0
    ensures 0.0 <= Saturation(Ln, Kd) < 1.0
    ensures Saturation(Ln, Kd) == 0.0 <==> Ln == 0.0
  {
    var s := Saturation(Ln, Kd);
    assert s * (Kd + Ln) == Ln;
    if s >= 1.0 {
      GrowsWith(s, Kd + Ln);
      assert false;
    }
  }

  /** The unbound fraction: 1 - s = Kd / (Kd + L^n). */
  lemma UnboundFraction(Ln: real, Kd: real)
    requires Kd + Ln != 0.0
    ensures 1.0 - Saturation(Ln, Kd) == Kd / (Kd + Ln)
  {
    var d := Kd + Ln;
    calc {
      Kd / d + Ln / d;
      { AddQuotients(Kd, Ln, d); }
      d / d;
      1.0;
    }
  }

  lemma AddQuotients(a: real, b: real, d: real)
    requires d != 0.0
    ensures a / d + b / d == (a + b) / d
  {
  }

  /** The linear form behind the Hill plot: s / (1 - s) = L^n / Kd. */
  lemma HillPlot(Ln: real, Kd: real)
    requires Ln >= 0.0 && Kd > 0.0
    ensures 1.0 - Saturation(Ln, Kd) != 0.0
    ensures Saturation(Ln, Kd) / (1.0 - Saturation(Ln, Kd)) == Ln / Kd
  {
    var d := Kd + Ln;
    UnboundFraction(Ln, Kd);
    calc {
      Saturation(Ln, Kd) / (1.0 - Saturation(Ln, Kd));
      (Ln / d) / (Kd / d);
      { QuotientOfQuotients(Ln, Kd, d); }
      Ln / Kd;
    }
  }

  /** A larger L^n gives strictly more saturation. */
  lemma SaturationIncreasing(Ln1: real, Ln2: real, Kd: real)
    requires 0.0 <= Ln1 < Ln2 && Kd > 0.0
    ensures Saturation(Ln1, Kd) < Saturation(Ln2, Kd)
  {
    UnboundFraction(Ln1, Kd);
    UnboundFraction(Ln2, Kd);
    DivDecreasing(Kd, Kd + Ln1, Kd + Ln2);
  }

  lemma GrowsWith(s: real, d: real)
    requires s >= 1.0 && d > 0.0
    ensures s * d >= d
  {
    assert s * d - d == (s - 1.0) * d;
  }

  lemma QuotientOfQuotients(a: real, b: real, d: real)
    requires b != 0.0 && d != 0.0
    ensures (a / d) / (b / d) == a / b
  {
  }

  /** For a positive numerator a larger denominator gives a smaller quotient. */
  lemma DivDecreasing(a: real, d1: real, d2: real)
    requires a > 0.0 && 0.0 < d1 < d2
    ensures a / d2 < a / d1
  {
    var q1 := a / d1;
    var q2 := a / d2;
    assert q1 * d1 == a && q2 * d2 == a;
    assert q1 > 0.0;
    if q2 >= q1 {
      assert false;
    }
  }
}
