/**
  The ideal-gas Carnot cycle: the four states (T, V, p) and, for each of the
  four legs, the work w done on the gas, the heat q it receives, and its
  changes of internal energy DU and entropy DS. The natural logarithm and the
  real power are parameters; the properties that need facts about them state
  those facts as preconditions.
*/
module Carnot {

  /** Gas constant, J/(mol K), as the source rounds it. */
  const R: real := 8.31

  /** Default heat capacities of a monatomic ideal gas. */
  const DefaultCv: real := 1.5 * R
  const DefaultCp: real := 2.5 * R

  datatype State = State(T: real, V: real, p: real)

  /** One leg of the cycle; the sampled (V, p) curve is not modelled. */
  datatype Leg = Leg(w: real, q: real, DU: real, DS: real)

  datatype Cycle = Cycle(states: seq<State>, legs: seq<Leg>, eta: real, wTot: real)

  /** `w_iso_T(Vi, Vf, T)`: work on the gas in a reversible isothermal
      change of volume. */
  function WIsoT(Vi: real, Vf: real, T: real, ln: real -> real): real
    requires Vi != 0.0
  {
    -R * T * ln(Vf / Vi)
  }

  /** `w_adiab(Ti, Tf, Cv)`: work on the gas in an adiabatic change, equal to
      its change of internal energy. */
  function WAdiab(Ti: real, Tf: real, Cv: real): real
  {
    Cv * (Tf - Ti)
  }

  /** The ideal-gas law for one mole, p V = R T. */
  predicate IdealGas(s: State)
  {
    s.p * s.V == R * s.T
  }

  /** The state of an ideal mole at temperature T and volume V. */
  function IdealState(T: real, V: real): (s: State)
    requires V != 0.0
    ensures s.T == T && s.V == V && IdealGas(s)
  {
    State(T, V, R * T / V)
  }

  /** An isothermal leg at temperature T: no change of internal energy, the
      heat received balances the work, and DS = q/T. */
  function Isothermal(w: real, T: real): (l: Leg)
    requires T != 0.0
    ensures l.w == w && l.DU == 0.0 && l.q + l.w == 0.0 && l.DS * T == l.q
  {
    Leg(w, -1.0 * w, 0.0, -1.0 * w / T)
  }

  /** An adiabatic leg: no heat, no entropy change, DU = w. */
  function Adiabatic(w: real): (l: Leg)
    ensures l.w == w && l.q == 0.0 && l.DS == 0.0 && l.DU == w
  {
    Leg(w, 0.0, w, 0.0)
  }

  /** The volume the adiabatic expansion from (T_h, V2) reaches at T_c:
      (T_h/T_c)^(1/(gamma - 1)) * V2. */
  function ThirdVolume(Tc: real, Th: real, V2: real, Cv: real, Cp: real, pow: (real, real) -> real): real
    requires Tc != 0.0 && Cv != 0.0 && Cp != Cv
  {
    var gamma := Cp / Cv;
    pow(Th / Tc, 1.0 / (gamma - 1.0)) * V2
  }

  /** What `carnot` needs to avoid a division by zero. */
  predicate Defined(Tc: real, Th: real, V1: real, V2: real, Cv: real, Cp: real, pow: (real, real) -> real)
  {
    && Tc != 0.0 && Th != 0.0 && V1 != 0.0 && V2 != 0.0 && Cv != 0.0 && Cp != Cv
    && ThirdVolume(Tc, Th, V2, Cv, Cp, pow) != 0.0
  }

  /** With the default heat capacities gamma is 5/3, so the third volume is
      (T_h/T_c)^(3/2) V2, and the cycle is defined for non-zero temperatures
      and volumes whenever that power is non-zero. */
  lemma DefaultGas(Tc: real, Th: real, V1: real, V2: real, pow: (real, real) -> real)
    requires Tc != 0.0 && Th != 0.0 && V1 != 0.0 && V2 != 0.0
    ensures DefaultCp / DefaultCv == 5.0 / 3.0
    ensures ThirdVolume(Tc, Th, V2, DefaultCv, DefaultCp, pow) == pow(Th / Tc, 1.5) * V2
    ensures pow(Th / Tc, 1.5) != 0.0 <==> Defined(Tc, Th, V1, V2, DefaultCv, DefaultCp, pow)
  {
    var gamma := DefaultCp / DefaultCv;
    assert gamma == 5.0 / 3.0;
    assert 1.0 / (gamma - 1.0) == 1.5;
  }

  /** `carnot(T_c, T_h, V1, V2, Cv, Cp)`: states 1..4 as s[0..3], legs
      t[0..3] (isothermal expansion, adiabatic expansion, isothermal
      compression, adiabatic compression), the efficiency and the total
      work. */
  function CarnotCycle(Tc: real, Th: real, V1: real, V2: real, Cv: real, Cp: real,
                       ln: real -> real, pow: (real, real) -> real): (c: Cycle)
    requires Defined(Tc, Th, V1, V2, Cv, Cp, pow)
    ensures |c.states| == 4 && |c.legs| == 4
    ensures c.states[0].T == Th && c.states[1].T == Th && c.states[2].T == Tc && c.states[3].T == Tc
    ensures c.states[0].V == V1 && c.states[1].V == V2
    ensures forall k :: 0 <= k < 4 ==> IdealGas(c.states[k])
    ensures c.states[3].V * V2 == c.states[2].V * V1
    ensures c.legs[1].w == Cv * (Tc - Th) && c.legs[3].w == Cv * (Th - Tc)
    ensures c.eta == 1.0 - Tc / Th
    ensures c.wTot == c.legs[0].w + c.legs[1].w + c.legs[2].w + c.legs[3].w
  {
    var V3 := ThirdVolume(Tc, Th, V2, Cv, Cp, pow);
    var V4 := V3 * V1 / V2;
    VolumeRatio(V1, V2, V3);
    var s := [IdealState(Th, V1), IdealState(Th, V2), IdealState(Tc, V3), IdealState(Tc, V4)];
    var t := [Isothermal(WIsoT(V1, V2, Th, ln), Th),
              Adiabatic(WAdiab(Th, Tc, Cv)),
              Isothermal(WIsoT(V3, V4, Tc, ln), Tc),
              Adiabatic(WAdiab(Tc, Th, Cv))];
    Cycle(s, t, 1.0 - Tc / Th, t[0].w + t[1].w + t[2].w + t[3].w)
  }

  lemma VolumeRatio(V1: real, V2: real, V3: real)
    requires V1 != 0.0 && V2 != 0.0 && V3 != 0.0
    ensures V3 * V1 / V2 != 0.0
    ensures (V3 * V1 / V2) * V2 == V3 * V1
  {
  }

  /** The first law on every leg, DU = q + w, and the leg kinds: the
      isothermal legs have DU = 0 and DS = q/T, the adiabatic ones q = 0 and
      DS = 0. */
  lemma FirstLaw(Tc: real, Th: real, V1: real, V2: real, Cv: real, Cp: real,
                 ln: real -> real, pow: (real, real) -> real)
    requires Defined(Tc, Th, V1, V2, Cv, Cp, pow)
    ensures var c := CarnotCycle(Tc, Th, V1, V2, Cv, Cp, ln, pow);
      && (forall k :: 0 <= k < 4 ==> c.legs[k].DU == c.legs[k].q + c.legs[k].w)
      && c.legs[0].DU == 0.0 && c.legs[2].DU == 0.0
      && c.legs[0].DS * Th == c.legs[0].q && c.legs[2].DS * Tc == c.legs[2].q
      && c.legs[1].q == 0.0 && c.legs[3].q == 0.0 && c.legs[1].DS == 0.0 && c.legs[3].DS == 0.0
  {
    var c := CarnotCycle(Tc, Th, V1, V2, Cv, Cp, ln, pow);
    forall k | 0 <= k < 4
      ensures c.legs[k].DU == c.legs[k].q + c.legs[k].w
    {
      if k == 0 || k == 2 {
        assert c.legs[k].q + c.legs[k].w == 0.0;
      }
    }
  }

  /** The two adiabatic legs cancel, the internal energy returns to its
      starting value, and the net work is minus the net heat. */
  lemma CycleBalance(Tc: real, Th: real, V1: real, V2: real, Cv: real, Cp: real,
                     ln: real -> real, pow: (real, real) -> real)
    requires Defined(Tc, Th, V1, V2, Cv, Cp, pow)
    ensures var c := CarnotCycle(Tc, Th, V1, V2, Cv, Cp, ln, pow);
      && c.legs[1].w + c.legs[3].w == 0.0
      && c.legs[0].DU + c.legs[1].DU + c.legs[2].DU + c.legs[3].DU == 0.0
      && c.wTot == -(c.legs[0].q + c.legs[2].q)
  {
    var c := CarnotCycle(Tc, Th, V1, V2, Cv, Cp, ln, pow);
    AdiabaticWorksCancel(Th, Tc, Cv);
    assert c.legs[1].w == WAdiab(Th, Tc, Cv) && c.legs[3].w == WAdiab(Tc, Th, Cv);
  }

  lemma AdiabaticWorksCancel(Th: real, Tc: real, Cv: real)
    ensures WAdiab(Th, Tc, Cv) + WAdiab(Tc, Th, Cv) == 0.0
  {
    calc {
      WAdiab(Th, Tc, Cv) + WAdiab(Tc, Th, Cv);
      Cv * (Tc - Th) + Cv * (Th - Tc);
      Cv * ((Tc - Th) + (Th - Tc));
      0.0;
    }
  }

  /** The quotient a / b, named so that the logarithm law below applies only
      where a proof asks for it. */
  function Ratio(a: real, b: real): real
    requires b != 0.0
  {
    a / b
  }

  /** ln turns quotients of positive numbers into differences. */
  ghost predicate LnQuotient(ln: real -> real)
  {
    forall a: real, b: real :: a > 0.0 && b > 0.0 ==> ln(Ratio(a, b)) == ln(a) - ln(b)
  }

  /** For positive volumes and a logarithm with the quotient law: the
      compression undoes the expansion's volume ratio, so the entropy the
      gas takes in at T_h is given back at T_c, and the efficiency is the
      net work delivered per unit of heat taken in, -w_tot = eta * q_h. */
  lemma EntropyAndEfficiency(Tc: real, Th: real, V1: real, V2: real, Cv: real, Cp: real,
                             ln: real -> real, pow: (real, real) -> real)
    requires Defined(Tc, Th, V1, V2, Cv, Cp, pow)
    requires V1 > 0.0 && V2 > 0.0 && ThirdVolume(Tc, Th, V2, Cv, Cp, pow) > 0.0
    requires LnQuotient(ln)
    ensures var c := CarnotCycle(Tc, Th, V1, V2, Cv, Cp, ln, pow);
      && c.legs[0].DS + c.legs[2].DS == 0.0
      && -c.wTot == c.eta * c.legs[0].q
  {
    var V3 := ThirdVolume(Tc, Th, V2, Cv, Cp, pow);
    CompressionRatio(V1, V2, V3, ln);
    BalanceFromRatio(Tc, Th, V1, V2, V3, Cv, Cp, ln, pow);
  }

  /** The heat each isothermal leg takes in: q = R T ln(Vf/Vi). */
  lemma IsothermalHeats(Tc: real, Th: real, V1: real, V2: real, V3: real, Cv: real, Cp: real,
                        ln: real -> real, pow: (real, real) -> real)
    requires Defined(Tc, Th, V1, V2, Cv, Cp, pow) && V3 == ThirdVolume(Tc, Th, V2, Cv, Cp, pow)
    ensures var c := CarnotCycle(Tc, Th, V1, V2, Cv, Cp, ln, pow);
      && c.legs[0].q == R * Th * ln(V2 / V1)
      && c.legs[2].q == R * Tc * ln((V3 * V1 / V2) / V3)
  {
    var c := CarnotCycle(Tc, Th, V1, V2, Cv, Cp, ln, pow);
    var V4 := V3 * V1 / V2;
    assert c.legs[0] == Isothermal(WIsoT(V1, V2, Th, ln), Th);
    assert c.states[2] == IdealState(Tc, V3) && c.states[3] == IdealState(Tc, V4);
    assert c.legs[2].w == WIsoT(V3, V4, Tc, ln);
    assert c.legs[2] == Isothermal(WIsoT(V3, V4, Tc, ln), Tc);
    HeatOfWork(Th, ln(V2 / V1));
    HeatOfWork(Tc, ln(V4 / V3));
  }

  /** Undoing the sign of w_iso_T gives the heat: -1 * (-R T x) == R T x. */
  lemma HeatOfWork(T: real, x: real)
    ensures -1.0 * (-R * T * x) == R * T * x
  {
    calc {
      -1.0 * (-R * T * x);
      -1.0 * (-1.0 * (R * T * x));
      R * T * x;
    }
  }

  lemma BalanceFromRatio(Tc: real, Th: real, V1: real, V2: real, V3: real, Cv: real, Cp: real,
                         ln: real -> real, pow: (real, real) -> real)
    requires Defined(Tc, Th, V1, V2, Cv, Cp, pow) && V3 == ThirdVolume(Tc, Th, V2, Cv, Cp, pow)
    requires ln((V3 * V1 / V2) / V3) == -ln(V2 / V1)
    ensures var c := CarnotCycle(Tc, Th, V1, V2, Cv, Cp, ln, pow);
      && c.legs[0].DS + c.legs[2].DS == 0.0
      && -c.wTot == c.eta * c.legs[0].q
  {
    var c := CarnotCycle(Tc, Th, V1, V2, Cv, Cp, ln, pow);
    var L := ln(V2 / V1);
    IsothermalHeats(Tc, Th, V1, V2, V3, Cv, Cp, ln, pow);
    FirstLaw(Tc, Th, V1, V2, Cv, Cp, ln, pow);
    CycleBalance(Tc, Th, V1, V2, Cv, Cp, ln, pow);
    var q0, q2 := c.legs[0].q, c.legs[2].q;
    assert q0 == R * Th * L && q2 == R * Tc * -L;
    HeatsFromRatio(Th, Tc, L, q0, q2);
    EntropyCancels(Th, Tc, L, q0, q2, c.legs[0].DS, c.legs[2].DS);
    Efficiency(Th, Tc, L);
    calc {
      -c.wTot;
      q0 + q2;
      R * Th * L + -(R * Tc * L);
      (1.0 - Tc / Th) * (R * Th * L);
      c.eta * q0;
    }
  }

  lemma HeatsFromRatio(Th: real, Tc: real, L: real, q0: real, q2: real)
    requires q0 == R * Th * L && q2 == R * Tc * -L
    ensures q2 == -(R * Tc * L)
  {
  }

  /** The compression from V3 to V4 has the inverse volume ratio of the
      expansion from V1 to V2. */
  lemma CompressionRatio(V1: real, V2: real, V3: real, ln: real -> real)
    requires V1 > 0.0 && V2 > 0.0 && V3 > 0.0 && LnQuotient(ln)
    ensures ln((V3 * V1 / V2) / V3) == -ln(V2 / V1)
  {
    var V4 := V3 * V1 / V2;
    QuotientCancels(V3, V1, V2);
    assert ln(Ratio(V1, V2)) == ln(V1) - ln(V2);
    assert ln(Ratio(V2, V1)) == ln(V2) - ln(V1);
  }

  lemma QuotientCancels(a: real, b: real, d: real)
    requires a != 0.0 && d != 0.0
    ensures (a * b / d) / a == b / d
  {
    calc {
      (a * b / d) / a;
      { assert a * b / d == a * (b / d); }
      (a * (b / d)) / a;
      b / d;
    }
  }

  lemma EntropyCancels(Th: real, Tc: real, L: real, q0: real, q2: real, DS0: real, DS2: real)
    requires Th != 0.0 && Tc != 0.0
    requires q0 == R * Th * L && q2 == -(R * Tc * L)
    requires DS0 * Th == q0 && DS2 * Tc == q2
    ensures DS0 + DS2 == 0.0
  {
    assert DS0 == R * L by {
      assert (DS0 - R * L) * Th == 0.0;
    }
    assert DS2 == -(R * L) by {
      assert (DS2 + R * L) * Tc == 0.0;
    }
  }

  lemma Efficiency(Th: real, Tc: real, L: real)
    requires Th != 0.0
    ensures R * Th * L + -(R * Tc * L) == (1.0 - Tc / Th) * (R * Th * L)
  {
    calc {
      (1.0 - Tc / Th) * (R * Th * L);
      R * Th * L - (Tc / Th) * Th * (R * L);
      { assert (Tc / Th) * Th == Tc; }
      R * Th * L - Tc * (R * L);
      R * Th * L + -(R * Tc * L);
    }
  }
}
