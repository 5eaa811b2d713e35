/** Sums over finite sequences, the counterpart of numpy's `sum` on 1-d arrays. */
module RealSums {

  /** Sum of a sequence of reals, accumulated left to right. */
  function Sum(s: seq<real>): real
  {
    if s == [] then 0.0 else Sum(s[..|s| - 1]) + s[|s| - 1]
  }

  /** Sum of a sequence of integers. */
  function IntSum(s: seq<int>): int
  {
    if s == [] then 0 else IntSum(s[..|s| - 1]) + s[|s| - 1]
  }

  lemma {:induction false} SumAppend(a: seq<real>, b: seq<real>)
    ensures Sum(a + b) == Sum(a) + Sum(b)
  {
    if b == [] {
      assert a + b == a;
    } else {
      assert (a + b)[..|a + b| - 1] == a + b[..|b| - 1];
      SumAppend(a, b[..|b| - 1]);
    }
  }

  /** Replacing one term changes the sum by the difference. */
  lemma {:induction false} SumUpdate(s: seq<real>, k: nat, v: real)
    requires k < |s|
    ensures Sum(s[k := v]) == Sum(s) - s[k] + v
  {
    var last := |s| - 1;
    if k == last {
      assert s[k := v][..last] == s[..last];
    } else {
      assert s[k := v][..last] == s[..last][k := v];
      SumUpdate(s[..last], k, v);
    }
  }

  /** A sum of non-negative terms bounds each of its terms. */
  lemma {:induction false} SumBoundsTerm(s: seq<real>, k: nat)
    requires forall i :: 0 <= i < |s| ==> s[i] >= 0.0
    requires k < |s|
    ensures 0.0 <= s[k] <= Sum(s)
  {
    var last := |s| - 1;
    SumNonNegative(s[..last]);
    if k < last {
      SumBoundsTerm(s[..last], k);
    }
  }

  lemma {:induction false} SumNonNegative(s: seq<real>)
    requires forall i :: 0 <= i < |s| ==> s[i] >= 0.0
    ensures Sum(s) >= 0.0
  {
    if s != [] {
      SumNonNegative(s[..|s| - 1]);
    }
  }

  /** A non-empty sum of positive terms is positive. */
  lemma {:induction false} SumPositive(s: seq<real>)
    requires s != []
    requires forall i :: 0 <= i < |s| ==> s[i] > 0.0
    ensures Sum(s) > 0.0
  {
    SumNonNegative(s[..|s| - 1]);
  }

  /** Dividing every term by the same non-zero `d` divides the sum by `d`. */
  lemma {:induction false} SumDivided(s: seq<real>, t: seq<real>, d: real)
    requires d != 0.0 && |s| == |t|
    requires forall i :: 0 <= i < |s| ==> t[i] == s[i] / d
    ensures Sum(t) == Sum(s) / d
  {
    if s != [] {
      var last := |s| - 1;
      SumDivided(s[..last], t[..last], d);
      calc {
        Sum(t);
        Sum(s[..last]) / d + s[last] / d;
        (Sum(s[..last]) + s[last]) / d;
      }
    }
  }

  /** Sum of the integers converted to reals is the integer sum converted. */
  lemma {:induction false} SumOfIntegers(c: seq<int>, t: seq<real>)
    requires |c| == |t|
    requires forall i :: 0 <= i < |c| ==> t[i] == c[i] as real
    ensures Sum(t) == IntSum(c) as real
  {
    if c != [] {
      SumOfIntegers(c[..|c| - 1], t[..|t| - 1]);
    }
  }

  /** Incrementing one entry increments the sum. */
  lemma {:induction false} IntSumIncrement(c: seq<int>, k: nat)
    requires k < |c|
    ensures IntSum(c[k := c[k] + 1]) == IntSum(c) + 1
  {
    var last := |c| - 1;
    var c' := c[k := c[k] + 1];
    assert c'[..last] == if k < last then c[..last][k := c[k] + 1] else c[..last];
    if k < last {
      IntSumIncrement(c[..last], k);
    }
  }

  lemma {:induction false} IntSumZeros(m: nat)
    ensures IntSum(seq(m, _ => 0)) == 0
  {
    if m > 0 {
      assert seq(m, _ => 0)[..m - 1] == seq(m - 1, _ => 0);
      IntSumZeros(m - 1);
    }
  }
}
