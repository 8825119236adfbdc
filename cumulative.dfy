/** The CDF builder: `CDF(symbol_prob)` is `symbol_prob.cumsum()`. */
module CumulativeDistribution {
  import opened Vectors

  /** Running totals of `p`, built left to right the way `cumsum` builds them:
      each entry is the previous entry plus the next probability. */
  function Cdf(p: seq<real>): (F: seq<real>)
    ensures |F| == |p|
    ensures forall i {:trigger F[i]} :: 0 <= i < |p| ==> F[i] == Sum(p[..i + 1])
    decreases |p|
  {
    if p == [] then []
    else
      var n := |p|;
      var F := Cdf(p[..n - 1]);
      var r := F + [(if F == [] then 0.0 else F[n - 2]) + p[n - 1]];
      assert forall i :: 0 <= i < n ==> r[i] == Sum(p[..i + 1]) by {
        forall i | 0 <= i < n ensures r[i] == Sum(p[..i + 1]) {
          if i < n - 1 {
            assert p[..n - 1][..i + 1] == p[..i + 1];
          } else {
            assert p[..i + 1][..i] == p[..n - 1];
            assert n > 1 ==> F[n - 2] == Sum(p[..n - 1][..n - 1]);
            assert p[..n - 1][..n - 1] == p[..n - 1];
          }
        }
      }
      r
  }

  /** The first entry is `p[0]`, and each later entry adds exactly `p[i]`. */
  lemma CdfStep(p: seq<real>, i: nat)
    requires i < |p|
    ensures Cdf(p)[i] == (if i == 0 then 0.0 else Cdf(p)[i - 1]) + p[i]
  {
    var F := Cdf(p);
    var s := p[..i + 1];
    assert F[i] == Sum(s);
    assert s[..i] == p[..i];
    assert Sum(s) == Sum(p[..i]) + p[i];
    if i > 0 {
      assert F[i - 1] == Sum(p[..i]);
    }
  }

  /** The CDF's last entry is the total probability. */
  lemma CdfLast(p: seq<real>)
    requires |p| > 0
    ensures Cdf(p)[|p| - 1] == Sum(p)
  {
    assert p[..|p|] == p;
  }

  /** Between two positions the CDF grows by the probabilities in between. */
  lemma CdfGrowth(p: seq<real>, i: nat, j: nat)
    requires i <= j < |p|
    ensures Cdf(p)[j] == Cdf(p)[i] + Sum(p[i + 1..j + 1])
  {
    var a, b := p[..i + 1], p[i + 1..j + 1];
    assert p[..j + 1] == a + b;
    SumAppend(a, b);
    calc {
      Cdf(p)[j];
      Sum(p[..j + 1]);
      Sum(a + b);
      Sum(a) + Sum(b);
      Cdf(p)[i] + Sum(b);
    }
  }

  /** For non-negative probabilities an earlier CDF entry is never above a later one. */
  lemma CdfOrdered(p: seq<real>, i: nat, j: nat)
    requires NonNegative(p) && i <= j < |p|
    ensures Cdf(p)[i] <= Cdf(p)[j]
  {
    CdfGrowth(p, i, j);
    var gap := p[i + 1..j + 1];
    assert forall k :: 0 <= k < |gap| ==> gap[k] == p[i + 1 + k];
    SumNonNegative(gap);
  }

  /** For non-negative probabilities the CDF is non-decreasing, never negative and never
      above the total, which is its last entry. */
  lemma CdfOfNonNegative(p: seq<real>)
    requires NonNegative(p)
    ensures Sorted(Cdf(p)) && NonNegative(Cdf(p))
    ensures forall i :: 0 <= i < |p| ==> Cdf(p)[i] <= Sum(p)
  {
    var F := Cdf(p);
    forall i, j | 0 <= i <= j < |p| ensures F[i] <= F[j] {
      CdfOrdered(p, i, j);
    }
    if |p| > 0 {
      CdfStep(p, 0);
      CdfLast(p);
      forall i | 0 <= i < |p| ensures 0.0 <= F[i] <= Sum(p) {
        CdfOrdered(p, 0, i);
        CdfOrdered(p, i, |p| - 1);
      }
    }
  }
}
