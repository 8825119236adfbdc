/** Real-valued vectors: sums and the facts about them that the model relies on. */
module Vectors {

  /** The sum of a vector, accumulated from the left as `cumsum` does. */
  function Sum(s: seq<real>): real
  {
    if s == [] then 0.0 else Sum(s[..|s| - 1]) + s[|s| - 1]
  }

  /** Every entry multiplied by `c`. */
  function Scale(c: real, s: seq<real>): (r: seq<real>)
    ensures |r| == |s| && forall i :: 0 <= i < |s| ==> r[i] == c * s[i]
  {
    seq(|s|, i requires 0 <= i < |s| => c * s[i])
  }

  /** `n` copies of `c`. */
  function Constant<T>(n: nat, c: T): (r: seq<T>)
    ensures |r| == n
  {
    seq(n, _ => c)
  }

  /** The distribution over `n` symbols that puts all mass on symbol `k`. */
  function PointMass(n: nat, k: nat): (r: seq<real>)
    ensures |r| == n
  {
    seq(n, i => if i == k then 1.0 else 0.0)
  }

  predicate NonNegative(s: seq<real>)
  {
    forall i :: 0 <= i < |s| ==> 0.0 <= s[i]
  }

  /** Non-decreasing, the order `searchsorted` expects of its first argument. */
  predicate Sorted(s: seq<real>)
  {
    forall i, j :: 0 <= i <= j < |s| ==> s[i] <= s[j]
  }

  lemma {:induction false} SumAppend(a: seq<real>, b: seq<real>)
    ensures Sum(a + b) == Sum(a) + Sum(b)
    decreases |b|
  {
    if b == [] {
      assert a + b == a;
    } else {
      var b' := b[..|b| - 1];
      assert (a + b)[..|a + b| - 1] == a + b';
      SumAppend(a, b');
    }
  }

  lemma {:induction false} SumScale(c: real, s: seq<real>)
    ensures Sum(Scale(c, s)) == c * Sum(s)
    decreases |s|
  {
    if s != [] {
      var s' := s[..|s| - 1];
      forall i | 0 <= i < |s'| ensures Scale(c, s)[i] == Scale(c, s')[i] {
        assert s[i] == s'[i];
      }
      assert Scale(c, s)[..|s| - 1] == Scale(c, s');
      SumScale(c, s');
    }
  }

  lemma {:induction false} SumNonNegative(s: seq<real>)
    requires NonNegative(s)
    ensures 0.0 <= Sum(s)
    decreases |s|
  {
    if s != [] {
      SumNonNegative(s[..|s| - 1]);
    }
  }

  lemma {:induction false} SumConstant(n: nat, c: real)
    ensures Sum(Constant(n, c)) == n as real * c
  {
    if n > 0 {
      assert Constant(n, c)[..n - 1] == Constant(n - 1, c);
      SumConstant(n - 1, c);
    }
  }

  lemma {:induction false} SumPointMass(n: nat, k: nat)
    ensures Sum(PointMass(n, k)) == if k < n then 1.0 else 0.0
  {
    if n > 0 {
      assert PointMass(n, k)[..n - 1] == PointMass(n - 1, k);
      SumPointMass(n - 1, k);
    }
  }

  /** Adding `d` to one entry adds `d` to the sum. */
  lemma {:induction false} SumUpdate(s: seq<real>, k: nat, d: real)
    requires k < |s|
    ensures Sum(s[k := s[k] + d]) == Sum(s) + d
    decreases |s|
  {
    var n := |s|;
    var t := s[k := s[k] + d];
    if k < n - 1 {
      assert t[..n - 1] == s[..n - 1][k := s[k] + d];
      SumUpdate(s[..n - 1], k, d);
    } else {
      assert t[..n - 1] == s[..n - 1];
    }
  }
}
