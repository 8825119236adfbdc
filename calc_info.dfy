/** The estimator: empirical byte probabilities, masked self-information and entropy. */
module CalcInfo {
  import opened Wrappers
  import opened Alphabet
  import opened Vectors

  /** Occurrences of `b` in `arr`. */
  function Count(arr: seq<byte>, b: byte): (c: nat)
    ensures c <= |arr|
    ensures c == 0 <==> b !in arr
  {
    if arr == [] then 0
    else
      assert arr == arr[..|arr| - 1] + [arr[|arr| - 1]];
      Count(arr[..|arr| - 1], b) + (if arr[|arr| - 1] == b then 1 else 0)
  }

  /** `Count` is the multiplicity of `b` in the multiset of bytes: order does not matter. */
  lemma {:induction false} CountIsMultiplicity(arr: seq<byte>, b: byte)
    ensures Count(arr, b) == multiset(arr)[b]
  {
    if arr != [] {
      var init := arr[..|arr| - 1];
      assert arr == init + [arr[|arr| - 1]];
      CountIsMultiplicity(init, b);
    }
  }

  /** The 256 bins `[0, 1), [1, 2), …, [255, 256]`, filled one byte at a time. */
  function Histogram(arr: seq<byte>): (h: seq<real>)
    ensures |h| == AlphabetSize
    ensures forall b :: 0 <= b < |h| ==> 0.0 <= h[b]
  {
    if arr == [] then Constant(AlphabetSize, 0.0)
    else
      var h := Histogram(arr[..|arr| - 1]);
      var b := arr[|arr| - 1];
      h[b := h[b] + 1.0]
  }

  /** Bin `b` holds the number of bytes equal to `b`. */
  lemma {:induction false} HistogramCounts(arr: seq<byte>, b: byte)
    ensures Histogram(arr)[b] == Count(arr, b) as real
  {
    if arr != [] {
      HistogramCounts(arr[..|arr| - 1], b);
    }
  }

  /** Every byte lands in exactly one bin. */
  lemma {:induction false} HistogramTotal(arr: seq<byte>)
    ensures Sum(Histogram(arr)) == |arr| as real
  {
    if arr == [] {
      SumConstant(AlphabetSize, 0.0);
    } else {
      var init := arr[..|arr| - 1];
      HistogramTotal(init);
      SumUpdate(Histogram(init), arr[|arr| - 1] as nat, 1.0);
    }
  }

  /** `probability(arr)`: the histogram divided by the number of bytes (`density=True` with
      bins of width 1). `None` stands for the all-NaN vector numpy returns for an empty input,
      where the division is 0 / 0. */
  function Probability(arr: seq<byte>): (r: Option<seq<real>>)
    ensures r.None? <==> |arr| == 0
    ensures r.Some? ==> |r.value| == AlphabetSize
  {
    if |arr| == 0 then None
    else Some(Scale(1.0 / |arr| as real, Histogram(arr)))
  }

  /** Each entry is the relative frequency of its byte. */
  lemma ProbabilityIsFrequency(arr: seq<byte>, b: byte)
    requires |arr| > 0
    ensures Probability(arr).value[b] == Count(arr, b) as real / |arr| as real
  {
    HistogramCounts(arr, b);
    Normalised(Histogram(arr), |arr| as real, b as nat, Count(arr, b) as real);
  }

  /** Dividing a histogram by the total divides each bin. */
  lemma Normalised(h: seq<real>, n: real, b: nat, c: real)
    requires 0.0 < n && b < |h| && h[b] == c
    ensures Scale(1.0 / n, h)[b] == c / n
  {
  }

  /** Entries are probabilities, and exactly the bytes absent from the input get 0. */
  lemma ProbabilityBounds(arr: seq<byte>, b: byte)
    requires |arr| > 0
    ensures 0.0 <= Probability(arr).value[b] <= 1.0
    ensures Probability(arr).value[b] == 0.0 <==> b !in arr
  {
    ProbabilityIsFrequency(arr, b);
    Fraction(Count(arr, b) as real, |arr| as real);
  }

  lemma Fraction(c: real, n: real)
    requires 0.0 <= c <= n && 0.0 < n
    ensures 0.0 <= c / n <= 1.0
    ensures c / n == 0.0 <==> c == 0.0
  {
    assert c / n <= n / n;
  }

  /** The estimated probabilities sum to exactly 1. */
  lemma ProbabilitySumsToOne(arr: seq<byte>)
    requires |arr| > 0
    ensures Sum(Probability(arr).value) == 1.0
  {
    HistogramTotal(arr);
    SumScale(1.0 / |arr| as real, Histogram(arr));
  }

  /** Two inputs holding the same bytes in any order have the same estimate. */
  lemma ProbabilityIgnoresOrder(a1: seq<byte>, a2: seq<byte>)
    requires multiset(a1) == multiset(a2)
    ensures Probability(a1) == Probability(a2)
  {
    assert |a1| == |multiset(a1)| == |multiset(a2)| == |a2|;
    if |a1| > 0 {
      forall i | 0 <= i < AlphabetSize ensures Histogram(a1)[i] == Histogram(a2)[i] {
        var b := i as byte;
        HistogramCounts(a1, b);
        HistogramCounts(a2, b);
        CountIsMultiplicity(a1, b);
        CountIsMultiplicity(a2, b);
      }
      assert Histogram(a1) == Histogram(a2);
    }
  }

  /** The bytes `0, 1, …, n - 1`, once each. */
  function Ascending(n: nat): (arr: seq<byte>)
    requires n <= AlphabetSize
    ensures |arr| == n
  {
    seq(n, i requires 0 <= i < n => i as byte)
  }

  lemma {:induction false} HistogramOfAscending(n: nat)
    requires n <= AlphabetSize
    ensures Histogram(Ascending(n)) == seq(AlphabetSize, i => if i < n then 1.0 else 0.0)
  {
    if n > 0 {
      assert Ascending(n)[..n - 1] == Ascending(n - 1);
      HistogramOfAscending(n - 1);
    }
  }

  /** Each of the 256 byte values once: the estimate is uniform, 1/256 per symbol. */
  lemma ProbabilityOfAllBytes()
    ensures Probability(Ascending(AlphabetSize)) == Some(Constant(AlphabetSize, 1.0 / 256.0))
  {
    HistogramOfAscending(AlphabetSize);
    var h := Histogram(Ascending(AlphabetSize));
    assert |Ascending(AlphabetSize)| as real == 256.0;
    var p, u := Scale(1.0 / 256.0, h), Constant(AlphabetSize, 1.0 / 256.0);
    forall i | 0 <= i < AlphabetSize ensures p[i] == u[i] {
      assert h[i] == 1.0;
    }
    assert p == u;
  }

  /** The values `self_info` returns when its output buffer held `buffer` beforehand:
      `-log2(p[i])` where `p[i] != 0`, and the negated old buffer entry elsewhere. */
  function SelfInformation(p: seq<real>, buffer: seq<real>, log2: real -> real): (s: seq<real>)
    requires |buffer| == |p|
    ensures |s| == |p|
  {
    seq(|p|, i requires 0 <= i < |p| => if p[i] != 0.0 then -log2(p[i]) else -buffer[i])
  }

  /** `self_info(p, out)`: `log2` is written into `out` only where `p[i] != 0`, the other
      slots keep their old contents; the result is the negation of the whole buffer. */
  method SelfInfo(p: seq<real>, out: array<real>, log2: real -> real) returns (s: seq<real>)
    requires out.Length == |p|
    modifies out
    ensures forall i :: 0 <= i < |p| ==> out[i] == if p[i] != 0.0 then log2(p[i]) else old(out[i])
    ensures s == SelfInformation(p, old(out[..]), log2)
  {
    forall i | 0 <= i < out.Length && p[i] != 0.0 {
      out[i] := log2(p[i]);
    }
    s := seq(out.Length, i reads out requires 0 <= i < out.Length => -out[i]);
  }

  /** With a zero-filled buffer, zero-probability symbols get self-information 0 and every
      other symbol `-log2(p)`. */
  lemma SelfInfoZeroBuffer(p: seq<real>, log2: real -> real)
    ensures forall i :: 0 <= i < |p| && p[i] == 0.0 ==> SelfInformation(p, Constant(|p|, 0.0), log2)[i] == 0.0
    ensures forall i :: 0 <= i < |p| && p[i] != 0.0 ==> SelfInformation(p, Constant(|p|, 0.0), log2)[i] == -log2(p[i])
  {
  }

  /** The elementwise products `p[i] * s[i]`. */
  function Weighted(p: seq<real>, s: seq<real>): (w: seq<real>)
    requires |s| == |p|
    ensures |w| == |p|
  {
    seq(|p|, i requires 0 <= i < |p| => p[i] * s[i])
  }

  /** `entropy(p)`: the sum of `p[i] * self_info(p)[i]`, where `self_info` ran on a fresh,
      uninitialised buffer whose contents are `buffer`. */
  function Entropy(p: seq<real>, buffer: seq<real>, log2: real -> real): (h: real)
    requires |buffer| == |p|
    ensures h == ShannonEntropy(p, log2)
  {
    WeightedSelfInformationIsShannon(p, buffer, log2);
    Sum(Weighted(p, SelfInformation(p, buffer, log2)))
  }

  /** Reference definition: Shannon's `H(p) = -Σ p log2 p`, over the symbols with `p != 0`. */
  function ShannonEntropy(p: seq<real>, log2: real -> real): real
  {
    if p == [] then 0.0
    else
      var q := p[|p| - 1];
      ShannonEntropy(p[..|p| - 1], log2) + (if q == 0.0 then 0.0 else -(q * log2(q)))
  }

  /** Whatever the buffer held, the weighted self-information sums to Shannon's entropy:
      zero-probability symbols contribute exactly 0. */
  lemma {:induction false} WeightedSelfInformationIsShannon(p: seq<real>, buffer: seq<real>, log2: real -> real)
    requires |buffer| == |p|
    ensures Sum(Weighted(p, SelfInformation(p, buffer, log2))) == ShannonEntropy(p, log2)
  {
    if p != [] {
      var n := |p|;
      var init, binit := p[..n - 1], buffer[..n - 1];
      var w := Weighted(p, SelfInformation(p, buffer, log2));
      forall i | 0 <= i < n - 1
        ensures w[..n - 1][i] == Weighted(init, SelfInformation(init, binit, log2))[i]
      {
        assert p[i] == init[i] && buffer[i] == binit[i];
      }
      assert w[..n - 1] == Weighted(init, SelfInformation(init, binit, log2));
      WeightedSelfInformationIsShannon(init, binit, log2);
    }
  }

  /** In particular the uninitialised buffer does not influence the entropy. */
  lemma EntropyIgnoresBuffer(p: seq<real>, b1: seq<real>, b2: seq<real>, log2: real -> real)
    requires |b1| == |p| && |b2| == |p|
    ensures Entropy(p, b1, log2) == Entropy(p, b2, log2)
  {
  }

  /** A one-hot distribution has entropy 0 (given `log2(1) == 0`). */
  lemma {:induction false} ShannonEntropyOfPointMass(n: nat, k: nat, log2: real -> real)
    requires log2(1.0) == 0.0
    ensures ShannonEntropy(PointMass(n, k), log2) == 0.0
  {
    if n > 0 {
      assert PointMass(n, k)[..n - 1] == PointMass(n - 1, k);
      ShannonEntropyOfPointMass(n - 1, k, log2);
    }
  }

  lemma EntropyOfPointMass(n: nat, k: nat, buffer: seq<real>, log2: real -> real)
    requires |buffer| == n && log2(1.0) == 0.0
    ensures Entropy(PointMass(n, k), buffer, log2) == 0.0
  {
    ShannonEntropyOfPointMass(n, k, log2);
  }

  lemma {:induction false} ShannonEntropyOfConstant(n: nat, c: real, log2: real -> real)
    requires c != 0.0
    ensures ShannonEntropy(Constant(n, c), log2) == n as real * -(c * log2(c))
  {
    if n > 0 {
      assert Constant(n, c)[..n - 1] == Constant(n - 1, c);
      ShannonEntropyOfConstant(n - 1, c, log2);
    }
  }

  /** The uniform byte distribution has entropy 8 bits (given `log2(1/256) == -8`). */
  lemma EntropyOfUniform(buffer: seq<real>, log2: real -> real)
    requires |buffer| == AlphabetSize && log2(1.0 / 256.0) == -8.0
    ensures Entropy(Constant(AlphabetSize, 1.0 / 256.0), buffer, log2) == 8.0
  {
    ShannonEntropyOfConstant(AlphabetSize, 1.0 / 256.0, log2);
  }

  /** With `log2` non-positive on (0, 1], a distribution's entropy is non-negative. */
  lemma {:induction false} ShannonEntropyNonNegative(p: seq<real>, log2: real -> real)
    requires forall i :: 0 <= i < |p| ==> 0.0 <= p[i] <= 1.0
    requires forall x :: 0.0 < x <= 1.0 ==> log2(x) <= 0.0
    ensures 0.0 <= ShannonEntropy(p, log2)
  {
    if p != [] {
      var q := p[|p| - 1];
      ShannonEntropyNonNegative(p[..|p| - 1], log2);
      if q != 0.0 {
        assert log2(q) <= 0.0;
        assert q * log2(q) <= 0.0;
      }
    }
  }
}
