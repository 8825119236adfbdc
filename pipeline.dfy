/** The generator and the estimator composed: distribution → CDF → byte stream → estimate. */
module Pipeline {
  import opened Wrappers
  import opened Alphabet
  import opened Vectors
  import opened CumulativeDistribution
  import opened InverseCdf
  import opened ExtendedSource
  import opened ByteSource
  import opened CalcInfo

  lemma {:induction false} CountOfRepeated(n: nat, c: byte, b: byte)
    ensures Count(Constant(n, c), b) == if b == c then n else 0
  {
    if n > 0 {
      assert Constant(n, c)[..n - 1] == Constant(n - 1, c);
      CountOfRepeated(n - 1, c, b);
    }
  }

  /** A stream made of a single repeated byte is estimated as the point mass on that byte. */
  lemma ProbabilityOfRepeated(n: nat, c: byte)
    requires n > 0
    ensures Probability(Constant(n, c)) == Some(PointMass(AlphabetSize, c as nat))
  {
    var p, q := Probability(Constant(n, c)).value, PointMass(AlphabetSize, c as nat);
    forall i | 0 <= i < AlphabetSize ensures p[i] == q[i] {
      ProbabilityIsFrequency(Constant(n, c), i as byte);
      CountOfRepeated(n, c, i as byte);
    }
    assert p == q;
  }

  /** A source with all mass on symbol 0 emits only zeros; their estimate is that same
      distribution again, and its entropy is 0. */
  lemma DegenerateRoundTrip(draws: seq<real>, buffer: seq<real>, log2: real -> real)
    requires |draws| > 0 && forall j :: 0 <= j < |draws| ==> draws[j] <= 1.0
    requires |buffer| == AlphabetSize && log2(1.0) == 0.0
    ensures Emitted(Cdf(PointMass(AlphabetSize, 0)), draws) == Constant(|draws|, 0 as byte)
    ensures Probability(Emitted(Cdf(PointMass(AlphabetSize, 0)), draws)) == Some(PointMass(AlphabetSize, 0))
    ensures Entropy(PointMass(AlphabetSize, 0), buffer, log2) == 0.0
  {
    DegenerateSourceEmitsZero(draws);
    ProbabilityOfRepeated(|draws|, 0);
    EntropyOfPointMass(AlphabetSize, 0, buffer, log2);
  }

  /** Sampling the extended source of a bit that is never 1 yields only the byte 0, and
      the estimated entropy of the stream is 0. */
  lemma NeverOneSourceRoundTrip(draws: seq<real>, buffer: seq<real>, log2: real -> real)
    requires |draws| > 0 && forall j :: 0 <= j < |draws| ==> draws[j] <= 1.0
    requires |buffer| == AlphabetSize && log2(1.0) == 0.0
    ensures Probability(Emitted(Cdf(ExtendedSourceProb(0.0)), draws)) == Some(PointMass(AlphabetSize, 0))
    ensures Entropy(Probability(Emitted(Cdf(ExtendedSourceProb(0.0)), draws)).value, buffer, log2) == 0.0
  {
    NeverOneIsPointMassAtZero();
    DegenerateRoundTrip(draws, buffer, log2);
  }

  /** The extended source of any bit sums to 1, so draws up to 1 never reach the `uint8`
      wrap-around: the generator as written and the clamped one emit the same stream. */
  lemma ExtendedSourceSamplingAgreesWithClamped(p: real, draws: seq<real>)
    requires forall j :: 0 <= j < |draws| ==> draws[j] <= 1.0
    ensures forall j :: 0 <= j < |draws| ==>
      Emitted(Cdf(ExtendedSourceProb(p)), draws)[j] == ClampedSymbol(Cdf(ExtendedSourceProb(p)), draws[j])
  {
    var prob := ExtendedSourceProb(p);
    ExtendedSourceSumsToOne(p);
    CdfLast(prob);
    forall j | 0 <= j < |draws|
      ensures Emitted(Cdf(prob), draws)[j] == ClampedSymbol(Cdf(prob), draws[j])
    {
      ClampedAgreesInRange(Cdf(prob), draws[j]);
    }
  }
}
