/** The symbol generator: inverse-CDF sampling of bytes, `np.searchsorted` followed by a cast
    of each insertion point to `uint8`. */
module ByteSource {
  import opened Alphabet
  import opened Vectors
  import opened CumulativeDistribution
  import opened InverseCdf

  /** The byte stream the generator emits for CDF `F` and uniform draws `draws`. */
  function Emitted(F: seq<real>, draws: seq<real>): (x: seq<byte>)
    ensures |x| == |draws|
    ensures forall j :: 0 <= j < |draws| && InsertionPoint(F, draws[j]) < AlphabetSize ==>
      x[j] as int == InsertionPoint(F, draws[j])
    ensures forall j :: 0 <= j < |draws| && InsertionPoint(F, draws[j]) == AlphabetSize ==> x[j] == 0
  {
    seq(|draws|, j requires 0 <= j < |draws| => Uint8(InsertionPoint(F, draws[j])))
  }

  /** `gen_msg_arr`: binary search per draw, then the `uint8` cast. For a 256-entry CDF a
      draw at or below `F[255]` yields its insertion point unchanged; a draw above `F[255]`
      has insertion point 256, which the cast turns into symbol 0. */
  method GenMsgArr(F: seq<real>, draws: seq<real>) returns (x: seq<byte>)
    requires Sorted(F)
    ensures x == Emitted(F, draws)
    ensures |F| == AlphabetSize ==>
      forall j :: 0 <= j < |draws| && draws[j] <= F[255] ==> x[j] as int == InsertionPoint(F, draws[j])
    ensures |F| == AlphabetSize ==>
      forall j :: 0 <= j < |draws| && F[255] < draws[j] ==> x[j] == 0
  {
    var idx := SearchSorted(F, draws);
    x := seq(|idx|, j requires 0 <= j < |idx| => Uint8(idx[j]));
    if |F| == AlphabetSize {
      forall j | 0 <= j < |draws| && draws[j] <= F[255]
        ensures x[j] as int == InsertionPoint(F, draws[j])
      {
        InsertionPointInRange(F, draws[j]);
      }
    }
  }

  /** A draw of 0 yields symbol 0 for every non-negative distribution, even one with
      `p[0] == 0`: the first CDF entry is at least 0, so 0 is inserted before it. */
  lemma ZeroDrawPicksSymbolZero(p: seq<real>)
    requires |p| > 0 && NonNegative(p)
    ensures InsertionPoint(Cdf(p), 0.0) == 0
  {
    CdfStep(p, 0);
  }

  /** A symbol `i > 0` with probability 0 has an empty interval and is never emitted,
      whatever the draws. */
  lemma ZeroProbabilitySymbolNeverEmitted(p: seq<real>, draws: seq<real>, i: nat)
    requires |p| == AlphabetSize && 0 < i < AlphabetSize && p[i] == 0.0
    ensures forall j :: 0 <= j < |draws| ==> Emitted(Cdf(p), draws)[j] as int != i
  {
    var F := Cdf(p);
    CdfStep(p, i);
    forall j | 0 <= j < |draws| ensures Emitted(F, draws)[j] as int != i {
      ZeroWidthNeverChosen(F, i, draws[j]);
    }
  }

  /** With all mass on symbol 0, every draw up to 1 yields symbol 0. */
  lemma DegenerateSourceEmitsZero(draws: seq<real>)
    requires forall j :: 0 <= j < |draws| ==> draws[j] <= 1.0
    ensures Emitted(Cdf(PointMass(AlphabetSize, 0)), draws) == Constant(|draws|, 0 as byte)
  {
    var p := PointMass(AlphabetSize, 0);
    CdfStep(p, 0);
  }

  /** For a distribution that sums to 1, draws up to 1 never reach the cast's wrap-around:
      every emitted symbol is the insertion point itself. */
  lemma NormalisedSourceNeverWraps(p: seq<real>, draws: seq<real>)
    requires |p| == AlphabetSize && Sum(p) == 1.0
    requires forall j :: 0 <= j < |draws| ==> draws[j] <= 1.0
    ensures forall j :: 0 <= j < |draws| ==>
      InsertionPoint(Cdf(p), draws[j]) < AlphabetSize &&
      Emitted(Cdf(p), draws)[j] as int == InsertionPoint(Cdf(p), draws[j])
  {
    CdfLast(p);
    forall j | 0 <= j < |draws| ensures InsertionPoint(Cdf(p), draws[j]) < AlphabetSize {
      InsertionPointInRange(Cdf(p), draws[j]);
    }
  }

  /** A distribution whose total falls short of 1, as one read back from rounded decimal
      text can: all mass on symbol 255, total 0.9999. */
  function ShortSource(): (p: seq<real>)
    ensures |p| == AlphabetSize
  {
    Scale(0.9999, PointMass(AlphabetSize, 255))
  }

  /** The CDF of `ShortSource`: 0 up to symbol 254, then 0.9999. */
  lemma ShortSourceCdf()
    ensures Sorted(Cdf(ShortSource()))
    ensures Cdf(ShortSource())[254] == 0.0 && Cdf(ShortSource())[255] == 0.9999
  {
    var p := ShortSource();
    assert NonNegative(p);
    CdfOfNonNegative(p);
    CdfLast(p);
    SumScale(0.9999, PointMass(AlphabetSize, 255));
    SumPointMass(AlphabetSize, 255);
    CdfStep(p, 255);
  }

  /** Where the two draws land in a CDF shaped like that of `ShortSource`. */
  lemma ShortCdfInsertionPoints(F: seq<real>)
    requires |F| == AlphabetSize && Sorted(F) && F[254] == 0.0 && F[255] == 0.9999
    ensures InsertionPoint(F, 0.5) == 255 && InsertionPoint(F, 0.99995) == 256
  {
    InsertionPointUnique(F, 0.5, 255);
    InsertionPointPastEnd(F, 0.99995);
  }

  /** As written, the generator is not monotone in the draw: for `ShortSource` a draw of 0.5
      yields symbol 255 but the larger draw 0.99995 lies past `F[255]` and wraps to symbol 0,
      a symbol of probability 0. */
  lemma WrapBreaksMonotonicity()
    ensures Emitted(Cdf(ShortSource()), [0.5, 0.99995]) == [255, 0]
  {
    ShortSourceCdf();
    ShortCdfInsertionPoints(Cdf(ShortSource()));
  }

  /** The corrected symbol: the insertion point, or the last symbol 255 for a draw past
      `F[255]`. */
  function ClampedSymbol(F: seq<real>, f: real): (b: byte)
    requires |F| == AlphabetSize
    ensures b as int <= InsertionPoint(F, f)
    ensures InsertionPoint(F, f) < AlphabetSize ==> b as int == InsertionPoint(F, f)
    ensures InsertionPoint(F, f) == AlphabetSize ==> b == 255
  {
    var i := InsertionPoint(F, f);
    if i < AlphabetSize then i as byte else 255
  }

  /** The corrected symbol agrees with the cast one on every draw at or below `F[255]`, and
      is 255 above it. */
  lemma ClampedAgreesInRange(F: seq<real>, f: real)
    requires |F| == AlphabetSize
    ensures f <= F[255] ==> ClampedSymbol(F, f) == Uint8(InsertionPoint(F, f))
    ensures f <= F[255] ==> ClampedSymbol(F, f) as int == InsertionPoint(F, f)
    ensures Sorted(F) && F[255] < f ==> ClampedSymbol(F, f) == 255
  {
    if f <= F[255] {
      InsertionPointInRange(F, f);
    }
    if Sorted(F) && F[255] < f {
      InsertionPointPastEnd(F, f);
    }
  }

  /** The corrected generator is monotone in the draw. */
  lemma ClampedMonotone(F: seq<real>, f1: real, f2: real)
    requires |F| == AlphabetSize && f1 <= f2
    ensures ClampedSymbol(F, f1) <= ClampedSymbol(F, f2)
  {
    InsertionPointMonotone(F, f1, f2);
  }

  /** `gen_msg_arr` with the cast replaced by clamping to the last symbol: every symbol is
      in range, and a larger draw never yields a smaller symbol. */
  method GenMsgArrClamped(F: seq<real>, draws: seq<real>) returns (x: seq<byte>)
    requires Sorted(F) && |F| == AlphabetSize
    ensures |x| == |draws|
    ensures forall j :: 0 <= j < |draws| ==> x[j] == ClampedSymbol(F, draws[j])
    ensures forall j, k :: 0 <= j < |draws| && 0 <= k < |draws| && draws[j] <= draws[k] ==> x[j] <= x[k]
  {
    var idx := SearchSorted(F, draws);
    x := seq(|idx|, j requires 0 <= j < |idx| => if idx[j] < AlphabetSize then idx[j] as byte else 255);
  }
}
