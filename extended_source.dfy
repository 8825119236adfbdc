/** The 8-fold extension of a binary memoryless source: a byte is eight independent bits,
    each equal to 1 with probability `p`. */
module ExtendedSource {
  import opened Vectors

  /** `x ** k` for a natural exponent; `Pow(x, 0) == 1` for every `x`, including 0. */
  function Pow(x: real, k: nat): real
  {
    if k == 0 then 1.0 else x * Pow(x, k - 1)
  }

  /** `bin(n).count('1')`: the number of one bits of `n`. */
  function Popcount(n: nat): nat
  {
    if n == 0 then 0 else n % 2 + Popcount(n / 2)
  }

  function Pow2(n: nat): (r: nat)
    ensures r >= 1
  {
    if n == 0 then 1 else 2 * Pow2(n - 1)
  }

  /** An `n`-bit pattern has at most `n` one bits. */
  lemma {:induction false} PopcountBound(n: nat, i: nat)
    requires i < Pow2(n)
    ensures Popcount(i) <= n
  {
    if n > 0 && i > 0 {
      PopcountBound(n - 1, i / 2);
    }
  }

  /** Setting bit `n` above an `n`-bit pattern adds one to its popcount. */
  lemma {:induction false} PopcountHighBit(n: nat, k: nat)
    requires k < Pow2(n)
    ensures Popcount(Pow2(n) + k) == Popcount(k) + 1
  {
    if n > 0 {
      PopcountHighBit(n - 1, k / 2);
      PopcountHighStep(Pow2(n - 1), k);
    }
  }

  /** One induction step of `PopcountHighBit`, with the high bit's half `g` abstract. */
  lemma PopcountHighStep(g: nat, k: nat)
    requires Popcount(g + k / 2) == Popcount(k / 2) + 1
    ensures Popcount(2 * g + k) == Popcount(k) + 1
  {
    var m := 2 * g + k;
    assert m % 2 == k % 2 && m / 2 == g + k / 2;
  }

  /** Only the all-zero pattern has no one bits. */
  lemma {:induction false} PopcountZero(i: nat)
    ensures Popcount(i) == 0 <==> i == 0
  {
    if i > 0 && i % 2 == 0 {
      PopcountZero(i / 2);
    }
  }

  /** Among `n`-bit patterns only the all-ones pattern has `n` one bits. */
  lemma {:induction false} PopcountFull(n: nat, i: nat)
    requires i < Pow2(n)
    ensures Popcount(i) == n <==> i == Pow2(n) - 1
  {
    if n > 0 {
      PopcountBound(n - 1, i / 2);
      PopcountFull(n - 1, i / 2);
    }
  }

  /** The weight of the `n`-bit pattern `i` when a one bit weighs `x` and a zero bit `y`;
      with `x == p` and `y == 1 - p` it is the probability of the pattern. */
  function PatternProb(x: real, y: real, n: nat, i: nat): real
    requires i < Pow2(n)
  {
    PopcountBound(n, i);
    Pow(x, Popcount(i)) * Pow(y, n - Popcount(i))
  }

  /** The probability vector written by `generate_bDMS_extended_source_prob_file`: entry `i` is
      `p ** popcount(i) * (1 - p) ** (8 - popcount(i))`. */
  function ExtendedSourceProb(p: real): (prob: seq<real>)
    ensures |prob| == 256
  {
    assert Pow2(8) == 256;
    seq(256, i requires 0 <= i < 256 => PatternProb(p, 1.0 - p, 8, i))
  }

  /** Independent reference: the weights of `n` independent bits, built one bit at a time;
      the new top bit is 0 (weight `y`, first half) or 1 (weight `x`, second half). */
  function Product(x: real, y: real, n: nat): (r: seq<real>)
    ensures |r| == Pow2(n)
  {
    if n == 0 then [1.0]
    else Scale(y, Product(x, y, n - 1)) + Scale(x, Product(x, y, n - 1))
  }

  /** The two halves of `Product(x, y, n)`: top bit 0, then top bit 1. */
  lemma ProductHalves(x: real, y: real, n: nat, k: nat)
    requires 0 < n && k < Pow2(n - 1)
    ensures Pow2(n) == 2 * Pow2(n - 1)
    ensures Product(x, y, n)[k] == y * Product(x, y, n - 1)[k]
    ensures Product(x, y, n)[Pow2(n - 1) + k] == x * Product(x, y, n - 1)[k]
  {
    ProductUnfold(x, y, n);
    ScaledHalves(x, y, Product(x, y, n - 1), Product(x, y, n), Pow2(n - 1), k);
  }

  lemma ProductUnfold(x: real, y: real, n: nat)
    requires 0 < n
    ensures Product(x, y, n) == Scale(y, Product(x, y, n - 1)) + Scale(x, Product(x, y, n - 1))
  {
  }

  lemma ScaledHalves(x: real, y: real, s: seq<real>, r: seq<real>, h: nat, k: nat)
    requires r == Scale(y, s) + Scale(x, s) && h == |s| && k < h
    ensures r[k] == y * s[k] && r[h + k] == x * s[k]
  {
  }

  lemma PowStep(x: real, k: nat)
    requires 0 < k
    ensures Pow(x, k) == x * Pow(x, k - 1)
  {
  }

  lemma Rearrange(x: real, a: real, b: real)
    ensures a * (x * b) == x * (a * b)
  {
  }

  /** A pattern below the top bit: one more bit, equal to 0, multiplies by `y`. */
  lemma PatternProbLow(x: real, y: real, n: nat, i: nat)
    requires 0 < n && i < Pow2(n - 1)
    ensures i < Pow2(n)
    ensures PatternProb(x, y, n, i) == y * PatternProb(x, y, n - 1, i)
  {
    PopcountBound(n - 1, i);
    var c := Popcount(i);
    PowStep(y, n - c);
    Rearrange(y, Pow(x, c), Pow(y, n - 1 - c));
  }

  /** A pattern with the top bit set: that bit, equal to 1, multiplies by `x`. */
  lemma PatternProbHigh(x: real, y: real, n: nat, k: nat)
    requires 0 < n && k < Pow2(n - 1)
    ensures Pow2(n - 1) + k < Pow2(n)
    ensures PatternProb(x, y, n, Pow2(n - 1) + k) == x * PatternProb(x, y, n - 1, k)
  {
    PopcountBound(n - 1, k);
    PopcountHighBit(n - 1, k);
    var c := Popcount(k);
    PowStep(x, c + 1);
  }

  /** One induction step of `ProductAt`, for a pattern whose top bit is 0. */
  lemma ProductAtLow(x: real, y: real, n: nat, i: nat)
    requires 0 < n && i < Pow2(n - 1)
    requires Product(x, y, n - 1)[i] == PatternProb(x, y, n - 1, i)
    ensures i < Pow2(n) && Product(x, y, n)[i] == PatternProb(x, y, n, i)
  {
    ProductHalves(x, y, n, i);
    PatternProbLow(x, y, n, i);
  }

  /** One induction step of `ProductAt`, for a pattern whose top bit is 1. */
  lemma ProductAtHigh(x: real, y: real, n: nat, k: nat)
    requires 0 < n && k < Pow2(n - 1)
    requires Product(x, y, n - 1)[k] == PatternProb(x, y, n - 1, k)
    ensures Pow2(n - 1) + k < Pow2(n)
    ensures Product(x, y, n)[Pow2(n - 1) + k] == PatternProb(x, y, n, Pow2(n - 1) + k)
  {
    ProductHalves(x, y, n, k);
    PatternProbHigh(x, y, n, k);
  }

  /** The popcount formula and the bit-by-bit product agree entry by entry. */
  lemma {:induction false} ProductAt(x: real, y: real, n: nat, i: nat)
    requires i < Pow2(n)
    ensures Product(x, y, n)[i] == PatternProb(x, y, n, i)
  {
    if n > 0 {
      var h := Pow2(n - 1);
      ProductHalves(x, y, n, 0);
      if i < h {
        ProductAt(x, y, n - 1, i);
        ProductAtLow(x, y, n, i);
      } else {
        var k: nat := i - h;
        ProductAt(x, y, n - 1, k);
        ProductAtHigh(x, y, n, k);
      }
    }
  }

  /** Splitting a sequence's sum over the two scaled halves of `Product`. */
  lemma SumOfHalves(x: real, y: real, s: seq<real>, t: real)
    requires Sum(s) == t
    ensures Sum(Scale(y, s) + Scale(x, s)) == (x + y) * t
  {
    SumAppend(Scale(y, s), Scale(x, s));
    SumScale(y, s);
    SumScale(x, s);
  }

  /** One induction step of `ProductSum`, on an abstract previous level `s`. */
  lemma StepCombine(x: real, y: real, n: nat, s: seq<real>, r: seq<real>)
    requires 0 < n && Sum(s) == Pow(x + y, n - 1)
    requires r == Scale(y, s) + Scale(x, s)
    ensures Sum(r) == Pow(x + y, n)
  {
    SumOfHalves(x, y, s, Pow(x + y, n - 1));
    PowStep(x + y, n);
  }

  /** One induction step of `ProductSum`. */
  lemma ProductSumStep(x: real, y: real, n: nat)
    requires 0 < n && Sum(Product(x, y, n - 1)) == Pow(x + y, n - 1)
    ensures Sum(Product(x, y, n)) == Pow(x + y, n)
  {
    StepCombine(x, y, n, Product(x, y, n - 1), Product(x, y, n));
  }

  /** `n` independent bits: the weights sum to `(x + y) ** n`. */
  lemma {:induction false} ProductSum(x: real, y: real, n: nat)
    ensures Sum(Product(x, y, n)) == Pow(x + y, n)
  {
    if n == 0 {
      assert Product(x, y, 0)[..0] == [];
    } else {
      ProductSum(x, y, n - 1);
      ProductSumStep(x, y, n);
    }
  }

  /** The extended source is the distribution of eight independent bits. */
  lemma ExtendedSourceIsProduct(p: real)
    ensures ExtendedSourceProb(p) == Product(p, 1.0 - p, 8)
  {
    assert Pow2(8) == 256;
    forall i | 0 <= i < 256 ensures ExtendedSourceProb(p)[i] == Product(p, 1.0 - p, 8)[i] {
      ProductAt(p, 1.0 - p, 8, i);
    }
  }

  /** The extended source sums to exactly 1, for every `p`: no renormalisation is needed. */
  lemma ExtendedSourceSumsToOne(p: real)
    ensures Sum(ExtendedSourceProb(p)) == 1.0
  {
    ExtendedSourceIsProduct(p);
    ProductSum(p, 1.0 - p, 8);
    PowOne(8);
  }

  lemma {:induction false} PowOne(k: nat)
    ensures Pow(1.0, k) == 1.0
  {
    if k > 0 {
      PowOne(k - 1);
    }
  }

  lemma {:induction false} PowAdd(x: real, a: nat, b: nat)
    ensures Pow(x, a) * Pow(x, b) == Pow(x, a + b)
  {
    if a > 0 {
      PowAdd(x, a - 1, b);
      assert Pow(x, a) * Pow(x, b) == x * (Pow(x, a - 1) * Pow(x, b));
    }
  }

  lemma {:induction false} PowUnit(x: real, k: nat)
    requires 0.0 <= x <= 1.0
    ensures 0.0 <= Pow(x, k) <= 1.0
  {
    if k > 0 {
      PowUnit(x, k - 1);
      ProductOfUnits(x, Pow(x, k - 1));
    }
  }

  /** For `p` in [0, 1] every entry is itself a probability. */
  lemma ExtendedSourceEntriesAreProbabilities(p: real)
    requires 0.0 <= p <= 1.0
    ensures forall i :: 0 <= i < 256 ==> 0.0 <= ExtendedSourceProb(p)[i] <= 1.0
  {
    assert Pow2(8) == 256;
    forall i | 0 <= i < 256 ensures 0.0 <= ExtendedSourceProb(p)[i] <= 1.0 {
      PatternProbIsProbability(p, 1.0 - p, 8, i);
    }
  }

  /** With both bit weights in [0, 1], so is the weight of every pattern. */
  lemma PatternProbIsProbability(x: real, y: real, n: nat, i: nat)
    requires 0.0 <= x <= 1.0 && 0.0 <= y <= 1.0 && i < Pow2(n)
    ensures 0.0 <= PatternProb(x, y, n, i) <= 1.0
  {
    PopcountBound(n, i);
    var c := Popcount(i);
    PowUnit(x, c);
    PowUnit(y, n - c);
    UnitProduct(PatternProb(x, y, n, i), Pow(x, c), Pow(y, n - c));
  }

  lemma UnitProduct(v: real, a: real, b: real)
    requires v == a * b && 0.0 <= a <= 1.0 && 0.0 <= b <= 1.0
    ensures 0.0 <= v <= 1.0
  {
    ProductOfUnits(a, b);
  }

  lemma ProductOfUnits(a: real, b: real)
    requires 0.0 <= a <= 1.0 && 0.0 <= b <= 1.0
    ensures 0.0 <= a * b <= 1.0
  {
    assert 0.0 <= (1.0 - a) * b;
    assert a * b <= b;
  }

  /** A fair bit gives the uniform byte distribution: every entry is 1/256. */
  lemma FairBitIsUniform()
    ensures ExtendedSourceProb(0.5) == Constant(256, 1.0 / 256.0)
  {
    assert Pow2(8) == 256;
    assert Pow(0.5, 8) == 1.0 / 256.0;
    forall i | 0 <= i < 256 ensures ExtendedSourceProb(0.5)[i] == 1.0 / 256.0 {
      PopcountBound(8, i);
      var c := Popcount(i);
      PowAdd(0.5, c, 8 - c);
    }
  }

  /** A bit that is never 1 puts all mass on the all-zero byte (using `0 ** 0 == 1`). */
  lemma NeverOneIsPointMassAtZero()
    ensures ExtendedSourceProb(0.0) == PointMass(256, 0)
  {
    assert Pow2(8) == 256;
    forall i | 0 <= i < 256 ensures ExtendedSourceProb(0.0)[i] == PointMass(256, 0)[i] {
      PopcountBound(8, i);
      PopcountZero(i);
      PowOne(8 - Popcount(i));
    }
  }

  /** A bit that is always 1 puts all mass on the all-ones byte 255. */
  lemma AlwaysOneIsPointMassAt255()
    ensures ExtendedSourceProb(1.0) == PointMass(256, 255)
  {
    assert Pow2(8) == 256;
    forall i | 0 <= i < 256 ensures ExtendedSourceProb(1.0)[i] == PointMass(256, 255)[i] {
      PopcountBound(8, i);
      PopcountFull(8, i);
      PowOne(Popcount(i));
    }
  }
}
