/** Inverse-transform sampling: `np.searchsorted(F, f)` with its default left side. */
module InverseCdf {
  import opened Vectors

  /** The left insertion point of `f` in `F`: the smallest `i` with `f <= F[i]`, or `|F|`
      when there is none. Stated by a linear scan, which needs no order on `F`. */
  function InsertionPoint(F: seq<real>, f: real): (i: nat)
    ensures i <= |F|
    ensures forall k :: 0 <= k < i ==> F[k] < f
    ensures i < |F| ==> f <= F[i]
    decreases |F|
  {
    if F == [] || f <= F[0] then 0 else 1 + InsertionPoint(F[1..], f)
  }

  /** The two clauses of `InsertionPoint`'s contract determine it. */
  lemma InsertionPointUnique(F: seq<real>, f: real, i: nat)
    requires i <= |F|
    requires forall k :: 0 <= k < i ==> F[k] < f
    requires i < |F| ==> f <= F[i]
    ensures i == InsertionPoint(F, f)
  {
  }

  /** Binary search for the left insertion point, as `searchsorted` does it. */
  method SearchSortedLeft(F: seq<real>, f: real) returns (i: nat)
    requires Sorted(F)
    ensures i == InsertionPoint(F, f)
  {
    var lo, hi := 0, |F|;
    while lo < hi
      invariant 0 <= lo <= hi <= |F|
      invariant forall k :: 0 <= k < lo ==> F[k] < f
      invariant forall k :: hi <= k < |F| ==> f <= F[k]
      decreases hi - lo
    {
      var mid := (lo + hi) / 2;
      if F[mid] < f {
        lo := mid + 1;
      } else {
        hi := mid;
      }
    }
    i := lo;
    InsertionPointUnique(F, f, i);
  }

  /** `np.searchsorted(F, draws)`: one left insertion point per draw, in order. A draw above
      the last CDF entry yields `|F|`, and a larger draw never yields a smaller index. */
  method SearchSorted(F: seq<real>, draws: seq<real>) returns (x: seq<nat>)
    requires Sorted(F)
    ensures |x| == |draws|
    ensures forall j :: 0 <= j < |draws| ==> x[j] == InsertionPoint(F, draws[j])
    ensures forall j :: 0 <= j < |draws| ==> x[j] <= |F|
    ensures forall j :: 0 <= j < |draws| && |F| > 0 && F[|F| - 1] < draws[j] ==> x[j] == |F|
    ensures forall j, k :: 0 <= j < |draws| && 0 <= k < |draws| && draws[j] <= draws[k] ==> x[j] <= x[k]
  {
    x := [];
    for j := 0 to |draws|
      invariant |x| == j
      invariant forall k :: 0 <= k < j ==> x[k] == InsertionPoint(F, draws[k])
    {
      var i := SearchSortedLeft(F, draws[j]);
      x := x + [i];
    }
    forall j | 0 <= j < |draws| && |F| > 0 && F[|F| - 1] < draws[j] ensures x[j] == |F| {
      InsertionPointPastEnd(F, draws[j]);
    }
    forall j, k | 0 <= j < |draws| && 0 <= k < |draws| && draws[j] <= draws[k] ensures x[j] <= x[k] {
      InsertionPointMonotone(F, draws[j], draws[k]);
    }
  }

  /** A larger draw never lands on an earlier symbol. */
  lemma {:induction false} InsertionPointMonotone(F: seq<real>, f1: real, f2: real)
    requires f1 <= f2
    ensures InsertionPoint(F, f1) <= InsertionPoint(F, f2)
  {
    var i2 := InsertionPoint(F, f2);
    if i2 < |F| {
      assert f1 <= F[i2];
    }
  }

  /** In a sorted CDF, a draw above the last entry lands past the end. */
  lemma InsertionPointPastEnd(F: seq<real>, f: real)
    requires Sorted(F) && |F| > 0 && F[|F| - 1] < f
    ensures InsertionPoint(F, f) == |F|
  {
  }

  /** A draw at or below the last entry lands on a real symbol. */
  lemma InsertionPointInRange(F: seq<real>, f: real)
    requires |F| > 0 && f <= F[|F| - 1]
    ensures InsertionPoint(F, f) < |F|
  {
  }

  /** A symbol whose interval is empty (`F[i] == F[i-1]`) is never chosen, whatever the draw. */
  lemma ZeroWidthNeverChosen(F: seq<real>, i: nat, f: real)
    requires 0 < i < |F| && F[i] == F[i - 1]
    ensures InsertionPoint(F, f) != i
  {
  }

  /** The worked boundary case: with CDF [0.3, 0.3, 1.0] a draw of exactly 0.3 belongs to
      symbol 0 (intervals are closed on the right), a draw above it skips symbol 1. */
  lemma BoundaryExample()
    ensures InsertionPoint([0.3, 0.3, 1.0], 0.3) == 0
    ensures InsertionPoint([0.3, 0.3, 1.0], 0.30001) == 2
  {
  }
}
