/** The reductions pandas performs, with missing values skipped, written on exact numbers. */
module Stats {
  import opened Wrappers

  function Sum(xs: seq<int>): int
    decreases |xs|
  {
    if |xs| == 0 then 0 else Sum(xs[..|xs| - 1]) + xs[|xs| - 1]
  }

  /** `Series.mean()` of a non-empty series, without rounding: the mean times the count is the sum. */
  function Mean(xs: seq<int>): (m: real)
    requires |xs| > 0
    ensures m * |xs| as real == Sum(xs) as real
  {
    Sum(xs) as real / |xs| as real
  }

  lemma {:induction false} SumBounds(xs: seq<int>, lo: int, hi: int)
    requires forall i :: 0 <= i < |xs| ==> lo <= xs[i] <= hi
    ensures lo * |xs| <= Sum(xs) <= hi * |xs|
    decreases |xs|
  {
    if |xs| > 0 {
      var n := |xs|;
      SumBounds(xs[..n - 1], lo, hi);
      assert lo * n == lo * (n - 1) + lo && hi * n == hi * (n - 1) + hi;
    }
  }

  /** A mean lies between any bounds of the values it is taken over. */
  lemma MeanBounds(xs: seq<int>, lo: int, hi: int)
    requires |xs| > 0
    requires forall i :: 0 <= i < |xs| ==> lo <= xs[i] <= hi
    ensures lo as real <= Mean(xs) <= hi as real
  {
    SumBounds(xs, lo, hi);
    var n, total := |xs| as real, Sum(xs) as real;
    IntProductAsReal(lo, |xs|);
    IntProductAsReal(hi, |xs|);
    BelowQuotient(lo as real, total, n);
    AboveQuotient(hi as real, total, n);
    assert Mean(xs) == total / n;
  }

  lemma IntProductAsReal(a: int, b: int)
    ensures (a * b) as real == a as real * b as real
  {
  }

  lemma BelowQuotient(a: real, t: real, n: real)
    requires n > 0.0 && a * n <= t
    ensures a <= t / n
  {
  }

  lemma AboveQuotient(a: real, t: real, n: real)
    requires n > 0.0 && t <= a * n
    ensures t / n <= a
  {
  }

  /** The mean of the scores 3 and 2, used by the worked examples. */
  lemma MeanThreeTwo()
    ensures Mean([3, 2]) == 2.5
  {
    assert [3, 2][..1] == [3];
    assert [3][..0] == [];
  }

  /** pandas `max` of two values with NaN skipped: missing only when both are missing. */
  function OptMax(a: Option<int>, b: Option<int>): (r: Option<int>)
    ensures r.None? <==> a.None? && b.None?
    ensures r.Some? ==> r == a || r == b
    ensures a.Some? ==> r.Some? && a.value <= r.value
    ensures b.Some? ==> r.Some? && b.value <= r.value
  {
    match (a, b)
    case (None, _) => b
    case (_, None) => a
    case (Some(x), Some(y)) => if x < y then b else a
  }

  /** `dropna()`: the present values, in order. */
  function DropNone(xs: seq<Option<int>>): (r: seq<int>)
    decreases |xs|
  {
    if |xs| == 0 then []
    else DropNone(xs[..|xs| - 1]) + (match xs[|xs| - 1] case Some(v) => [v] case None => [])
  }

  /** `dropna` keeps exactly the present values. */
  lemma {:induction false} DropNoneMembers(xs: seq<Option<int>>, v: int)
    ensures v in DropNone(xs) <==> Some(v) in xs
    decreases |xs|
  {
    if |xs| > 0 {
      DropNoneMembers(xs[..|xs| - 1], v);
      assert xs == xs[..|xs| - 1] + [xs[|xs| - 1]];
    }
  }
}
