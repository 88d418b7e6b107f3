/** Descriptive statistics over the present values of a numeric column, as pandas
    computes them with its defaults: means and variances skip missing values, the
    variance divides by n - 1, and quantiles interpolate linearly. */
module Stats {
  import opened Wrappers

  /** The present (non-missing) values of a column, in row order. */
  function Present(xs: seq<Option<real>>): (r: seq<real>)
    ensures |r| <= |xs|
  {
    if |xs| == 0 then []
    else
      var n := |xs| - 1;
      Present(xs[..n]) + (if xs[n].Some? then [xs[n].value] else [])
  }

  lemma PresentSnoc(xs: seq<Option<real>>, x: Option<real>)
    ensures Present(xs + [x]) == Present(xs) + (if x.Some? then [x.value] else [])
  {
    assert (xs + [x])[..|xs|] == xs;
  }

  /** The present values are exactly the values of the non-missing cells. */
  lemma {:induction false} PresentMembers(xs: seq<Option<real>>)
    ensures forall x :: x in Present(xs) <==> Some(x) in xs
  {
    if |xs| > 0 {
      var n := |xs| - 1;
      PresentMembers(xs[..n]);
      assert xs == xs[..n] + [xs[n]];
    }
  }

  /** A column without a missing cell presents all its values, in order. */
  lemma {:induction false} PresentOfComplete(xs: seq<Option<real>>)
    requires forall i :: 0 <= i < |xs| ==> xs[i].Some?
    ensures |Present(xs)| == |xs| && forall i :: 0 <= i < |xs| ==> Present(xs)[i] == xs[i].value
  {
    if |xs| > 0 {
      PresentOfComplete(xs[..|xs| - 1]);
    }
  }

  /** A column has present values exactly when one of its cells is present. */
  lemma PresentNonEmpty(xs: seq<Option<real>>)
    ensures |Present(xs)| > 0 <==> exists i :: 0 <= i < |xs| && xs[i].Some?
  {
    PresentMembers(xs);
    if i :| 0 <= i < |xs| && xs[i].Some? {
      var x := xs[i].value;
      assert Some(x) in xs by { assert xs[i] == Some(x); }
      assert x in Present(xs);
    }
    if |Present(xs)| > 0 {
      assert Present(xs)[0] in Present(xs);
    }
  }

  function Sum(s: seq<real>): real
  {
    if |s| == 0 then 0.0 else Sum(s[..|s| - 1]) + s[|s| - 1]
  }

  /** The arithmetic mean of a non-empty sequence. */
  function Mean(s: seq<real>): real
    requires |s| > 0
  {
    Sum(s) / |s| as real
  }

  /** Series.mean(): the mean of the present values, NaN (None) when there are none. */
  function ColumnMean(xs: seq<Option<real>>): (m: Option<real>)
    ensures m.None? <==> |Present(xs)| == 0
  {
    var p := Present(xs);
    if |p| == 0 then None else Some(Mean(p))
  }

  lemma {:induction false} SumOfConstant(s: seq<real>, k: real)
    requires forall i :: 0 <= i < |s| ==> s[i] == k
    ensures Sum(s) == |s| as real * k
  {
    if |s| > 0 {
      SumOfConstant(s[..|s| - 1], k);
    }
  }

  /** The mean of a sequence whose values are all k is k. */
  lemma MeanOfConstant(s: seq<real>, k: real)
    requires |s| > 0
    requires forall i :: 0 <= i < |s| ==> s[i] == k
    ensures Mean(s) == k
  {
    SumOfConstant(s, k);
  }

  /** A column whose present values all equal v, and has one, has mean v. */
  lemma ColumnMeanOfUniform(xs: seq<Option<real>>, v: real)
    requires |Present(xs)| > 0
    requires forall i :: 0 <= i < |xs| && xs[i].Some? ==> xs[i].value == v
    ensures ColumnMean(xs) == Some(v)
  {
    var p := Present(xs);
    PresentMembers(xs);
    forall q | 0 <= q < |p| ensures p[q] == v {
      var x := p[q];
      assert x in Present(xs);
      assert Some(x) in xs;
      var i :| 0 <= i < |xs| && xs[i] == Some(x);
    }
    MeanOfConstant(p, v);
  }

  predicate Sorted(s: seq<real>)
  {
    forall i, j :: 0 <= i < j < |s| ==> s[i] <= s[j]
  }

  function Insert(x: real, s: seq<real>): (r: seq<real>)
    requires Sorted(s)
    ensures |r| == |s| + 1
    ensures multiset(r) == multiset(s) + multiset{x}
    ensures Sorted(r)
  {
    if |s| == 0 then [x]
    else if x <= s[0] then [x] + s
    else
      var t := Insert(x, s[1..]);
      InsertAfterHead(x, s, t);
      [s[0]] + t
  }

  /** Putting the head of s in front of the insertion into its tail keeps the order. */
  lemma InsertAfterHead(x: real, s: seq<real>, t: seq<real>)
    requires Sorted(s) && |s| > 0 && s[0] < x
    requires Sorted(t) && multiset(t) == multiset(s[1..]) + multiset{x}
    ensures multiset([s[0]] + t) == multiset(s) + multiset{x}
    ensures Sorted([s[0]] + t)
  {
    assert s == [s[0]] + s[1..];
    forall y | y in t
      ensures s[0] <= y
    {
      assert y in multiset(t);
    }
    var r := [s[0]] + t;
    forall i, j | 0 <= i < j < |r|
      ensures r[i] <= r[j]
    {
      if i > 0 {
        assert r[i] == t[i - 1] && r[j] == t[j - 1];
      } else {
        assert r[j] == t[j - 1] && r[j] in t;
      }
    }
  }

  /** The values of s in ascending order. */
  function Sort(s: seq<real>): (r: seq<real>)
    ensures |r| == |s|
    ensures multiset(r) == multiset(s)
    ensures Sorted(r)
  {
    if |s| == 0 then []
    else
      assert s == [s[0]] + s[1..];
      Insert(s[0], Sort(s[1..]))
  }

  /** Sorting values already in ascending order changes nothing. */
  lemma {:induction false} SortOfSorted(s: seq<real>)
    requires Sorted(s)
    ensures Sort(s) == s
  {
    if |s| > 0 {
      SortOfSorted(s[1..]);
      assert s == [s[0]] + s[1..];
    }
  }

  lemma MulMonotone(a: real, b: real, d: real)
    requires a <= b && 0.0 <= d
    ensures a * d <= b * d
  {
    assert b * d - a * d == (b - a) * d;
  }

  lemma MulStrict(a: real, b: real, d: real)
    requires a < b && 0.0 < d
    ensures a * d < b * d
  {
    assert b * d - a * d == (b - a) * d;
  }

  lemma SquareNonNegative(x: real)
    ensures x * x >= 0.0
  {
    if x < 0.0 {
      MulMonotone(x, 0.0, -x);
    } else {
      MulMonotone(0.0, x, x);
    }
  }

  /** The fractional position (n - 1) * q of the q-th quantile among n sorted values. */
  function Position(n: nat, q: real): (h: real)
    requires n > 0 && 0.0 <= q <= 1.0
    ensures 0.0 <= h <= (n - 1) as real
  {
    FractionOf(q, (n - 1) as real);
    q * (n - 1) as real
  }

  /** A fraction of a non-negative quantity lies between zero and the quantity. */
  lemma FractionOf(f: real, d: real)
    requires 0.0 <= f <= 1.0 && 0.0 <= d
    ensures 0.0 <= f * d <= d
  {
    MulMonotone(0.0, f, d);
    MulMonotone(f, 1.0, d);
    assert 0.0 * d == 0.0 && 1.0 * d == d;
  }

  lemma PositionMonotone(n: nat, q1: real, q2: real)
    requires n > 0 && 0.0 <= q1 <= q2 <= 1.0
    ensures Position(n, q1) <= Position(n, q2)
  {
    MulMonotone(q1, q2, (n - 1) as real);
  }

  lemma FloorMonotone(a: real, b: real)
    requires a <= b
    ensures a.Floor <= b.Floor
  {
    assert a.Floor as real <= a && b < b.Floor as real + 1.0;
    assert (a.Floor as real) < (b.Floor + 1) as real;
  }

  /** numpy's 'linear' interpolation at the fractional position h: between the
      neighbours at floor(h) and floor(h) + 1, at the fraction h - floor(h). */
  function Interpolate(v: seq<real>, h: real): real
    requires |v| > 0 && 0.0 <= h <= (|v| - 1) as real
  {
    var i := h.Floor;
    var frac := h - i as real;
    if i + 1 < |v| then v[i] + frac * (v[i + 1] - v[i]) else v[i]
  }

  /** The q-th quantile of sorted values with numpy's 'linear' method. */
  function Quantile(v: seq<real>, q: real): real
    requires |v| > 0 && 0.0 <= q <= 1.0
  {
    Interpolate(v, Position(|v|, q))
  }

  /** An interpolated value lies between the two sorted values it interpolates. */
  lemma InterpolateBetween(v: seq<real>, h: real)
    requires |v| > 0 && 0.0 <= h <= (|v| - 1) as real && Sorted(v)
    ensures var i := h.Floor;
      v[i] <= Interpolate(v, h) && (i + 1 < |v| ==> Interpolate(v, h) <= v[i + 1])
  {
    var i := h.Floor;
    var frac := h - i as real;
    assert 0.0 <= frac < 1.0;
    if i + 1 < |v| {
      var d := v[i + 1] - v[i];
      assert d >= 0.0;
      FractionOf(frac, d);
      assert Interpolate(v, h) == v[i] + frac * d;
    }
  }

  /** Interpolation grows with the position. */
  lemma InterpolateMonotone(v: seq<real>, h1: real, h2: real)
    requires |v| > 0 && 0.0 <= h1 <= h2 <= (|v| - 1) as real && Sorted(v)
    ensures Interpolate(v, h1) <= Interpolate(v, h2)
  {
    FloorMonotone(h1, h2);
    var i1, i2 := h1.Floor, h2.Floor;
    if i1 == i2 {
      if i1 + 1 < |v| {
        LerpMonotone(v[i1], v[i1 + 1], h1 - i1 as real, h2 - i1 as real);
      } else {
        assert Interpolate(v, h1) == v[i1] == Interpolate(v, h2);
      }
    } else {
      InterpolateBetween(v, h1);
      InterpolateBetween(v, h2);
      assert v[i1 + 1] <= v[i2];
    }
  }

  /** Linear interpolation between lo <= hi grows with the fraction. */
  lemma LerpMonotone(lo: real, hi: real, f1: real, f2: real)
    requires lo <= hi && f1 <= f2
    ensures lo + f1 * (hi - lo) <= lo + f2 * (hi - lo)
  {
    MulMonotone(f1, f2, hi - lo);
  }

  /** Quantiles grow with q. */
  lemma QuantileMonotone(v: seq<real>, q1: real, q2: real)
    requires |v| > 0 && 0.0 <= q1 <= q2 <= 1.0 && Sorted(v)
    ensures Quantile(v, q1) <= Quantile(v, q2)
  {
    PositionMonotone(|v|, q1, q2);
    InterpolateMonotone(v, Position(|v|, q1), Position(|v|, q2));
  }

  /** Every quantile lies between the smallest and the largest value. */
  lemma QuantileInRange(v: seq<real>, q: real)
    requires |v| > 0 && 0.0 <= q <= 1.0 && Sorted(v)
    ensures v[0] <= Quantile(v, q) <= v[|v| - 1]
  {
    InterpolateBetween(v, Position(|v|, q));
  }

  /** The multiplier of the interquartile range in the outlier fences. */
  const IqrFactor: real := 1.5

  /** The quartiles of a column and the fences Q1 - 1.5 IQR and Q3 + 1.5 IQR. */
  datatype Bounds = Bounds(q1: real, q3: real, lower: real, upper: real)

  /** The outlier fences of a column; NaN (None) when the column has no present value. */
  function IqrBounds(xs: seq<Option<real>>): (b: Option<Bounds>)
    ensures b.None? <==> |Present(xs)| == 0
    ensures b.Some? ==> b.value.lower <= b.value.q1 <= b.value.q3 <= b.value.upper
    ensures b.Some? ==> b.value.upper - b.value.lower == 4.0 * (b.value.q3 - b.value.q1)
  {
    var v := Sort(Present(xs));
    if |v| == 0 then None
    else
      var q1 := Quantile(v, 0.25);
      var q3 := Quantile(v, 0.75);
      QuantileMonotone(v, 0.25, 0.75);
      Some(Bounds(q1, q3, q1 - IqrFactor * (q3 - q1), q3 + IqrFactor * (q3 - q1)))
  }

  /** The quartiles lie between the smallest and the largest present value. */
  lemma QuartilesInRange(xs: seq<Option<real>>, lo: real, hi: real)
    requires IqrBounds(xs).Some?
    requires forall x :: x in Present(xs) ==> lo <= x <= hi
    ensures lo <= IqrBounds(xs).value.q1 && IqrBounds(xs).value.q3 <= hi
  {
    var p := Present(xs);
    var v := Sort(p);
    QuantileInRange(v, 0.25);
    QuantileInRange(v, 0.75);
    assert v[0] in multiset(v);
    assert v[0] in multiset(p);
    assert v[0] in p;
    assert v[|v| - 1] in multiset(v);
    assert v[|v| - 1] in multiset(p);
    assert v[|v| - 1] in p;
  }

  function SumSquaredDeviations(s: seq<real>, m: real): (r: real)
    ensures r >= 0.0
  {
    if |s| == 0 then 0.0
    else
      SquareNonNegative(s[|s| - 1] - m);
      SumSquaredDeviations(s[..|s| - 1], m) + (s[|s| - 1] - m) * (s[|s| - 1] - m)
  }

  function SumDeviations(s: seq<real>, m: real): real
  {
    if |s| == 0 then 0.0 else SumDeviations(s[..|s| - 1], m) + (s[|s| - 1] - m)
  }

  lemma SumDeviationsSnoc(s: seq<real>, x: real, m: real)
    ensures SumDeviations(s + [x], m) == SumDeviations(s, m) + (x - m)
  {
    assert (s + [x])[..|s|] == s;
  }

  lemma {:induction false} SumDeviationsIs(s: seq<real>, m: real)
    ensures SumDeviations(s, m) == Sum(s) - |s| as real * m
  {
    if |s| > 0 {
      SumDeviationsIs(s[..|s| - 1], m);
    }
  }

  /** Deviations from the mean cancel out. */
  lemma DeviationsFromMeanCancel(s: seq<real>)
    requires |s| > 0
    ensures SumDeviations(s, Mean(s)) == 0.0
  {
    SumDeviationsIs(s, Mean(s));
  }

  /** Series.std() squared: the sample variance with n - 1 degrees of freedom of the
      present values, NaN (None) below two present values. */
  function SampleVariance(xs: seq<Option<real>>): (v: Option<real>)
    ensures v.None? <==> |Present(xs)| < 2
    ensures v.Some? ==> v.value >= 0.0
  {
    var p := Present(xs);
    if |p| < 2 then None else Some(SumSquaredDeviations(p, Mean(p)) / (|p| - 1) as real)
  }

  /** A standard score (x - mean) / std, kept as its deviation x - mean and the
      variance std * std, so that no square root is needed; the variance is positive. */
  datatype ZScore = ZScore(deviation: real, variance: real)

  function Abs(x: real): real
  {
    if x < 0.0 then -x else x
  }

  /** |z| > t for the score z stands for. */
  predicate Exceeds(z: ZScore, t: real)
  {
    t < 0.0 || z.deviation * z.deviation > t * t * z.variance
  }

  /** Exceeds is the comparison |deviation / std| > t for the standard deviation std. */
  lemma ExceedsIsAbsoluteComparison(z: ZScore, t: real, std: real)
    requires std > 0.0 && std * std == z.variance
    ensures Exceeds(z, t) <==> Abs(z.deviation / std) > t
  {
    var d := z.deviation / std;
    var a := Abs(d);
    assert z.deviation == d * std;
    assert z.deviation * z.deviation == (d * d) * (std * std);
    assert a * a == d * d;
    MulStrict(0.0, std, std);
    if t >= 0.0 {
      if a > t {
        MulStrict(t, a, a);
        MulMonotone(t, a, t);
        assert t * t < d * d;
        MulStrict(t * t, d * d, std * std);
      } else {
        MulMonotone(a, t, a);
        MulMonotone(a, t, t);
        assert d * d <= t * t;
        MulMonotone(d * d, t * t, std * std);
      }
    }
  }
}
