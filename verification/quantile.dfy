/** `Series.quantile(p)` with pandas' default linear interpolation, and the
    Tukey fences `[Q1 - 1.5 IQR, Q3 + 1.5 IQR]` built from it. Values are
    exact reals; an empty column has no quantile (pandas returns NaN). */
module Quantile {
  import opened Wrappers

  /** Tukey's multiplier for the interquartile range. */
  const Whisker: real := 1.5

  predicate Sorted(s: seq<real>)
  {
    forall i, j :: 0 <= i < j < |s| ==> s[i] <= s[j]
  }

  /** `s` with `x` placed before the first element not below it. */
  function Insert(x: real, s: seq<real>): (r: seq<real>)
    ensures |r| == |s| + 1
    decreases |s|
  {
    if |s| == 0 || x <= s[0] then [x] + s
    else [s[0]] + Insert(x, s[1..])
  }

  /** Inserting into a sorted sequence keeps it sorted and adds exactly `x`. */
  lemma {:induction false} InsertSpec(x: real, s: seq<real>)
    requires Sorted(s)
    ensures Sorted(Insert(x, s))
    ensures multiset(Insert(x, s)) == multiset(s) + multiset{x}
    ensures |s| > 0 ==> Insert(x, s)[0] == x || Insert(x, s)[0] == s[0]
    decreases |s|
  {
    if |s| > 0 && x > s[0] {
      var rest := Insert(x, s[1..]);
      InsertSpec(x, s[1..]);
      assert s == [s[0]] + s[1..];
      assert s[0] <= rest[0];
    }
  }

  /** Insertion sort: the ascending copy of the column quantiles read from. */
  function Sort(s: seq<real>): (r: seq<real>)
    ensures |r| == |s|
    decreases |s|
  {
    if |s| == 0 then [] else Insert(s[0], Sort(s[1..]))
  }

  /** `Sort` returns an ascending permutation of its input. */
  lemma {:induction false} SortSpec(s: seq<real>)
    ensures Sorted(Sort(s))
    ensures multiset(Sort(s)) == multiset(s)
    decreases |s|
  {
    if |s| > 0 {
      SortSpec(s[1..]);
      InsertSpec(s[0], Sort(s[1..]));
      assert s == [s[0]] + s[1..];
    }
  }

  lemma ScaleBetween(f: real, a: real, b: real)
    requires 0.0 <= f <= 1.0 && a <= b
    ensures a <= a + f * (b - a) <= b
  {
  }

  lemma ScaleMonotone(f: real, g: real, d: real)
    requires f <= g && 0.0 <= d
    ensures f * d <= g * d
    ensures d * f <= d * g
  {
  }

  /** A fraction of a non-negative amount lies between zero and the amount. */
  lemma ScaleUnit(m: real, p: real)
    requires 0.0 <= m && 0.0 <= p <= 1.0
    ensures 0.0 <= m * p <= m
  {
    assert m * (1.0 - p) >= 0.0;
  }

  /** The fractional index `(n - 1) p` at which the `p`-quantile is read. */
  function Position(n: nat, p: real): (h: real)
    requires n > 0 && 0.0 <= p <= 1.0
    ensures 0.0 <= h <= (n - 1) as real
  {
    ScaleUnit((n - 1) as real, p);
    (n - 1) as real * p
  }

  /** The value at fractional index `h` of the sorted column `v`: the
      neighbours `v[lo]` and `v[lo + 1]` weighted by the fraction of `h`. */
  function Interpolate(v: seq<real>, h: real): real
    requires |v| > 0 && 0.0 <= h <= (|v| - 1) as real
  {
    var lo := h.Floor;
    if lo + 1 < |v| then v[lo] + (h - lo as real) * (v[lo + 1] - v[lo]) else v[lo]
  }

  /** On a sorted column the interpolated value lies between the two
      neighbours it is read from. */
  lemma InterpolateBounds(v: seq<real>, h: real)
    requires |v| > 0 && 0.0 <= h <= (|v| - 1) as real
    requires Sorted(v)
    ensures v[h.Floor] <= Interpolate(v, h)
    ensures h.Floor + 1 < |v| ==> Interpolate(v, h) <= v[h.Floor + 1]
    ensures h.Floor + 1 == |v| ==> Interpolate(v, h) == v[h.Floor]
  {
    var lo := h.Floor;
    if lo + 1 < |v| {
      ScaleBetween(h - lo as real, v[lo], v[lo + 1]);
    }
  }

  /** The `p`-quantile of a non-empty column. It lies between the column's
      smallest and largest values. */
  function Quantile(xs: seq<real>, p: real): (q: real)
    requires |xs| > 0 && 0.0 <= p <= 1.0
  {
    Interpolate(Sort(xs), Position(|xs|, p))
  }

  /** A quantile lies between the column's smallest and largest values. */
  lemma QuantileBounds(xs: seq<real>, p: real)
    requires |xs| > 0 && 0.0 <= p <= 1.0
    ensures exists i :: 0 <= i < |xs| && xs[i] <= Quantile(xs, p)
    ensures exists j :: 0 <= j < |xs| && Quantile(xs, p) <= xs[j]
  {
    var v := Sort(xs);
    SortSpec(xs);
    var h := Position(|xs|, p);
    var lo := h.Floor;
    var hi := if lo + 1 < |v| then lo + 1 else lo;
    InterpolateBounds(v, h);
    assert v[lo] in multiset(xs) && v[hi] in multiset(xs);
    assert v[lo] in xs && v[hi] in xs;
  }

  /** A larger `p` never gives a smaller quantile. */
  lemma QuantileMonotone(xs: seq<real>, p: real, p': real)
    requires |xs| > 0 && 0.0 <= p <= p' <= 1.0
    ensures Quantile(xs, p) <= Quantile(xs, p')
  {
    var h, h' := Position(|xs|, p), Position(|xs|, p');
    PositionMonotone(|xs|, p, p');
    QuantileIsInterpolation(xs, p);
    QuantileIsInterpolation(xs, p');
    SortSpec(xs);
    InterpolateMonotone(Sort(xs), h, h');
  }

  lemma PositionMonotone(n: nat, p: real, p': real)
    requires n > 0 && 0.0 <= p <= p' <= 1.0
    ensures Position(n, p) <= Position(n, p')
  {
    ScaleMonotone(p, p', (n - 1) as real);
  }

  lemma QuantileIsInterpolation(xs: seq<real>, p: real)
    requires |xs| > 0 && 0.0 <= p <= 1.0
    ensures Quantile(xs, p) == Interpolate(Sort(xs), Position(|xs|, p))
  {
  }

  lemma InterpolateMonotone(v: seq<real>, h: real, h': real)
    requires |v| > 0 && 0.0 <= h <= h' <= (|v| - 1) as real
    requires Sorted(v)
    ensures Interpolate(v, h) <= Interpolate(v, h')
  {
    var lo, lo' := h.Floor, h'.Floor;
    assert lo <= lo' by {
      assert lo as real <= h <= h' < lo' as real + 1.0;
    }
    if lo < lo' {
      InterpolateBounds(v, h);
      InterpolateBounds(v, h');
      assert Interpolate(v, h) <= v[lo + 1];
      assert v[lo + 1] <= v[lo'];
    } else {
      InterpolateSameCell(v, h, h');
    }
  }

  /** Within one cell `[lo, lo + 1)` interpolation grows with the index. */
  lemma InterpolateSameCell(v: seq<real>, h: real, h': real)
    requires |v| > 0 && 0.0 <= h <= h' <= (|v| - 1) as real
    requires Sorted(v)
    requires h.Floor == h'.Floor
    ensures Interpolate(v, h) <= Interpolate(v, h')
  {
    var lo := h.Floor;
    if lo + 1 < |v| {
      var d := v[lo + 1] - v[lo];
      var a, b := (h - lo as real) * d, (h' - lo as real) * d;
      assert a <= b by {
        ScaleMonotone(h - lo as real, h' - lo as real, d);
      }
      assert Interpolate(v, h) == v[lo] + a;
      assert Interpolate(v, h') == v[lo] + b;
    } else {
      assert lo as real <= h <= (|v| - 1) as real;
      assert Interpolate(v, h) == v[lo] == Interpolate(v, h');
    }
  }

  /** The closed interval a value must lie in to survive an outlier filter. */
  datatype Fence = Fence(lower: real, upper: real)

  predicate Within(x: real, f: Fence)
  {
    f.lower <= x <= f.upper
  }

  /** `[Q1 - 1.5 IQR, Q3 + 1.5 IQR]` of a column, `None` for an empty column
      (whose quartiles are NaN). The fence contains the whole interquartile
      range and reaches 1.5 IQR beyond it on each side. */
  function IqrFence(xs: seq<real>): (f: Option<Fence>)
    ensures f.None? <==> |xs| == 0
    ensures f.Some? ==>
      var q1, q3 := Quantile(xs, 0.25), Quantile(xs, 0.75);
      && f.value.lower <= q1 <= q3 <= f.value.upper
      && q1 - f.value.lower == f.value.upper - q3 == Whisker * (q3 - q1)
  {
    if |xs| == 0 then None
    else
      var q1 := Quantile(xs, 0.25);
      var q3 := Quantile(xs, 0.75);
      QuantileMonotone(xs, 0.25, 0.75);
      var iqr := q3 - q1;
      Some(Fence(q1 - Whisker * iqr, q3 + Whisker * iqr))
  }

  /** Every value between the two quartiles survives the fence. */
  lemma InterquartileSurvives(xs: seq<real>, x: real)
    requires |xs| > 0
    requires Quantile(xs, 0.25) <= x <= Quantile(xs, 0.75)
    ensures Within(x, IqrFence(xs).value)
  {
  }

  /** The fence moves when outliers are dropped: on the quantities
      1, 1, 1, 2, 10 it is [-0.5, 3.5] and drops only the 10, but on the
      remaining 1, 1, 1, 2 it is [0.625, 1.625] and drops the 2 as well, so
      filtering by the fence is not idempotent. */
  lemma FenceMovesAfterFiltering()
    ensures IqrFence([1.0, 1.0, 1.0, 2.0, 10.0]) == Some(Fence(-0.5, 3.5))
    ensures IqrFence([1.0, 1.0, 1.0, 2.0]) == Some(Fence(0.625, 1.625))
  {
    assert Sort([1.0, 1.0, 1.0, 2.0, 10.0]) == [1.0, 1.0, 1.0, 2.0, 10.0];
    assert Sort([1.0, 1.0, 1.0, 2.0]) == [1.0, 1.0, 1.0, 2.0];
    assert Position(5, 0.25) == 1.0 && Position(5, 0.75) == 3.0;
    assert Position(4, 0.25) == 0.75 && Position(4, 0.75) == 2.25;
  }
}
