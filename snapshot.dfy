/** Snapshots (caliper/snapshot.py): immutable, sorted views of a reservoir's
    contents and the statistics computed from them. Python floats are
    modelled by `real`; `math.sqrt` is left out, so the standard deviation is
    represented by the variance it is the square root of. */
module Snapshots {
  import opened Outcomes
  import opened Sorting

  /** `ValueError` for a quantile outside [0, 1]; `IndexError` when a
      weighted snapshot holds no value. */
  datatype SnapshotError = QuantileOutOfRange | EmptySnapshot

  /** Python's `<=` on floats. */
  predicate LeReal(a: real, b: real) { a <= b }

  /** Python's ordering of `(value, weight)` tuples: by value, then weight. */
  predicate LeSample(a: (real, real), b: (real, real)) {
    a.0 < b.0 || (a.0 == b.0 && a.1 <= b.1)
  }

  lemma LeRealTotal()
    ensures TotalOrder(LeReal)
  {
  }

  lemma LeSampleTotal()
    ensures TotalOrder(LeSample)
  {
  }

  ghost predicate Ascending(s: seq<real>) {
    forall i, j :: 0 <= i < j < |s| ==> s[i] <= s[j]
  }

  // ---------------------------------------------------------------------
  // Sums
  // ---------------------------------------------------------------------

  /** Python's `sum`, adding from the left. */
  function Sum(s: seq<real>): real {
    if s == [] then 0.0 else Sum(s[..|s| - 1]) + s[|s| - 1]
  }

  lemma {:induction false} SumAppend(x: seq<real>, y: seq<real>)
    ensures Sum(x + y) == Sum(x) + Sum(y)
    decreases |y|
  {
    if y == [] {
      assert x + y == x;
    } else {
      assert (x + y)[..|x + y| - 1] == x + y[..|y| - 1];
      SumAppend(x, y[..|y| - 1]);
    }
  }

  /** Taking the term at `j` out of a sum. */
  lemma SumRemoveAt(b: seq<real>, j: nat)
    requires j < |b|
    ensures Sum(b) == Sum(b[..j] + b[j + 1..]) + b[j]
  {
    var pre, x, post := b[..j], b[j], b[j + 1..];
    assert b == pre + ([x] + post);
    assert Sum([x]) == x by { assert [x][..0] == []; }
    SumAppend(pre, [x] + post);
    SumAppend([x], post);
    SumAppend(pre, post);
  }

  /** A sum does not depend on the order of its terms. */
  lemma {:induction false} SumPermutation(a: seq<real>, b: seq<real>)
    requires multiset(a) == multiset(b)
    ensures Sum(a) == Sum(b)
    decreases |a|
  {
    assert |a| == |multiset(a)| == |multiset(b)| == |b|;
    if a != [] {
      assert a[0] in multiset(b);
      var j :| 0 <= j < |b| && b[j] == a[0];
      var rest := b[..j] + b[j + 1..];
      RemoveAt(b, j);
      assert a == [a[0]] + a[1..];
      assert multiset(a[1..]) == multiset(rest);
      SumPermutation(a[1..], rest);
      calc {
        Sum(a);
        { assert a[..0] + a[1..] == a[1..]; SumRemoveAt(a, 0); }
        Sum(a[1..]) + a[0];
        Sum(rest) + b[j];
        { SumRemoveAt(b, j); }
        Sum(b);
      }
    }
  }

  /** Every term between `lo` and `hi` bounds the sum by `n*lo` and `n*hi`. */
  lemma {:induction false} SumBounds(s: seq<real>, lo: real, hi: real)
    requires forall i :: 0 <= i < |s| ==> lo <= s[i] <= hi
    ensures |s| as real * lo <= Sum(s) <= |s| as real * hi
    decreases |s|
  {
    if s != [] {
      SumBounds(s[..|s| - 1], lo, hi);
    }
  }

  // ---------------------------------------------------------------------
  // Snapshot
  // ---------------------------------------------------------------------

  /** `Snapshot(iterable)`: the values as floats, sorted ascending. */
  function NewSnapshot(xs: seq<real>): (s: seq<real>)
    ensures Ascending(s)
    ensures multiset(s) == multiset(xs)
  {
    LeRealTotal();
    var r := Sort(LeReal, xs);
    assert forall i, j :: 0 <= i < j < |r| ==> LeReal(r[i], r[j]);
    r
  }

  /** A snapshot depends only on the values, not on the order they come in. */
  lemma NewSnapshotPermutation(a: seq<real>, b: seq<real>)
    requires multiset(a) == multiset(b)
    ensures NewSnapshot(a) == NewSnapshot(b)
  {
    LeRealTotal();
    var sa, sb := NewSnapshot(a), NewSnapshot(b);
    assert SortedBy(LeReal, sa) && SortedBy(LeReal, sb);
    SortedUnique(LeReal, sa, sb);
  }

  /** A fraction of a non-negative amount lies between 0 and the amount. */
  lemma FractionBounds(t: real, d: real)
    ensures 0.0 <= t <= 1.0 && 0.0 <= d ==> 0.0 <= t * d <= d
  {
    if 0.0 <= t <= 1.0 && 0.0 <= d {
      assert (1.0 - t) * d >= 0.0;
    }
  }

  /** Multiplying by a non-negative factor keeps the order. */
  lemma ScaleMonotone(a: real, b: real, c: real)
    requires a <= b && 0.0 <= c
    ensures a * c <= b * c
  {
    FractionBounds(0.0, (b - a) * c);
  }

  /** The linear interpolation `lower + t * (upper - lower)`. */
  function Interpolate(lower: real, upper: real, t: real): real {
    lower + t * (upper - lower)
  }

  /** Interpolating by a fraction stays between the two ends. */
  lemma InterpolateBounds(lower: real, upper: real, t: real)
    ensures lower <= upper && 0.0 <= t <= 1.0 ==> lower <= Interpolate(lower, upper, t) <= upper
  {
    FractionBounds(t, upper - lower);
  }

  lemma InterpolateMonotone(lower: real, upper: real, t1: real, t2: real)
    requires lower <= upper && t1 <= t2
    ensures Interpolate(lower, upper, t1) <= Interpolate(lower, upper, t2)
  {
    ScaleMonotone(t1, t2, upper - lower);
  }

  /** `pos = quantile * (n + 1)`. */
  function Position(n: nat, q: real): real {
    q * (n + 1) as real
  }

  lemma PositionMonotone(n: nat, q1: real, q2: real)
    requires q1 <= q2
    ensures Position(n, q1) <= Position(n, q2)
  {
    ScaleMonotone(q1, q2, (n + 1) as real);
  }

  /** `index = int(pos)`; the position is never negative, so this is its floor. */
  function QuantileIndex(n: nat, q: real): (index: int)
    requires 0.0 <= q
    ensures 0 <= index
    ensures index as real <= Position(n, q) < index as real + 1.0
  {
    ScaleMonotone(0.0, q, (n + 1) as real);
    Position(n, q).Floor
  }

  /** `Snapshot.get_value(quantile)`. */
  function GetValue(s: seq<real>, q: real): (r: Result<real, SnapshotError>)
    ensures r.Err? <==> !(0.0 <= q <= 1.0)
    ensures r.Ok? && s == [] ==> r.value == 0.0
    ensures r.Ok? && s != [] && Ascending(s) ==> s[0] <= r.value <= s[|s| - 1]
  {
    if !(0.0 <= q <= 1.0) then Err(QuantileOutOfRange)
    else if |s| == 0 then Ok(0.0)
    else
      var pos := Position(|s|, q);
      var index := QuantileIndex(|s|, q);
      if index == 0 then Ok(s[0])
      else if index >= |s| then Ok(s[|s| - 1])
      else
        InterpolateBounds(s[index - 1], s[index], pos - index as real);
        Ok(Interpolate(s[index - 1], s[index], pos - index as real))
  }

  /** The value at quantile `q` lies between the order statistics that
      bracket `pos`: elements `index - 1` and `index`, clamped to the ends. */
  lemma GetValueBracket(s: seq<real>, q: real)
    requires Ascending(s) && s != []
    requires 0.0 <= q <= 1.0
    ensures var i := QuantileIndex(|s|, q);
            s[Clamp(i - 1, |s|)] <= GetValue(s, q).value <= s[Clamp(i, |s|)]
  {
    var n, i := |s|, QuantileIndex(|s|, q);
    if i == 0 {
      assert GetValue(s, q).value == s[0];
    } else if i >= n {
      assert GetValue(s, q).value == s[n - 1];
    } else {
      var t := Position(n, q) - i as real;
      InterpolateBounds(s[i - 1], s[i], t);
      assert GetValue(s, q).value == Interpolate(s[i - 1], s[i], t);
    }
  }

  function Clamp(i: int, n: nat): (k: nat)
    requires n > 0
    ensures k < n
  {
    if i <= 0 then 0 else if i >= n then n - 1 else i
  }

  /** Two quantiles with the same index interpolate in order. */
  lemma SameIndexMonotone(s: seq<real>, q1: real, q2: real)
    requires Ascending(s) && s != []
    requires 0.0 <= q1 <= q2 <= 1.0
    requires QuantileIndex(|s|, q1) == QuantileIndex(|s|, q2)
    ensures GetValue(s, q1).value <= GetValue(s, q2).value
  {
    var n, i := |s|, QuantileIndex(|s|, q1);
    if 0 < i < n {
      var t1, t2 := Position(n, q1) - i as real, Position(n, q2) - i as real;
      PositionMonotone(n, q1, q2);
      assert s[i - 1] <= s[i];
      InterpolateMonotone(s[i - 1], s[i], t1, t2);
      assert GetValue(s, q1).value == Interpolate(s[i - 1], s[i], t1);
      assert GetValue(s, q2).value == Interpolate(s[i - 1], s[i], t2);
    } else {
      assert GetValue(s, q1) == GetValue(s, q2);
    }
  }

  /** The value at a quantile is non-decreasing in the quantile. */
  lemma GetValueMonotone(s: seq<real>, q1: real, q2: real)
    requires Ascending(s) && s != []
    requires 0.0 <= q1 <= q2 <= 1.0
    ensures GetValue(s, q1).value <= GetValue(s, q2).value
  {
    var n := |s|;
    var i1, i2 := QuantileIndex(n, q1), QuantileIndex(n, q2);
    PositionMonotone(n, q1, q2);
    assert i1 <= i2;
    if i1 == i2 {
      SameIndexMonotone(s, q1, q2);
    } else {
      GetValueBracket(s, q1);
      GetValueBracket(s, q2);
      assert Clamp(i1, n) <= Clamp(i2 - 1, n);
    }
  }

  /** A quantile below `1/(n+1)` selects the smallest value, one of at least
      `n/(n+1)` the largest. */
  lemma GetValueExtremes(s: seq<real>, q: real)
    requires s != [] && 0.0 <= q <= 1.0
    ensures q * (|s| + 1) as real < 1.0 ==> GetValue(s, q) == Ok(s[0])
    ensures q * (|s| + 1) as real >= |s| as real ==> GetValue(s, q) == Ok(s[|s| - 1])
  {
  }

  /** `Snapshot.mean`: 0 when empty, else the arithmetic mean. */
  function Mean(s: seq<real>): (m: real)
    ensures s == [] ==> m == 0.0
  {
    if |s| == 0 then 0.0 else Sum(s) / |s| as real
  }

  /** The mean lies within any bounds on the values; in particular between
      the first and last values of a sorted snapshot. */
  lemma MeanBounds(s: seq<real>, lo: real, hi: real)
    requires s != []
    requires forall i :: 0 <= i < |s| ==> lo <= s[i] <= hi
    ensures lo <= Mean(s) <= hi
  {
    SumBounds(s, lo, hi);
    var n := |s| as real;
    assert Sum(s) / n * n == Sum(s);
  }

  /** The mean of a constant sequence is that constant. */
  lemma MeanOfConstant(s: seq<real>, c: real)
    requires s != []
    requires forall i :: 0 <= i < |s| ==> s[i] == c
    ensures Mean(s) == c
  {
    MeanBounds(s, c, c);
  }

  lemma SquareNonNegative(x: real)
    ensures x * x >= 0.0
  {
    if x < 0.0 {
      assert x * x == (-x) * (-x);
    }
  }

  /** The sum of squared deviations from `m`. */
  function SquaredDeviations(s: seq<real>, m: real): (r: real)
    ensures r >= 0.0
  {
    if s == [] then 0.0
    else
      SquareNonNegative(s[|s| - 1] - m);
      SquaredDeviations(s[..|s| - 1], m) + (s[|s| - 1] - m) * (s[|s| - 1] - m)
  }

  /** The sample variance behind `Snapshot.stddev` (which is its square
      root): 0 when there are at most one value. */
  function Variance(s: seq<real>): (v: real)
    ensures v >= 0.0
    ensures |s| <= 1 ==> v == 0.0
  {
    if |s| <= 1 then 0.0 else SquaredDeviations(s, Mean(s)) / (|s| - 1) as real
  }

  lemma {:induction false} SquaredDeviationsOfConstant(s: seq<real>, c: real)
    requires forall i :: 0 <= i < |s| ==> s[i] == c
    ensures SquaredDeviations(s, c) == 0.0
    decreases |s|
  {
    if s != [] {
      SquaredDeviationsOfConstant(s[..|s| - 1], c);
    }
  }

  /** Identical values have zero spread (so `stddev` is exactly 0). */
  lemma VarianceOfConstant(s: seq<real>, c: real)
    requires forall i :: 0 <= i < |s| ==> s[i] == c
    ensures Variance(s) == 0.0
  {
    if |s| > 1 {
      MeanOfConstant(s, c);
      SquaredDeviationsOfConstant(s, c);
    }
  }

  // ---------------------------------------------------------------------
  // Weighted snapshot
  // ---------------------------------------------------------------------

  function Value(sample: (real, real)): real { sample.0 }

  function Weight(sample: (real, real)): real { sample.1 }

  /** `sum(weights)` over the `(value, weight)` samples. */
  function TotalWeight(samples: seq<(real, real)>): real {
    Sum(MapSeq(Weight, samples))
  }

  /** `[w / sumweight for w in weights]`. */
  function Normalize(weights: seq<real>, total: real): (r: seq<real>)
    requires total != 0.0
    ensures |r| == |weights|
    ensures forall i :: 0 <= i < |weights| ==> r[i] == weights[i] / total
  {
    seq(|weights|, i requires 0 <= i < |weights| => weights[i] / total)
  }

  /** Normalising divides the sum by the total. */
  lemma {:induction false} SumNormalize(weights: seq<real>, total: real)
    requires total != 0.0
    ensures Sum(Normalize(weights, total)) == Sum(weights) / total
    decreases |weights|
  {
    if weights != [] {
      var n := |weights|;
      assert Normalize(weights, total)[..n - 1] == Normalize(weights[..n - 1], total);
      SumNormalize(weights[..n - 1], total);
    }
  }

  /** `[sum(normweights[:i]) for i in range(n)]`: the weight strictly before
      each position. */
  function PrefixSums(ws: seq<real>): (r: seq<real>)
    ensures |r| == |ws|
    ensures forall i :: 0 <= i < |ws| ==> r[i] == Sum(ws[..i])
  {
    seq(|ws|, i requires 0 <= i < |ws| => Sum(ws[..i]))
  }

  ghost predicate NonNegative(ws: seq<real>) {
    forall i :: 0 <= i < |ws| ==> ws[i] >= 0.0
  }

  lemma {:induction false} SumNonNegative(ws: seq<real>)
    requires NonNegative(ws)
    ensures Sum(ws) >= 0.0
    decreases |ws|
  {
    if ws != [] {
      SumNonNegative(ws[..|ws| - 1]);
    }
  }

  /** With non-negative weights the cumulative weights never decrease and
      never exceed the total. */
  lemma PrefixSumsMonotone(ws: seq<real>, i: nat, j: nat)
    requires NonNegative(ws)
    requires i <= j <= |ws|
    ensures 0.0 <= Sum(ws[..i]) <= Sum(ws[..j]) <= Sum(ws)
  {
    assert ws[..j] == ws[..i] + ws[i..j];
    SumAppend(ws[..i], ws[i..j]);
    assert ws == ws[..j] + ws[j..];
    SumAppend(ws[..j], ws[j..]);
    SumNonNegative(ws[..i]);
    SumNonNegative(ws[i..j]);
    SumNonNegative(ws[j..]);
  }

  /** A `WeightedSnapshot`: the sample values sorted ascending, their
      normalised weights, and the cumulative weight before each position. */
  datatype WeightedSnapshot = WeightedSnapshot(values: seq<real>, normWeights: seq<real>, quantiles: seq<real>)
  {
    predicate WellFormed() {
      |values| == |normWeights| == |quantiles|
    }
  }

  /** `sorted(iterable)` of the `(value, weight)` pairs. */
  function SortSamples(samples: seq<(real, real)>): (r: seq<(real, real)>)
    ensures multiset(r) == multiset(samples) && |r| == |samples|
    ensures SortedBy(LeSample, r)
    ensures forall i, j :: 0 <= i < j < |r| ==> r[i].0 <= r[j].0
  {
    LeSampleTotal();
    var r := Sort(LeSample, samples);
    assert forall i, j :: 0 <= i < j < |r| ==> LeSample(r[i], r[j]);
    assert |multiset(r)| == |multiset(samples)|;
    r
  }

  /** Sorting keeps the values and the total weight. */
  lemma SortSamplesKeeps(samples: seq<(real, real)>)
    ensures multiset(MapSeq(Value, SortSamples(samples))) == multiset(MapSeq(Value, samples))
    ensures TotalWeight(SortSamples(samples)) == TotalWeight(samples)
  {
    var sorted := SortSamples(samples);
    MapSeqPermutation(Value, sorted, samples);
    MapSeqPermutation(Weight, sorted, samples);
    SumPermutation(MapSeq(Weight, sorted), MapSeq(Weight, samples));
  }

  /** `WeightedSnapshot(iterable)`: sorts the `(value, weight)` pairs and
      normalises the weights. A non-empty input whose weights sum to zero
      divides by zero in the source, so it is excluded. */
  function NewWeighted(samples: seq<(real, real)>): (w: WeightedSnapshot)
    requires samples != [] ==> TotalWeight(samples) != 0.0
    ensures w.WellFormed() && |w.values| == |samples|
    ensures Ascending(w.values)
    ensures multiset(w.values) == multiset(MapSeq(Value, samples))
    ensures samples != [] ==>
              forall i :: 0 <= i < |samples| ==>
                w.values[i] == SortSamples(samples)[i].0 && w.normWeights[i] == SortSamples(samples)[i].1 / TotalWeight(samples)
  {
    var sorted := SortSamples(samples);
    SortSamplesKeeps(samples);
    var values := MapSeq(Value, sorted);
    var weights := MapSeq(Weight, sorted);
    assert |sorted| == |samples| by {
      assert |multiset(sorted)| == |multiset(samples)|;
    }
    var norm := if sorted == [] then [] else Normalize(weights, Sum(weights));
    WeightedSnapshot(values, norm, PrefixSums(norm))
  }

  /** The pair at position `i` with its weight scaled back by the total. */
  function Denormalized(w: WeightedSnapshot, total: real): (r: seq<(real, real)>)
    requires w.WellFormed()
    ensures |r| == |w.values|
    ensures forall i :: 0 <= i < |r| ==> r[i] == (w.values[i], Scale(w.normWeights[i], total))
  {
    seq(|w.values|, i requires 0 <= i < |w.values| => (w.values[i], Scale(w.normWeights[i], total)))
  }

  lemma UndoNormalize(x: real, t: real)
    requires t != 0.0
    ensures Scale(x / t, t) == x
  {
  }

  /** Scaling back weights that were divided by `t` restores them. */
  lemma DenormalizedSorted(w: WeightedSnapshot, t: real, sorted: seq<(real, real)>)
    requires t != 0.0 && w.WellFormed() && |w.values| == |sorted|
    requires forall i :: 0 <= i < |sorted| ==> w.values[i] == sorted[i].0 && w.normWeights[i] == sorted[i].1 / t
    ensures Denormalized(w, t) == sorted
  {
    var d := Denormalized(w, t);
    forall i | 0 <= i < |d|
      ensures d[i] == sorted[i]
    {
      UndoNormalize(sorted[i].1, t);
    }
  }

  /** Each value keeps its own weight: scaling the normalised weights back
      by the total gives exactly the input pairs, in some order. */
  lemma NewWeightedPairs(samples: seq<(real, real)>)
    requires samples != [] && TotalWeight(samples) != 0.0
    ensures multiset(Denormalized(NewWeighted(samples), TotalWeight(samples))) == multiset(samples)
  {
    DenormalizedSorted(NewWeighted(samples), TotalWeight(samples), SortSamples(samples));
  }

  /** Positive terms have a positive sum. */
  lemma {:induction false} SumPositive(ws: seq<real>)
    requires ws != [] && forall i :: 0 <= i < |ws| ==> ws[i] > 0.0
    ensures Sum(ws) > 0.0
    decreases |ws|
  {
    if |ws| > 1 {
      SumPositive(ws[..|ws| - 1]);
    } else {
      assert ws[..0] == [];
    }
  }

  /** A weighted snapshot depends only on the samples, not on the order
      they come in (the source hands it the values of a dictionary). */
  lemma NewWeightedPermutation(a: seq<(real, real)>, b: seq<(real, real)>)
    requires multiset(a) == multiset(b)
    requires a != [] ==> TotalWeight(a) != 0.0
    ensures b != [] ==> TotalWeight(b) != 0.0
    ensures NewWeighted(a) == NewWeighted(b)
  {
    LeSampleTotal();
    SortedUnique(LeSample, SortSamples(a), SortSamples(b));
    SortSamplesKeeps(a);
    SortSamplesKeeps(b);
    assert |a| == |multiset(a)| == |multiset(b)| == |b|;
  }

  /** A weight (or priority) multiplied by a factor. */
  function Scale(x: real, k: real): real { x * k }

  /** A sample with its weight multiplied by `k`. */
  function Reweighted(k: real): ((real, real)) -> (real, real) {
    (sample: (real, real)) => (sample.0, Scale(sample.1, k))
  }

  lemma {:induction false} SumScaled(ws: seq<real>, vs: seq<real>, k: real)
    requires |vs| == |ws| && forall i :: 0 <= i < |ws| ==> vs[i] == Scale(ws[i], k)
    ensures Sum(vs) == Scale(Sum(ws), k)
    decreases |ws|
  {
    if ws != [] {
      var n := |ws|;
      SumScaled(ws[..n - 1], vs[..n - 1], k);
      assert Sum(vs) == Sum(ws[..n - 1]) * k + ws[n - 1] * k;
    }
  }

  lemma MulNonZero(a: real, k: real)
    requires k > 0.0
    ensures a != 0.0 ==> Scale(a, k) != 0.0
  {
  }

  lemma DivCancel(a: real, t: real, k: real)
    requires t != 0.0 && k != 0.0
    ensures Scale(a, k) / Scale(t, k) == a / t
  {
    var x := a / t;
    assert x * t == a;
    assert x * (t * k) == a * k;
  }

  /** Multiplying every weight by the same positive `k` keeps the order of
      the samples. */
  lemma ReweightedOrdered(sorted: seq<(real, real)>, k: real)
    requires k > 0.0 && SortedBy(LeSample, sorted)
    ensures SortedBy(LeSample, MapSeq(Reweighted(k), sorted))
  {
    var r := MapSeq(Reweighted(k), sorted);
    forall i, j | 0 <= i < j < |r|
      ensures LeSample(r[i], r[j])
    {
      assert LeSample(sorted[i], sorted[j]);
      if sorted[i].0 == sorted[j].0 && sorted[i].1 < sorted[j].1 {
        assert Scale(sorted[j].1, k) - Scale(sorted[i].1, k) == (sorted[j].1 - sorted[i].1) * k;
      }
    }
  }

  /** Reweighting keeps the values and multiplies the weights and their
      total by `k`. */
  lemma ReweightedParts(samples: seq<(real, real)>, k: real)
    ensures MapSeq(Value, MapSeq(Reweighted(k), samples)) == MapSeq(Value, samples)
    ensures forall i :: 0 <= i < |samples| ==> MapSeq(Weight, MapSeq(Reweighted(k), samples))[i] == Scale(MapSeq(Weight, samples)[i], k)
    ensures TotalWeight(MapSeq(Reweighted(k), samples)) == Scale(TotalWeight(samples), k)
  {
    var r := MapSeq(Reweighted(k), samples);
    var ws, ws' := MapSeq(Weight, samples), MapSeq(Weight, r);
    forall i | 0 <= i < |samples|
      ensures r[i] == (samples[i].0, Scale(samples[i].1, k))
    {
    }
    SumScaled(ws, ws', k);
  }

  /** Sorting commutes with multiplying every weight by `k > 0`. */
  lemma SortReweighted(samples: seq<(real, real)>, k: real)
    requires k > 0.0
    ensures SortSamples(MapSeq(Reweighted(k), samples)) == MapSeq(Reweighted(k), SortSamples(samples))
  {
    var sorted := SortSamples(samples);
    LeSampleTotal();
    ReweightedOrdered(sorted, k);
    MapSeqPermutation(Reweighted(k), sorted, samples);
    SortedUnique(LeSample, SortSamples(MapSeq(Reweighted(k), samples)), MapSeq(Reweighted(k), sorted));
  }

  /** Normalising weights multiplied by `k` against a total multiplied by
      `k` gives the same normalised weights. */
  lemma NormalizeScaled(ws: seq<real>, ws': seq<real>, t: real, k: real)
    requires t != 0.0 && k > 0.0
    requires |ws'| == |ws| && forall i :: 0 <= i < |ws| ==> ws'[i] == Scale(ws[i], k)
    ensures Normalize(ws', Scale(t, k)) == Normalize(ws, t)
  {
    var n, n' := Normalize(ws, t), Normalize(ws', Scale(t, k));
    forall i | 0 <= i < |ws|
      ensures n'[i] == n[i]
    {
      DivCancel(ws[i], t, k);
    }
  }

  /** A weighted snapshot does not change when every weight is multiplied by
      the same positive factor: only the relative weights matter. This is
      why rescaling a decaying reservoir leaves its snapshot unchanged. */
  lemma NewWeightedScaleFree(samples: seq<(real, real)>, k: real)
    requires k > 0.0
    requires samples != [] ==> TotalWeight(samples) != 0.0
    ensures TotalWeight(MapSeq(Reweighted(k), samples)) == Scale(TotalWeight(samples), k)
    ensures NewWeighted(MapSeq(Reweighted(k), samples)) == NewWeighted(samples)
  {
    var scaled := MapSeq(Reweighted(k), samples);
    ReweightedParts(samples, k);
    MulNonZero(TotalWeight(samples), k);
    assert scaled != [] ==> TotalWeight(scaled) != 0.0;
    var sorted := SortSamples(samples);
    var sorted' := MapSeq(Reweighted(k), sorted);
    SortReweighted(samples, k);
    ReweightedParts(sorted, k);
    var w, w' := NewWeighted(samples), NewWeighted(scaled);
    assert w'.values == w.values;
    if samples != [] {
      SortSamplesKeeps(samples);
      var ws, ws' := MapSeq(Weight, sorted), MapSeq(Weight, sorted');
      NormalizeScaled(ws, ws', Sum(ws), k);
      assert w.normWeights == Normalize(ws, Sum(ws));
      assert w'.normWeights == Normalize(ws', Sum(ws'));
    }
  }

  /** The normalised weights sum to 1, and `_quantiles[i]` is the weight
      strictly before position `i`, starting from 0. */
  lemma NewWeightedNormalised(samples: seq<(real, real)>)
    requires samples != [] && TotalWeight(samples) != 0.0
    ensures var w := NewWeighted(samples);
            && Sum(w.normWeights) == 1.0
            && w.quantiles[0] == 0.0
            && forall i :: 0 <= i < |w.quantiles| ==> w.quantiles[i] == Sum(w.normWeights[..i])
  {
    var sorted := SortSamples(samples);
    SortSamplesKeeps(samples);
    var weights := MapSeq(Weight, sorted);
    assert Sum(weights) == TotalWeight(sorted) == TotalWeight(samples);
    SumNormalize(weights, Sum(weights));
    assert Sum(weights) / Sum(weights) == 1.0;
    var w := NewWeighted(samples);
    assert w.normWeights == Normalize(weights, Sum(weights));
    assert w.normWeights[..0] == [];
  }

  /** Sorting keeps every weight non-negative. */
  lemma SortedWeightsNonNegative(samples: seq<(real, real)>)
    requires forall i :: 0 <= i < |samples| ==> samples[i].1 >= 0.0
    ensures NonNegative(MapSeq(Weight, SortSamples(samples)))
  {
    var sorted := SortSamples(samples);
    forall i | 0 <= i < |sorted|
      ensures sorted[i].1 >= 0.0
    {
      assert sorted[i] in multiset(samples);
    }
  }

  /** The normalised weights of non-negative samples are non-negative. */
  lemma NewWeightedNonNegative(samples: seq<(real, real)>)
    requires samples != [] ==> TotalWeight(samples) != 0.0
    requires forall i :: 0 <= i < |samples| ==> samples[i].1 >= 0.0
    ensures NonNegative(NewWeighted(samples).normWeights)
  {
    if samples != [] {
      var weights := MapSeq(Weight, SortSamples(samples));
      SortSamplesKeeps(samples);
      SortedWeightsNonNegative(samples);
      SumNonNegative(weights);
      var total := Sum(weights);
      assert total == TotalWeight(samples);
      NormalizeNonNegative(weights, total);
      assert NewWeighted(samples).normWeights == Normalize(weights, total);
    }
  }

  lemma NormalizeNonNegative(ws: seq<real>, total: real)
    requires NonNegative(ws) && total > 0.0
    ensures NonNegative(Normalize(ws, total))
  {
    forall i | 0 <= i < |ws|
      ensures ws[i] / total >= 0.0
    {
      var x := ws[i] / total;
      assert x * total == ws[i];
      if x < 0.0 {
        ScaleMonotone(x, 0.0, total);
        assert false;
      }
    }
  }

  /** The first position whose cumulative weight exceeds `q`, or `|qs|` when
      there is none (the `for ... break ... else` search of `get_value`). */
  function FirstAbove(qs: seq<real>, q: real): (pos: nat)
    ensures pos <= |qs|
    ensures forall i :: 0 <= i < pos ==> qs[i] <= q
    ensures pos < |qs| ==> qs[pos] > q
  {
    if qs == [] then 0
    else if qs[0] > q then 0
    else 1 + FirstAbove(qs[1..], q)
  }

  /** The search position never decreases as the quantile grows. */
  lemma FirstAboveMonotone(qs: seq<real>, q1: real, q2: real)
    requires q1 <= q2
    ensures FirstAbove(qs, q1) <= FirstAbove(qs, q2)
  {
    var p2 := FirstAbove(qs, q2);
    if p2 < |qs| {
      assert qs[p2] > q1;
    }
  }

  /** `value = self[0]` when `pos <= 1`, else `self[pos - 1]`. */
  function SelectedIndex(pos: nat): nat {
    if pos <= 1 then 0 else pos - 1
  }

  /** The value `WeightedSnapshot.get_value(q)` returns for a quantile in range. */
  function WeightedValueAt(w: WeightedSnapshot, q: real): (v: real)
    requires w.WellFormed() && w.values != []
    ensures v in w.values
  {
    w.values[SelectedIndex(FirstAbove(w.quantiles, q))]
  }

  /** `WeightedSnapshot.get_value(quantile)`, with its search loop. Unlike
      `Snapshot.get_value`, an empty weighted snapshot has no fallback:
      reading `self[0]` fails with an `IndexError`. */
  method WeightedGetValue(w: WeightedSnapshot, q: real) returns (r: Result<real, SnapshotError>)
    requires w.WellFormed()
    ensures r.Err? <==> !(0.0 <= q <= 1.0) || w.values == []
    ensures r.Err? ==> r.error == (if 0.0 <= q <= 1.0 then EmptySnapshot else QuantileOutOfRange)
    ensures r.Ok? ==> w.values != [] && r.value == WeightedValueAt(w, q)
  {
    if !(0.0 <= q <= 1.0) {
      return Err(QuantileOutOfRange);
    }
    var pos := 0;
    while pos < |w.quantiles| && !(w.quantiles[pos] > q)
      invariant 0 <= pos <= |w.quantiles|
      invariant forall i :: 0 <= i < pos ==> w.quantiles[i] <= q
    {
      pos := pos + 1;
    }
    if w.values == [] {
      r := Err(EmptySnapshot);
    } else if pos <= 1 {
      r := Ok(w.values[0]);
    } else {
      r := Ok(w.values[pos - 1]);
    }
  }

  /** The weighted value at a quantile is non-decreasing in the quantile. */
  lemma WeightedValueMonotone(w: WeightedSnapshot, q1: real, q2: real)
    requires w.WellFormed() && w.values != [] && Ascending(w.values)
    requires q1 <= q2
    ensures WeightedValueAt(w, q1) <= WeightedValueAt(w, q2)
  {
    FirstAboveMonotone(w.quantiles, q1, q2);
  }

  /** With non-negative weights no cumulative weight exceeds 1, so the
      quantile 1 selects the largest value. */
  lemma WeightedValueAtOne(samples: seq<(real, real)>)
    requires samples != [] && TotalWeight(samples) != 0.0
    requires forall i :: 0 <= i < |samples| ==> samples[i].1 >= 0.0
    ensures var w := NewWeighted(samples);
            WeightedValueAt(w, 1.0) == w.values[|w.values| - 1]
  {
    var w := NewWeighted(samples);
    NewWeightedNonNegative(samples);
    NewWeightedNormalised(samples);
    forall i | 0 <= i < |w.quantiles|
      ensures w.quantiles[i] <= 1.0
    {
      PrefixSumsMonotone(w.normWeights, i, i);
    }
    assert FirstAbove(w.quantiles, 1.0) == |w.quantiles|;
  }

  /** `sum(v * w for v, w in zip(values, weights))`. */
  function WeightedSum(values: seq<real>, weights: seq<real>): real
    requires |values| == |weights|
  {
    if values == [] then 0.0
    else
      var n := |values|;
      WeightedSum(values[..n - 1], weights[..n - 1]) + values[n - 1] * weights[n - 1]
  }

  /** `WeightedSnapshot.mean`: 0 when empty. */
  function WeightedMean(w: WeightedSnapshot): (m: real)
    requires w.WellFormed()
    ensures w.values == [] ==> m == 0.0
  {
    if |w.values| == 0 then 0.0 else WeightedSum(w.values, w.normWeights)
  }

  /** A weighted sum with non-negative weights lies between `lo` and `hi`
      times the total weight. */
  lemma {:induction false} WeightedSumBounds(values: seq<real>, weights: seq<real>, lo: real, hi: real)
    requires |values| == |weights| && NonNegative(weights)
    requires forall i :: 0 <= i < |values| ==> lo <= values[i] <= hi
    ensures lo * Sum(weights) <= WeightedSum(values, weights) <= hi * Sum(weights)
    decreases |values|
  {
    if values != [] {
      var n := |values|;
      WeightedSumBounds(values[..n - 1], weights[..n - 1], lo, hi);
      ScaleMonotone(lo, values[n - 1], weights[n - 1]);
      ScaleMonotone(values[n - 1], hi, weights[n - 1]);
    }
  }

  /** The weighted mean of normalised non-negative weights is a convex
      combination: it lies between the smallest and largest value. */
  lemma WeightedMeanBounds(w: WeightedSnapshot, lo: real, hi: real)
    requires w.WellFormed() && w.values != []
    requires NonNegative(w.normWeights) && Sum(w.normWeights) == 1.0
    requires forall i :: 0 <= i < |w.values| ==> lo <= w.values[i] <= hi
    ensures lo <= WeightedMean(w) <= hi
  {
    WeightedSumBounds(w.values, w.normWeights, lo, hi);
  }

  /** `sum(w * (v - mean)**2 for v, w in zip(values, weights))`. */
  function WeightedSquaredDeviations(values: seq<real>, weights: seq<real>, m: real): (r: real)
    requires |values| == |weights|
    ensures NonNegative(weights) ==> r >= 0.0
  {
    if values == [] then 0.0
    else
      var n := |values|;
      var d := values[n - 1] - m;
      SquareNonNegative(d);
      FractionBounds(0.0, weights[n - 1] * (d * d));
      WeightedSquaredDeviations(values[..n - 1], weights[..n - 1], m) + weights[n - 1] * (d * d)
  }

  /** The variance behind `WeightedSnapshot.stddev` (its square root): 0 when
      there are at most one value. */
  function WeightedVariance(w: WeightedSnapshot): (v: real)
    requires w.WellFormed()
    ensures |w.values| <= 1 ==> v == 0.0
    ensures NonNegative(w.normWeights) ==> v >= 0.0
  {
    if |w.values| <= 1 then 0.0
    else WeightedSquaredDeviations(w.values, w.normWeights, WeightedMean(w))
  }

  // ---------------------------------------------------------------------
  // The values the test suite checks
  // ---------------------------------------------------------------------

  /** `Snapshot([5, 1, 2, 3, 4])` is `(1, 2, 3, 4, 5)`. */
  lemma TestMultiset()
    ensures multiset([5.0, 1.0, 2.0, 3.0, 4.0]) == multiset([1.0, 2.0, 3.0, 4.0, 5.0])
  {
  }
  lemma TestSorted()
    ensures SortedBy(LeReal, [1.0, 2.0, 3.0, 4.0, 5.0])
  {
  }
  lemma SnapshotOfTestValues()
    ensures NewSnapshot([5.0, 1.0, 2.0, 3.0, 4.0]) == [1.0, 2.0, 3.0, 4.0, 5.0]
  {
    var xs, sorted := [5.0, 1.0, 2.0, 3.0, 4.0], [1.0, 2.0, 3.0, 4.0, 5.0];
    LeRealTotal();
    TestSorted();
    TestMultiset();
    var r := NewSnapshot(xs);
    SortedUnique(LeReal, r, sorted);
  }

  /** Quantiles, mean and variance of that snapshot. */
  lemma SnapshotTestQuantiles()
    ensures var s := [1.0, 2.0, 3.0, 4.0, 5.0];
            && GetValue(s, 0.01) == Ok(1.0)
            && GetValue(s, 0.42) == Ok(2.52)
            && GetValue(s, 0.75) == Ok(4.5)
            && GetValue(s, 0.95) == Ok(5.0)
            && GetValue(s, 1.0) == Ok(5.0)
            && GetValue(s, -0.42).Err? && GetValue(s, 1.1).Err?
            && Mean(s) == 3.0
            && Variance(s) == 2.5
  {
    var s := [1.0, 2.0, 3.0, 4.0, 5.0];
    assert Sum(s[..1]) == 1.0 by { assert s[..1][..0] == []; }
    assert Sum(s[..2]) == 3.0 by { assert s[..2][..1] == s[..1]; }
    assert Sum(s[..3]) == 6.0 by { assert s[..3][..2] == s[..2]; }
    assert Sum(s[..4]) == 10.0 by { assert s[..4][..3] == s[..3]; }
    assert Sum(s) == 15.0;
    assert SquaredDeviations(s[..1], 3.0) == 4.0 by { assert s[..1][..0] == []; }
    assert SquaredDeviations(s[..2], 3.0) == 5.0 by { assert s[..2][..1] == s[..1]; }
    assert SquaredDeviations(s[..3], 3.0) == 5.0 by { assert s[..3][..2] == s[..2]; }
    assert SquaredDeviations(s[..4], 3.0) == 6.0 by { assert s[..4][..3] == s[..3]; }
    assert SquaredDeviations(s, 3.0) == 10.0;
  }

  lemma TestSamplesMultiset()
    ensures multiset([(5.0, 1.0), (1.0, 2.0), (2.0, 3.0), (3.0, 2.0), (4.0, 2.0)])
         == multiset([(1.0, 2.0), (2.0, 3.0), (3.0, 2.0), (4.0, 2.0), (5.0, 1.0)])
  {
  }

  lemma TestSamplesSorted()
    ensures SortedBy(LeSample, [(1.0, 2.0), (2.0, 3.0), (3.0, 2.0), (4.0, 2.0), (5.0, 1.0)])
  {
  }

  lemma TestSamplesSortOrder()
    ensures SortSamples([(5.0, 1.0), (1.0, 2.0), (2.0, 3.0), (3.0, 2.0), (4.0, 2.0)])
         == [(1.0, 2.0), (2.0, 3.0), (3.0, 2.0), (4.0, 2.0), (5.0, 1.0)]
  {
    LeSampleTotal();
    TestSamplesMultiset();
    TestSamplesSorted();
    SortedUnique(LeSample, SortSamples([(5.0, 1.0), (1.0, 2.0), (2.0, 3.0), (3.0, 2.0), (4.0, 2.0)]),
                 [(1.0, 2.0), (2.0, 3.0), (3.0, 2.0), (4.0, 2.0), (5.0, 1.0)]);
  }

  lemma TestSamplesTotalWeight()
    ensures TotalWeight([(5.0, 1.0), (1.0, 2.0), (2.0, 3.0), (3.0, 2.0), (4.0, 2.0)]) == 10.0
  {
    var ws := MapSeq(Weight, [(5.0, 1.0), (1.0, 2.0), (2.0, 3.0), (3.0, 2.0), (4.0, 2.0)]);
    assert ws == [1.0, 2.0, 3.0, 2.0, 2.0];
    assert Sum(ws[..1]) == 1.0 by { assert ws[..1][..0] == []; }
    assert Sum(ws[..2]) == 3.0 by { assert ws[..2][..1] == ws[..1]; }
    assert Sum(ws[..3]) == 6.0 by { assert ws[..3][..2] == ws[..2]; }
    assert Sum(ws[..4]) == 8.0 by { assert ws[..4][..3] == ws[..3]; }
  }

  lemma TestNormalisedWeights()
    ensures Normalize([2.0, 3.0, 2.0, 2.0, 1.0], 10.0) == [0.2, 0.3, 0.2, 0.2, 0.1]
    ensures PrefixSums([0.2, 0.3, 0.2, 0.2, 0.1]) == [0.0, 0.2, 0.5, 0.7, 0.9]
  {
    var norm := [0.2, 0.3, 0.2, 0.2, 0.1];
    assert Sum(norm[..0]) == 0.0 by { assert norm[..0] == []; }
    assert Sum(norm[..1]) == 0.2 by { assert norm[..1][..0] == []; }
    assert Sum(norm[..2]) == 0.5 by { assert norm[..2][..1] == norm[..1]; }
    assert Sum(norm[..3]) == 0.7 by { assert norm[..3][..2] == norm[..2]; }
    assert Sum(norm[..4]) == 0.9 by { assert norm[..4][..3] == norm[..3]; }
  }

  lemma TestSortedProjections()
    ensures MapSeq(Value, [(1.0, 2.0), (2.0, 3.0), (3.0, 2.0), (4.0, 2.0), (5.0, 1.0)]) == [1.0, 2.0, 3.0, 4.0, 5.0]
    ensures MapSeq(Weight, [(1.0, 2.0), (2.0, 3.0), (3.0, 2.0), (4.0, 2.0), (5.0, 1.0)]) == [2.0, 3.0, 2.0, 2.0, 1.0]
    ensures Sum([2.0, 3.0, 2.0, 2.0, 1.0]) == 10.0
  {
    var ws := [2.0, 3.0, 2.0, 2.0, 1.0];
    assert Sum(ws[..1]) == 2.0 by { assert ws[..1][..0] == []; }
    assert Sum(ws[..2]) == 5.0 by { assert ws[..2][..1] == ws[..1]; }
    assert Sum(ws[..3]) == 7.0 by { assert ws[..3][..2] == ws[..2]; }
    assert Sum(ws[..4]) == 9.0 by { assert ws[..4][..3] == ws[..3]; }
  }

  /** `WeightedSnapshot(zip([5, 1, 2, 3, 4], [1, 2, 3, 2, 2]))` sorts to
      values 1..5 with normalised weights 0.2, 0.3, 0.2, 0.2, 0.1. */
  lemma WeightedOfTestSamples()
    ensures TotalWeight([(5.0, 1.0), (1.0, 2.0), (2.0, 3.0), (3.0, 2.0), (4.0, 2.0)]) == 10.0
    ensures NewWeighted([(5.0, 1.0), (1.0, 2.0), (2.0, 3.0), (3.0, 2.0), (4.0, 2.0)])
         == WeightedSnapshot([1.0, 2.0, 3.0, 4.0, 5.0], [0.2, 0.3, 0.2, 0.2, 0.1], [0.0, 0.2, 0.5, 0.7, 0.9])
  {
    TestSamplesTotalWeight();
    TestSamplesSortOrder();
    TestNormalisedWeights();
    TestSortedProjections();
  }

  /** The weighted quantiles the test suite expects. */
  lemma WeightedTestQuantiles()
    ensures var w := WeightedSnapshot([1.0, 2.0, 3.0, 4.0, 5.0], [0.2, 0.3, 0.2, 0.2, 0.1], [0.0, 0.2, 0.5, 0.7, 0.9]);
            && WeightedValueAt(w, 0.01) == 1.0
            && WeightedValueAt(w, 0.75) == 4.0
            && WeightedValueAt(w, 0.95) == 5.0
            && WeightedValueAt(w, 1.0) == 5.0
  {
    var w := WeightedSnapshot([1.0, 2.0, 3.0, 4.0, 5.0], [0.2, 0.3, 0.2, 0.2, 0.1], [0.0, 0.2, 0.5, 0.7, 0.9]);
    assert FirstAbove(w.quantiles, 0.01) == 1;
    assert FirstAbove(w.quantiles, 0.75) == 4;
  }

  /** The weighted mean the test suite expects. */
  lemma WeightedTestMean()
    ensures WeightedMean(WeightedSnapshot([1.0, 2.0, 3.0, 4.0, 5.0], [0.2, 0.3, 0.2, 0.2, 0.1], [0.0, 0.2, 0.5, 0.7, 0.9])) == 2.7
  {
    var v, n := [1.0, 2.0, 3.0, 4.0, 5.0], [0.2, 0.3, 0.2, 0.2, 0.1];
    assert WeightedSum(v[..1], n[..1]) == 0.2 by { assert v[..1][..0] == [] && n[..1][..0] == []; }
    assert WeightedSum(v[..2], n[..2]) == 0.8 by { assert v[..2][..1] == v[..1] && n[..2][..1] == n[..1]; }
    assert WeightedSum(v[..3], n[..3]) == 1.4 by { assert v[..3][..2] == v[..2] && n[..3][..2] == n[..2]; }
    assert WeightedSum(v[..4], n[..4]) == 2.2 by { assert v[..4][..3] == v[..3] && n[..4][..3] == n[..3]; }
  }
}
