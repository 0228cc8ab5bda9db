/**
 * Summary statistics over one metric column (`computeStats`,
 * docs/script.js:362-384), after the finite-value filter that precedes it
 * (docs/script.js:328). `Math.sqrt` enters as a parameter.
 */
module Stats {
  import opened GeoJson
  import opened Arith
  import Sequences

  datatype Summary = Summary(count: nat, sum: real, mean: real, stdDev: real, min: real, max: real)

  /** How many entries of a column are NaN or infinite. */
  function NonFiniteCount(values: seq<Number>): nat {
    multiset(values)[NaN] + multiset(values)[PosInf] + multiset(values)[NegInf]
  }

  /** `values.filter(isFinite)` on a column of numbers. */
  function FiniteValues(values: seq<Number>): (r: seq<real>)
    ensures |r| <= |values|
    ensures forall x :: x in r <==> Finite(x) in values
  {
    if values == [] then []
    else
      var init, last := values[..|values| - 1], values[|values| - 1];
      Sequences.SplitLast(values);
      FiniteValues(init) + (if last.Finite? then [last.r] else [])
  }

  /** One entry more in the column: its multiset grows by that entry, the filter's by its value if finite. */
  lemma FiniteValuesStep(values: seq<Number>)
    requires |values| > 0
    ensures var init, last := values[..|values| - 1], values[|values| - 1];
            && multiset(values) == multiset(init) + multiset{last}
            && multiset(FiniteValues(values))
               == multiset(FiniteValues(init)) + (if last.Finite? then multiset{last.r} else multiset{})
  {
    var init, last := values[..|values| - 1], values[|values| - 1];
    Sequences.SplitLast(values);
    var part := if last.Finite? then [last.r] else [];
    assert multiset(FiniteValues(values)) == multiset(FiniteValues(init)) + multiset(part);
  }

  /** One entry more in the column: the filter and the non-finite count each grow by the entry's share. */
  lemma FiniteValuesLengthStep(values: seq<Number>)
    requires |values| > 0
    ensures var init, last := values[..|values| - 1], values[|values| - 1];
            && |FiniteValues(values)| == |FiniteValues(init)| + (if last.Finite? then 1 else 0)
            && NonFiniteCount(values) == NonFiniteCount(init) + (if last.Finite? then 0 else 1)
  {
    var init, last := values[..|values| - 1], values[|values| - 1];
    Sequences.SplitLast(values);
    assert multiset(values) == multiset(init) + multiset{last};
  }

  /** The filter drops exactly the NaN and infinite entries. */
  lemma {:induction false} FiniteValuesLength(values: seq<Number>)
    ensures |FiniteValues(values)| + NonFiniteCount(values) == |values|
  {
    if values != [] {
      FiniteValuesLengthStep(values);
      FiniteValuesLength(values[..|values| - 1]);
    }
  }

  /** The filter keeps each finite entry as often as it occurs. */
  lemma {:induction false} FiniteValuesMultiplicity(values: seq<Number>)
    ensures forall x :: multiset(FiniteValues(values))[x] == multiset(values)[Finite(x)]
  {
    if values != [] {
      FiniteValuesStep(values);
      FiniteValuesMultiplicity(values[..|values| - 1]);
    }
  }

  /** `values.reduce((acc, value) => acc + value, 0)`, folding from the left. */
  function Sum(xs: seq<real>): real {
    if xs == [] then 0.0 else Sum(xs[..|xs| - 1]) + xs[|xs| - 1]
  }

  function Square(d: real): (s: real)
    ensures s >= 0.0
  {
    d * d
  }

  /** `values.reduce((acc, value) => acc + Math.pow(value - mean, 2), 0)`. */
  function SquaredDeviations(xs: seq<real>, mean: real): (r: real)
    ensures r >= 0.0
  {
    if xs == [] then 0.0 else SquaredDeviations(xs[..|xs| - 1], mean) + Square(xs[|xs| - 1] - mean)
  }

  function Mean(xs: seq<real>): real
    requires |xs| > 0
  {
    Sum(xs) / (|xs| as real)
  }

  /** Population variance: the squared deviations divided by the count, not the count minus one. */
  function Variance(xs: seq<real>): (v: real)
    requires |xs| > 0
    ensures v >= 0.0
  {
    QuotientNonNegative(SquaredDeviations(xs, Mean(xs)), |xs| as real);
    SquaredDeviations(xs, Mean(xs)) / (|xs| as real)
  }

  /** `Math.min(...values)`. */
  function MinOf(xs: seq<real>): (m: real)
    requires |xs| > 0
    ensures m in xs && forall x :: x in xs ==> m <= x
  {
    if |xs| == 1 then xs[0]
    else
      var init, last := xs[..|xs| - 1], xs[|xs| - 1];
      assert xs == init + [last];
      var m := MinOf(init);
      if last < m then last else m
  }

  /** `Math.max(...values)`. */
  function MaxOf(xs: seq<real>): (m: real)
    requires |xs| > 0
    ensures m in xs && forall x :: x in xs ==> x <= m
  {
    if |xs| == 1 then xs[0]
    else
      var init, last := xs[..|xs| - 1], xs[|xs| - 1];
      assert xs == init + [last];
      var m := MaxOf(init);
      if last > m then last else m
  }

  lemma {:induction false} SumAtLeast(xs: seq<real>, lo: real)
    requires forall x :: x in xs ==> lo <= x
    ensures Sum(xs) >= (|xs| as real) * lo
  {
    if xs != [] {
      var init := xs[..|xs| - 1];
      assert forall x :: x in init ==> x in xs;
      SumAtLeast(init, lo);
      assert xs[|xs| - 1] in xs;
      assert (|init| as real) * lo + lo == (|xs| as real) * lo;
    }
  }

  lemma {:induction false} SumAtMost(xs: seq<real>, hi: real)
    requires forall x :: x in xs ==> x <= hi
    ensures Sum(xs) <= (|xs| as real) * hi
  {
    if xs != [] {
      var init := xs[..|xs| - 1];
      assert forall x :: x in init ==> x in xs;
      SumAtMost(init, hi);
      assert xs[|xs| - 1] in xs;
      assert (|init| as real) * hi + hi == (|xs| as real) * hi;
    }
  }

  /** The mean lies between the smallest and the largest value. */
  lemma {:induction false} MeanBetweenMinAndMax(xs: seq<real>)
    requires |xs| > 0
    ensures MinOf(xs) <= Mean(xs) <= MaxOf(xs)
  {
    SumAtLeast(xs, MinOf(xs));
    SumAtMost(xs, MaxOf(xs));
    QuotientBounds(Sum(xs), |xs| as real, MinOf(xs), MaxOf(xs));
  }

  /** `computeStats`. */
  function ComputeStats(values: seq<real>, sqrt: real -> real): (s: Summary)
    ensures s.count == |values|
    ensures |values| == 0 ==> s == Summary(0, 0.0, 0.0, 0.0, 0.0, 0.0)
    ensures |values| > 0 ==>
              && s.sum == Sum(values)
              && s.mean == Mean(values)
              && s.min in values && s.max in values
              && (forall x :: x in values ==> s.min <= x <= s.max)
              && s.min <= s.mean <= s.max
              && s.stdDev == sqrt(Variance(values))
  {
    var count := |values|;
    if count == 0 then Summary(0, 0.0, 0.0, 0.0, 0.0, 0.0)
    else
      MeanBetweenMinAndMax(values);
      Summary(count, Sum(values), Mean(values), sqrt(Variance(values)), MinOf(values), MaxOf(values))
  }

  /**
   * One row of the statistics table: the statistics of the column's finite
   * entries. NaN and infinite entries are neither counted nor summed.
   */
  function SummaryRow(column: seq<Number>, sqrt: real -> real): (s: Summary)
    ensures s.count + NonFiniteCount(column) == |column|
    ensures (forall i :: 0 <= i < |column| ==> column[i].Finite?) ==> s.count == |column|
    ensures (forall i :: 0 <= i < |column| ==> !column[i].Finite?) ==> s == Summary(0, 0.0, 0.0, 0.0, 0.0, 0.0)
    ensures s.count > 0 ==>
              var finite := FiniteValues(column);
              && s.sum == Sum(finite)
              && s.mean == Mean(finite)
              && s.stdDev == sqrt(Variance(finite))
              && Finite(s.min) in column && Finite(s.max) in column
              && (forall x :: Finite(x) in column ==> s.min <= x <= s.max)
  {
    var finite := FiniteValues(column);
    FiniteValuesAllFinite(column);
    FiniteValuesLength(column);
    ComputeStats(finite, sqrt)
  }

  /** A column mixing finite and non-finite entries is summarised over its finite entries alone. */
  lemma MixedColumnSummary(sqrt: real -> real)
    ensures var s := SummaryRow([Finite(1.0), NaN, Finite(3.0)], sqrt);
            s.count == 2 && s.sum == 4.0 && s.mean == 2.0 && s.min == 1.0 && s.max == 3.0
  {
    var column := [Finite(1.0), NaN, Finite(3.0)];
    assert column[..2] == [Finite(1.0), NaN];
    assert column[..2][..1] == [Finite(1.0)];
    assert FiniteValues(column) == [1.0, 3.0];
    assert Sum([1.0, 3.0]) == 4.0 by {
      assert [1.0, 3.0][..1] == [1.0];
    }
  }

  /** The filter of one entry: a finite entry's value, or nothing. */
  lemma FiniteValuesSingle(v: Number)
    ensures FiniteValues([v]) == if v.Finite? then [v.r] else []
  {
    assert [v][..0] == [];
  }

  /**
   * The filter works entry by entry and keeps their order: filtering a
   * concatenation concatenates the filtered parts.
   */
  lemma {:induction false} FiniteValuesAppend(a: seq<Number>, b: seq<Number>)
    ensures FiniteValues(a + b) == FiniteValues(a) + FiniteValues(b)
    decreases |b|
  {
    if b == [] {
      Sequences.AppendEmpty(a);
      Sequences.AppendEmpty(FiniteValues(a));
    } else {
      var init, last := b[..|b| - 1], b[|b| - 1];
      Sequences.SplitLast(b);
      Sequences.AppendSnoc(a, init, last);
      Sequences.SplitLast(a + b);
      FiniteValuesAppend(a, init);
      var tailPart := if last.Finite? then [last.r] else [];
      Sequences.Assoc(FiniteValues(a), FiniteValues(init), tailPart);
    }
  }

  lemma {:induction false} FiniteValuesAllFinite(values: seq<Number>)
    ensures (forall i :: 0 <= i < |values| ==> values[i].Finite?) ==> |FiniteValues(values)| == |values|
    ensures (forall i :: 0 <= i < |values| ==> !values[i].Finite?) ==> FiniteValues(values) == []
  {
    if values != [] {
      FiniteValuesAllFinite(values[..|values| - 1]);
    }
  }

  /** A column of equal values has that value as its mean and no spread. */
  lemma {:induction false} ConstantColumn(xs: seq<real>, c: real)
    requires |xs| > 0 && forall i :: 0 <= i < |xs| ==> xs[i] == c
    ensures Mean(xs) == c && Variance(xs) == 0.0
  {
    SumAtLeast(xs, c);
    SumAtMost(xs, c);
    var n := |xs| as real;
    assert Sum(xs) == n * c;
    assert (n * c) / n == c;
    NoDeviation(xs, c);
  }

  lemma {:induction false} NoDeviation(xs: seq<real>, c: real)
    requires forall i :: 0 <= i < |xs| ==> xs[i] == c
    ensures SquaredDeviations(xs, c) == 0.0
  {
    if xs != [] {
      NoDeviation(xs[..|xs| - 1], c);
      assert Square(xs[|xs| - 1] - c) == Square(0.0);
    }
  }
}
