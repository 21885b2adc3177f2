/** Home's automatic insight: the average of the period-over-period
    percentage changes of the yearly mean salary. */
module Growth {
  import opened Table
  import opened Stats
  import opened Grouping

  /** `pct_change()` with its leading NaN dropped: the relative change from
      each value to the next. */
  function PctChanges(m: seq<real>): (c: seq<real>)
    requires forall i :: 0 <= i < |m| - 1 ==> m[i] != 0.0
    ensures |c| == if |m| == 0 then 0 else |m| - 1
    ensures forall i :: 0 <= i < |c| ==> c[i] == m[i + 1] / m[i] - 1.0
  {
    if |m| < 2 then [] else [m[1] / m[0] - 1.0] + PctChanges(m[1..])
  }

  predicate NoZeroBase(m: seq<real>) {
    forall i :: 0 <= i < |m| - 1 ==> m[i] != 0.0
  }

  /** `pct_change().mean() * 100` over a series of yearly means; undefined
      with fewer than two means, or when a mean that serves as a base is 0
      (pandas would produce an infinite or NaN change). */
  function AverageGrowth(m: seq<real>): Option<real> {
    if |m| < 2 || !NoZeroBase(m) then None
    else Some(Mean(PctChanges(m)) * 100.0)
  }

  /** The growth insight over the filtered table: only when it is non-empty
      and holds more than one distinct year; yearly means in ascending year
      order. */
  function Growth(t: Table): Option<real> {
    if t == [] || |set y | y in Column(t, YearOf)| <= 1 then None
    else AverageGrowth(MeansOf(YearlyMeans(t)))
  }

  /** The insight appears only with more than one distinct year, and then
      exactly when no yearly mean but the last is 0. */
  lemma GrowthDefined(t: Table)
    ensures Growth(t).Some? <==>
      |set y | y in Column(t, YearOf)| > 1 && NoZeroBase(MeansOf(YearlyMeans(t)))
  {
    YearlyEvolution(t);
    if t == [] {
      assert (set y | y in Column(t, YearOf)) == {};
    }
  }

  /** When every yearly mean is positive and exceeds the one before, the
      trend is reported as growth (a positive percentage). */
  lemma RisingMeansGrow(m: seq<real>)
    requires |m| >= 2
    requires forall i :: 0 <= i < |m| ==> m[i] > 0.0
    requires forall i :: 0 <= i < |m| - 1 ==> m[i] < m[i + 1]
    ensures AverageGrowth(m).Some? && AverageGrowth(m).value > 0.0
  {
    var c := PctChanges(m);
    forall i | 0 <= i < |c| ensures c[i] > 0.0 {
      RatioAboveOne(m[i + 1], m[i]);
    }
    MeanBounds(c);
    assert MinOf(c) in c;
  }

  lemma RatioAboveOne(a: real, b: real)
    requires 0.0 < b < a
    ensures a / b > 1.0
  {
    assert (a - b) / b > 0.0;
    assert b / b + (a - b) / b == a / b;
    assert b / b == 1.0;
  }

  lemma RatioBelowOne(a: real, b: real)
    requires 0.0 < a < b
    ensures a / b < 1.0
  {
    assert (b - a) / b > 0.0;
    assert a / b + (b - a) / b == b / b;
    assert b / b == 1.0;
  }

  /** When every yearly mean is positive and below the one before, the trend
      is reported as a decrease (a negative percentage). */
  lemma FallingMeansShrink(m: seq<real>)
    requires |m| >= 2
    requires forall i :: 0 <= i < |m| ==> m[i] > 0.0
    requires forall i :: 0 <= i < |m| - 1 ==> m[i] > m[i + 1]
    ensures AverageGrowth(m).Some? && AverageGrowth(m).value < 0.0
  {
    var c := PctChanges(m);
    forall i | 0 <= i < |c| ensures c[i] < 0.0 {
      RatioBelowOne(m[i + 1], m[i]);
    }
    MeanBounds(c);
    assert MaxOf(c) in c;
  }

  /** Yearly means 100, 110, 121 grow 10% per year. */
  lemma TenPercentExample()
    ensures AverageGrowth([100.0, 110.0, 121.0]) == Some(10.0)
  {
    var m := [100.0, 110.0, 121.0];
    var c := PctChanges(m);
    assert c == [0.1, 0.1];
    assert c[1..] == [0.1] && c[1..][1..] == [];
    assert Sum([0.1]) == 0.1 + Sum([]);
    assert Sum(c) == 0.1 + Sum([0.1]);
  }

  /** The trend averages the period changes; it is not the change from the
      first year to the last: 100, 200, 100 reports +25% although the last
      mean equals the first. */
  lemma AverageOfChangesExample()
    ensures AverageGrowth([100.0, 200.0, 100.0]) == Some(25.0)
  {
    var m := [100.0, 200.0, 100.0];
    var c := PctChanges(m);
    assert c == [1.0, -0.5];
    assert c[1..] == [-0.5] && c[1..][1..] == [];
    assert Sum([-0.5]) == -0.5 + Sum([]);
    assert Sum(c) == 1.0 + Sum([-0.5]);
  }
}
