/** Home's visual outlier removal: rows above the 0.99 quantile of the
    salary column are hidden from the charts (never from the KPIs). */
module Trim {
  import opened Table
  import opened Sorting
  import opened Stats

  /** The quantile Home trims at. */
  const TrimLevel: real := 0.99

  /** pandas `quantile(q)` with its default linear interpolation: the value at
      fractional position (n - 1) * q of the sorted column. */
  function Quantile(s: seq<real>, q: real): (v: real)
    requires |s| > 0 && 0.0 <= q <= 1.0
    ensures MinOf(s) <= v <= MaxOf(s)
  {
    var ss := SortAsc(s, Identity);
    var v := Interpolate(ss, Position(|ss|, q));
    InRange(s, ss, v);
    v
  }

  /** The value at fractional position `h` of an ascending column: the value
      below it plus the fraction of the step to the next one. */
  function Interpolate(ss: seq<real>, h: real): (v: real)
    requires 0.0 <= h <= (|ss| - 1) as real
    requires Ascending(ss, Identity)
    ensures exists i, j :: 0 <= i < |ss| && 0 <= j < |ss| && ss[i] <= v <= ss[j]
  {
    var lo := h.Floor;
    var frac := h - lo as real;
    if lo + 1 < |ss| then
      assert ss[lo] <= ss[lo + 1] by { assert Identity(ss[lo]) <= Identity(ss[lo + 1]); }
      Between(ss[lo], ss[lo + 1], frac);
      ss[lo] + frac * (ss[lo + 1] - ss[lo])
    else
      ss[lo]
  }

  /** The fractional position (n - 1) * q of the `q` quantile among `n`
      sorted values; it falls inside the column. */
  function Position(n: nat, q: real): (h: real)
    requires n > 0 && 0.0 <= q <= 1.0
    ensures 0.0 <= h <= (n - 1) as real
  {
    var m := (n - 1) as real;
    assert m >= 0.0 && 1.0 - q >= 0.0;
    assert m * q >= 0.0;
    assert m * (1.0 - q) >= 0.0;
    m * q
  }

  /** Linear interpolation stays between its two end points. */
  lemma Between(a: real, b: real, f: real)
    requires a <= b && 0.0 <= f < 1.0
    ensures a <= a + f * (b - a) <= b
  {
    var d, g := b - a, 1.0 - f;
    assert f * d >= 0.0;
    assert g * d >= 0.0;
    assert f * d + g * d == d;
  }

  /** A value lying between two entries of a permutation of `s` lies between
      the smallest and largest value of `s`. */
  lemma InRange(s: seq<real>, ss: seq<real>, v: real)
    requires |s| > 0 && multiset(ss) == multiset(s)
    requires exists i, j :: 0 <= i < |ss| && 0 <= j < |ss| && ss[i] <= v <= ss[j]
    ensures MinOf(s) <= v <= MaxOf(s)
  {
    var i, j :| 0 <= i < |ss| && 0 <= j < |ss| && ss[i] <= v <= ss[j];
    SameElements(ss, s, ss[i]);
    SameElements(ss, s, ss[j]);
  }

  /** `df[df["Salary_In_Usd"] <= df["Salary_In_Usd"].quantile(0.99)]`, or the
      empty table itself. */
  function TrimOutliers(t: Table): (r: Table)
    ensures t == [] ==> r == t
    ensures Subseq(r, t)
    ensures t != [] ==> |r| > 0
    ensures t != [] ==> forall x :: x in r ==> x.salary <= Quantile(Salaries(t), TrimLevel)
    ensures t != [] ==> forall x :: x in t && x.salary <= Quantile(Salaries(t), TrimLevel) ==> x in r
  {
    if t == [] then t
    else
      var limit := Quantile(Salaries(t), TrimLevel);
      var r := Where(t, (x: Record) => x.salary <= limit);
      WhereIsSubseq(t, (x: Record) => x.salary <= limit);
      var i :| 0 <= i < |t| && t[i].salary == MinOf(Salaries(t));
      WhereKeeps(t, (x: Record) => x.salary <= limit, t[i]);
      forall x | x in t && x.salary <= limit ensures x in r {
        WhereKeeps(t, (x: Record) => x.salary <= limit, x);
      }
      r
  }
}
