/** The KPI block of the Home page: average, median and maximum salary,
    record count and most frequent job title, with the empty-table fallback. */
module Kpis {
  import opened Table
  import opened Stats

  datatype Summary = Summary(average: real, median: real, maximum: real, count: nat)

  datatype Kpis = Kpis(summary: Summary, topTitle: string)

  /** mean, median, max and len of a non-empty table's salary column. */
  function Summarize(t: Table): (s: Summary)
    requires |t| > 0
    ensures s.count == |t|
    ensures forall i :: 0 <= i < |t| ==> t[i].salary <= s.maximum
    ensures exists i :: 0 <= i < |t| && t[i].salary == s.maximum
    ensures MinOf(Salaries(t)) <= s.average <= s.maximum
    ensures MinOf(Salaries(t)) <= s.median <= s.maximum
  {
    var col := Salaries(t);
    MeanBounds(col);
    var top := MaxOf(col);
    assert forall i :: 0 <= i < |t| ==> t[i].salary <= top by {
      forall i | 0 <= i < |t| ensures t[i].salary <= top {
        assert col[i] in col;
      }
    }
    Summary(Mean(col), Median(col), top, |t|)
  }

  /** The zeros and "-" shown when no row passes the filter. */
  const EmptyKpis := Kpis(Summary(0.0, 0.0, 0.0, 0), "-")

  function HomeKpis(t: Table): (k: Kpis)
    ensures t == [] ==> k == EmptyKpis
    ensures t != [] ==> k.summary.count == |t|
    ensures t != [] ==> k.summary.median <= k.summary.maximum && k.summary.average <= k.summary.maximum
    ensures t != [] ==> forall i :: 0 <= i < |t| ==> t[i].salary <= k.summary.maximum
    ensures t != [] ==> k.topTitle in Column(t, RoleOf)
    ensures t != [] ==> forall i :: 0 <= i < |t| ==>
      Count(Column(t, RoleOf), t[i].role) <= Count(Column(t, RoleOf), k.topTitle)
  {
    if t == [] then EmptyKpis
    else
      var roles := Column(t, RoleOf);
      assert forall i :: 0 <= i < |t| ==> t[i].role in roles by {
        forall i | 0 <= i < |t| ensures t[i].role in roles {
          assert roles[i] == t[i].role;
        }
      }
      Kpis(Summarize(t), Mode(roles))
  }
}
