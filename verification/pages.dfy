/** The three pages put together: what each shows for a data set and the
    sidebar choices, and how the sections relate. */
module Pages {
  import opened Table
  import opened Order
  import opened Stats
  import opened Sorting
  import opened Filter
  import opened Grouping
  import opened Kpis
  import opened Growth
  import opened Trim
  import opened Ranking
  import opened Comparison
  import opened Currency

  /** Everything the Home page computes: the KPI block and the growth
      insight over the filtered rows, the rows the charts keep, the top-ten
      chart and the Data Scientist map over those rows, and the job title
      comparison. A `None` is a section the page leaves out. */
  datatype HomeView = HomeView(
    kpis: Kpis,
    growth: Option<real>,
    visible: Table,
    topTitles: Option<seq<Group<string>>>,
    dsByCountry: Option<seq<Group<string>>>,
    comparison: Option<seq<RoleStats>>)

  /** The Home page for the data set `t`, the sidebar selection `sel` and the
      job titles `a` and `b` picked for the comparison. */
  function Home(t: Table, sel: Selection, a: string, b: string): HomeView {
    var f := FilterData(t, sel);
    var vis := TrimOutliers(f);
    HomeView(
      HomeKpis(f),
      Growth.Growth(f),
      vis,
      if vis == [] then None else Some(TopTitles(vis)),
      DataScientistByCountry(vis),
      if f == [] then None else Some(CompareRoles(f, a, b)))
  }

  /** With no row passing the filter, Home shows the zero KPIs and "-", and
      no insight, chart, map or comparison; with rows, it shows the KPIs of
      those rows, a top-ten chart and a comparison of at most two job titles. */
  lemma HomeEmptyFallback(t: Table, sel: Selection, a: string, b: string)
    ensures var v := Home(t, sel, a, b);
      FilterData(t, sel) == [] <==> v.kpis == EmptyKpis
    ensures var v := Home(t, sel, a, b);
      FilterData(t, sel) == [] ==>
        v.growth.None? && v.topTitles.None? && v.dsByCountry.None? && v.comparison.None?
    ensures var v := Home(t, sel, a, b);
      FilterData(t, sel) != [] ==>
        && v.kpis.summary.count == |FilterData(t, sel)|
        && v.topTitles.Some?
        && v.comparison.Some? && |v.comparison.value| <= 2
  {
    var f := FilterData(t, sel);
    if f != [] {
      CompareRolesSpec(f, a, b);
    }
  }

  /** The charts drop only outliers: the rows they keep are filtered rows in
      their order, and every filtered row at or below the 0.99 quantile of
      the filtered salaries is kept. The KPIs still count every filtered row. */
  lemma HomeChartsHideOnlyOutliers(t: Table, sel: Selection, a: string, b: string)
    ensures var v, f := Home(t, sel, a, b), FilterData(t, sel);
      && Subseq(v.visible, f)
      && (f != [] ==> forall x :: x in f && x.salary <= Quantile(Salaries(f), TrimLevel) ==> x in v.visible)
      && (f != [] ==> v.kpis.summary.count == |f|)
  {
  }

  /** The top-ten chart ranks the job titles of the visible rows: the KPIs
      and the chart may disagree on the maximum. With salaries 100 and 1000,
      the 0.99 quantile is 991, so the chart hides the 1000 row while the
      maximum KPI is 1000. */
  lemma KpiMaximumIncludesOutliers()
    ensures var t := [Row("A", 100.0), Row("B", 1000.0)];
      var v := Home(t, DefaultSelection(t), "A", "B");
      && v.kpis.summary.maximum == 1000.0
      && v.visible == [Row("A", 100.0)]
  {
    var t := [Row("A", 100.0), Row("B", 1000.0)];
    DefaultSelectionCovers(t);
    TrimExample();
    assert t[1].salary == 1000.0;
  }

  /** The 0.99 quantile of 100 and 1000 is 100 + 0.99 * 900 = 991, so the
      trim keeps the 100 row and drops the 1000 row. */
  lemma TrimExample()
    ensures TrimOutliers([Row("A", 100.0), Row("B", 1000.0)]) == [Row("A", 100.0)]
  {
    var ra, rb := Row("A", 100.0), Row("B", 1000.0);
    var t := [ra, rb];
    QuantileExample(Salaries(t));
    var p := (x: Record) => x.salary <= 991.0;
    assert t[1..] == [rb];
    assert Where([rb], p) == [];
    assert Where(t, p) == [ra];
  }

  lemma QuantileExample(s: seq<real>)
    requires s == [100.0, 1000.0]
    ensures Quantile(s, TrimLevel) == 991.0
  {
    SortTwo(s);
    assert Position(|s|, TrimLevel) == 0.99;
    assert (0.99).Floor == 0;
  }

  /** A row of the 2021 sample with a given job title and salary. */
  function Row(role: string, salary: real): Record {
    Record(2021, "SE", "FT", "M", role, "100", "USA", salary)
  }

  lemma SortTwo(s: seq<real>)
    requires |s| == 2 && s[0] <= s[1]
    ensures SortAsc(s, Identity) == s
  {
    assert s[1..][1..] == [];
    assert SortAsc(s[1..][1..], Identity) == [];
    assert SortAsc(s[1..], Identity) == [s[1]];
  }

  /** With the default selection (every value of every filter), the Home
      KPIs are those of the whole data set. */
  lemma DefaultHome(t: Table, a: string, b: string)
    ensures Home(t, DefaultSelection(t), a, b).kpis == HomeKpis(t)
    ensures Home(t, DefaultSelection(t), a, b).growth == Growth.Growth(t)
  {
    DefaultSelectionCovers(t);
  }

  /** What the Main Courts page shows once some row passes the filter, in
      the selected currency: the KPIs, the yearly evolution, the top roles,
      the (seniority, company size) heatmap, the comparison of two roles with
      its percentage, and the country ranking. The percentage reads the
      comparison's second row; with fewer than two rows that read raises and
      the page ends there, so `delta` and `ranking` are both `None`. A first
      mean of 0 gives an infinite or NaN percentage (`delta` is `None`)
      without raising, and the ranking is still shown. */
  datatype MainReport = MainReport(
    summary: Summary,
    yearly: seq<Group<int>>,
    topRoles: seq<Group<string>>,
    heatmap: seq<Group<(string, string)>>,
    comparison: seq<RoleStats>,
    delta: Option<real>,
    ranking: Option<seq<Group<string>>>)

  /** The page over the converted rows `f`, which it never sees empty. */
  function ReportOf(f: Table, c1: string, c2: string): MainReport
    requires f != []
  {
    var comp := CompareRoles(f, c1, c2);
    MainReport(
      Summarize(f),
      YearlyMeans(f),
      TopTitles(f),
      SeniorityBySizeMeans(f),
      comp,
      DeltaByPosition(comp),
      if |comp| < 2 then None else Some(CountryRanking(f)))
  }

  /** The Main Courts page: nothing past the warning when no row passes the
      filter, otherwise the report over the filtered rows in currency `m`. */
  function MainCourtsReport(t: Table, sel: Selection, m: Money, c1: string, c2: string): Option<MainReport> {
    var f := Converted(FilterData(t, sel), m);
    if f == [] then None else Some(ReportOf(f, c1, c2))
  }

  /** The page run step by step: filter, add the `salario` column to the
      filtered frame, stop when it is empty, then aggregate its view. */
  method MainCourts(t: Table, sel: Selection, m: Money, c1: string, c2: string) returns (r: Option<MainReport>)
    ensures r == MainCourtsReport(t, sel, m, c1, c2)
  {
    var frame := new Frame(FilterData(t, sel));
    frame.AddSalario(m);
    if |frame.rows| == 0 {
      return None;
    }
    var f := frame.View();
    r := Some(ReportOf(f, c1, c2));
  }

  /** The page stops exactly when the filter keeps no row; otherwise its
      KPIs count the filtered rows, its comparison holds at most two roles,
      each row with the mean and median of all filtered rows of its role, and
      it reaches the country ranking exactly when the two selected roles
      differ and both have filtered rows. */
  lemma MainStopsWhenEmpty(t: Table, sel: Selection, m: Money, c1: string, c2: string)
    ensures var r := MainCourtsReport(t, sel, m, c1, c2);
      r.None? <==> FilterData(t, sel) == []
    ensures var f, r := Converted(FilterData(t, sel), m), MainCourtsReport(t, sel, m, c1, c2);
      r.Some? ==>
        && r.value.summary.count == |FilterData(t, sel)|
        && |r.value.comparison| <= 2
        && (forall i :: 0 <= i < |r.value.comparison| ==> RowOfRole(f, r.value.comparison[i]))
        && (r.value.ranking.None? <==> !BothRoles(f, c1, c2))
  {
    var f := Converted(FilterData(t, sel), m);
    if f != [] {
      CompareRolesSpec(f, c1, c2);
      TwoRowsIffBothRoles(f, c1, c2);
    }
  }

  /** The percentage under the comparison, as the page computes it: it
      exists exactly when the two selected roles differ, both have filtered
      rows, and the mean of the one that sorts first is not 0; it then says
      by how much the mean of the role that sorts second exceeds that of the
      role that sorts first, in whichever order they were selected. */
  lemma MainDeltaDefined(t: Table, sel: Selection, m: Money, c1: string, c2: string)
    requires FilterData(t, sel) != []
    ensures var f, r := Converted(FilterData(t, sel), m), MainCourtsReport(t, sel, m, c1, c2).value;
      && (r.delta.Some? <==> BothRoles(f, c1, c2) && GroupMean(f, RoleOf, FirstRole(c1, c2)) != 0.0)
      && (r.delta.Some? ==>
            && r.comparison[0].role == FirstRole(c1, c2)
            && r.comparison[1].role == SecondRole(c1, c2)
            && r.comparison[1].mean == Grown(r.comparison[0].mean, r.delta.value))
  {
    DeltaByPositionSpec(Converted(FilterData(t, sel), m), c1, c2);
  }

  /** When the role picked first also sorts first, the page's percentage is
      the one its message describes: how much more `c2` earns than `c1`. */
  lemma MainDeltaInRoleOrder(t: Table, sel: Selection, m: Money, c1: string, c2: string)
    requires FilterData(t, sel) != []
    requires StrLess(c1, c2)
    ensures var r := MainCourtsReport(t, sel, m, c1, c2).value;
      r.delta == DeltaBySelection(r.comparison, c1, c2)
  {
    var f := Converted(FilterData(t, sel), m);
    if c1 in Column(f, RoleOf) && c2 in Column(f, RoleOf) {
      DeltaAgreesInRoleOrder(f, c1, c2);
    } else {
      TwoRowsIffBothRoles(f, c1, c2);
      DeltaBySelectionDefined(f, c1, c2);
    }
  }

  /** On the page itself, with "B" earning 100 and "A" earning 200, no
      filter and `c1` = "B", `c2` = "A": the page shows -50 where its message
      calls for +100. */
  lemma MainDeltaReversed()
    ensures var t := ExampleTable();
      var r := MainCourtsReport(t, DefaultSelection(t), USD, "B", "A").value;
      && r.delta == Some(-50.0)
      && DeltaBySelection(r.comparison, "B", "A") == Some(100.0)
  {
    var t := ExampleTable();
    DefaultSelectionCovers(t);
    UsdIsIdentity(t);
    DeltaByPositionReversed();
  }

  /** Converting the salary column leaves every other column as it was. */
  lemma {:induction false} ConvertedColumn<K>(t: Table, m: Money, key: Record -> K)
    requires forall r: Record, x: real :: key(r) == key(r.(salary := x))
    ensures Column(Converted(t, m), key) == Column(t, key)
  {
    if t != [] {
      ConvertedColumn(t[1..], m, key);
      assert Converted(t, m)[1..] == Converted(t[1..], m);
    }
  }

  /** In euros a grouped result has the same keys in the same order, and
      every mean is 0.92 times the mean in dollars. */
  lemma EuroGroupMeans<K(!new)>(t: Table, key: Record -> K, lt: (K, K) -> bool)
    requires forall r: Record, x: real :: key(r) == key(r.(salary := x))
    ensures var e, u := GroupMeans(Converted(t, EUR), key, lt), GroupMeans(t, key, lt);
      && |e| == |u|
      && forall i :: 0 <= i < |u| ==> e[i].key == u[i].key && e[i].mean == 0.92 * u[i].mean
  {
    ConvertedColumn(t, EUR, key);
    var u := GroupMeans(t, key, lt);
    forall i | 0 <= i < |u| ensures GroupMeans(Converted(t, EUR), key, lt)[i].mean == 0.92 * u[i].mean {
      assert u[i].key in Keys(Column(t, key), lt);
      EuroGroupMean(t, key, u[i].key);
    }
  }

  /** Switching to euros rescales the average salary and every yearly mean
      by 0.92 and keeps the years, their order and the row count. */
  lemma EuroRescalesReport(t: Table, sel: Selection, c1: string, c2: string)
    requires FilterData(t, sel) != []
    ensures var e, u := MainCourtsReport(t, sel, EUR, c1, c2).value, MainCourtsReport(t, sel, USD, c1, c2).value;
      && e.summary.count == u.summary.count
      && e.summary.average == 0.92 * u.summary.average
      && |e.yearly| == |u.yearly|
      && forall i :: 0 <= i < |u.yearly| ==>
           e.yearly[i].key == u.yearly[i].key && e.yearly[i].mean == 0.92 * u.yearly[i].mean
  {
    var f := FilterData(t, sel);
    UsdIsIdentity(f);
    EuroMean(f);
    EuroGroupMeans(f, YearOf, IntLess);
  }
}
