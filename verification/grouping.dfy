/** `groupby(key)[value].mean()`: one row per distinct key, in the sorted
    order pandas gives group keys, holding the mean salary of that key's rows. */
module Grouping {
  import opened Table
  import opened Order
  import opened Stats

  datatype Group<K> = Group(key: K, mean: real)

  /** The rows whose key is `k`. */
  function Members<K(==)>(t: Table, key: Record -> K, k: K): Table {
    Where(t, (r: Record) => key(r) == k)
  }

  lemma MembersExact<K>(t: Table, key: Record -> K, k: K)
    ensures forall r :: r in Members(t, key, k) <==> r in t && key(r) == k
  {
    forall r | r in t && key(r) == k ensures r in Members(t, key, k) {
      WhereKeeps(t, (r: Record) => key(r) == k, r);
    }
  }

  lemma MembersNonEmpty<K>(t: Table, key: Record -> K, k: K)
    requires k in Column(t, key)
    ensures |Members(t, key, k)| > 0
  {
    var i :| 0 <= i < |t| && Column(t, key)[i] == k;
    MembersExact(t, key, k);
    assert t[i] in Members(t, key, k);
  }

  function GroupMean<K(==)>(t: Table, key: Record -> K, k: K): real
    requires k in Column(t, key)
  {
    MembersNonEmpty(t, key, k);
    Mean(Salaries(Members(t, key, k)))
  }

  function MeansFor<K(==)>(t: Table, key: Record -> K, ks: seq<K>): (r: seq<Group<K>>)
    requires forall k :: k in ks ==> k in Column(t, key)
    ensures |r| == |ks|
    ensures forall i :: 0 <= i < |ks| ==> r[i].key == ks[i]
    ensures forall i :: 0 <= i < |ks| ==> r[i].mean == GroupMean(t, key, ks[i])
  {
    if ks == [] then []
    else [Group(ks[0], GroupMean(t, key, ks[0]))] + MeansFor(t, key, ks[1..])
  }

  function GroupMeans<K(==,!new)>(t: Table, key: Record -> K, lt: (K, K) -> bool): seq<Group<K>> {
    MeansFor(t, key, Keys(Column(t, key), lt))
  }

  /** The group keys come out strictly ascending, hence each key once. */
  lemma GroupKeysAscending<K(!new)>(t: Table, key: Record -> K, lt: (K, K) -> bool)
    requires StrictTotalOrder(lt)
    ensures var g := GroupMeans(t, key, lt);
      forall i, j :: 0 <= i < j < |g| ==> lt(g[i].key, g[j].key)
  {
    KeysSorted(Column(t, key), lt);
  }

  /** There are as many rows as distinct keys in the table. */
  lemma GroupCount<K(!new)>(t: Table, key: Record -> K, lt: (K, K) -> bool)
    requires StrictTotalOrder(lt)
    ensures |GroupMeans(t, key, lt)| == |set x | x in Column(t, key)|
  {
    NUniqueIsKeyCount(Column(t, key), lt);
  }

  /** The key column of a grouped result. */
  function KeysOf<K>(g: seq<Group<K>>): (r: seq<K>)
    ensures |r| == |g|
    ensures forall i :: 0 <= i < |g| ==> r[i] == g[i].key
  {
    if g == [] then [] else [g[0].key] + KeysOf(g[1..])
  }

  /** The mean column of a grouped result. */
  function MeansOf<K>(g: seq<Group<K>>): (r: seq<real>)
    ensures |r| == |g|
    ensures forall i :: 0 <= i < |g| ==> r[i] == g[i].mean
  {
    if g == [] then [] else [g[0].mean] + MeansOf(g[1..])
  }

  /** The grouped result has a row for every key of the table and for no
      other key: the observed keys, not all conceivable ones. */
  lemma GroupCoverage<K(!new)>(t: Table, key: Record -> K, lt: (K, K) -> bool)
    ensures forall k :: k in KeysOf(GroupMeans(t, key, lt)) <==> k in Column(t, key)
  {
    assert KeysOf(GroupMeans(t, key, lt)) == Keys(Column(t, key), lt);
  }

  /** Every row of a grouped result is a key of the table with that key's
      mean salary. */
  lemma GroupEntries<K(!new)>(t: Table, key: Record -> K, lt: (K, K) -> bool)
    ensures forall x :: x in GroupMeans(t, key, lt) ==>
      x.key in Column(t, key) && x.mean == GroupMean(t, key, x.key)
  {
    var g := GroupMeans(t, key, lt);
    forall x | x in g ensures x.key in Column(t, key) && x.mean == GroupMean(t, key, x.key) {
      var i :| 0 <= i < |g| && g[i] == x;
      assert x.key in Keys(Column(t, key), lt);
    }
  }

  /** Each row holds the mean of the salaries of exactly the rows carrying
      its key, and that mean lies between their smallest and largest salary. */
  lemma GroupRowMean<K(!new)>(t: Table, key: Record -> K, lt: (K, K) -> bool, i: nat)
    requires i < |GroupMeans(t, key, lt)|
    ensures var g := GroupMeans(t, key, lt);
      var m := Members(t, key, g[i].key);
      && |m| > 0
      && (forall r :: r in m <==> r in t && key(r) == g[i].key)
      && g[i].mean == Mean(Salaries(m))
      && MinOf(Salaries(m)) <= g[i].mean <= MaxOf(Salaries(m))
  {
    var g := GroupMeans(t, key, lt);
    MembersNonEmpty(t, key, g[i].key);
    MembersExact(t, key, g[i].key);
    MeanBounds(Salaries(Members(t, key, g[i].key)));
  }

  /** `groupby("ano")["salario"].mean()` and `groupby("Year")["Salary_In_Usd"].mean()`. */
  function YearlyMeans(t: Table): seq<Group<int>> {
    GroupMeans(t, YearOf, IntLess)
  }

  /** The yearly evolution: one row per distinct year of the table and no
      other year, in ascending year order. */
  lemma YearlyEvolution(t: Table)
    ensures var g := YearlyMeans(t);
      && |g| == |set y | y in Column(t, YearOf)|
      && (forall i, j :: 0 <= i < j < |g| ==> g[i].key < g[j].key)
      && (forall y :: y in KeysOf(g) <==> y in Column(t, YearOf))
  {
    IntLessIsStrictTotal();
    GroupKeysAscending(t, YearOf, IntLess);
    GroupCount(t, YearOf, IntLess);
    GroupCoverage(t, YearOf, IntLess);
  }

  /** `groupby(["senioridade", "tamanho_empresa"])["salario"].mean()`. */
  function SeniorityBySizeMeans(t: Table): seq<Group<(string, string)>> {
    GroupMeans(t, SeniorityAndSize, PairLess)
  }

  /** The heatmap holds a row for every (seniority, company size) pair that
      occurs in the table and for no other pair: not the full cross product. */
  lemma HeatmapObservedPairsOnly(t: Table)
    ensures forall p :: p in KeysOf(SeniorityBySizeMeans(t)) <==> p in Column(t, SeniorityAndSize)
  {
    GroupCoverage(t, SeniorityAndSize, PairLess);
  }

  /** ... and exactly one row per such pair. */
  lemma HeatmapRowCount(t: Table)
    ensures |SeniorityBySizeMeans(t)| == |set p | p in Column(t, SeniorityAndSize)|
  {
    PairLessIsStrictTotal();
    GroupCount(t, SeniorityAndSize, PairLess);
  }

  /** The visible Data Scientist rows of country `c`. */
  function DsRows(vis: Table, c: string): Table {
    Members(Members(vis, RoleOf, "Data Scientist"), CountryOf, c)
  }

  /** Some visible row is a Data Scientist residing in `c`. */
  predicate HasDataScientistIn(vis: Table, c: string) {
    exists i :: 0 <= i < |vis| && vis[i].role == "Data Scientist" && vis[i].country == c
  }

  /** Home's map: the mean Data Scientist salary per country of residence,
      over the rows kept for charts; nothing when there is no such row.
      Otherwise there is one entry per country of a visible Data Scientist
      row, in country order, holding the mean salary of that country's
      visible Data Scientist rows. */
  function DataScientistByCountry(vis: Table): (r: Option<seq<Group<string>>>)
    ensures r.None? <==> forall i :: 0 <= i < |vis| ==> vis[i].role != "Data Scientist"
    ensures r.Some? ==> forall c :: c in KeysOf(r.value) <==> HasDataScientistIn(vis, c)
    ensures r.Some? ==> forall i, j :: 0 <= i < j < |r.value| ==> StrLess(r.value[i].key, r.value[j].key)
    ensures r.Some? ==> forall x :: x in r.value ==>
      |DsRows(vis, x.key)| > 0 && x.mean == Mean(Salaries(DsRows(vis, x.key)))
  {
    var ds := Members(vis, RoleOf, "Data Scientist");
    NoDataScientist(vis);
    if ds == [] then None
    else
      DataScientistKeys(vis);
      DataScientistMeans(vis);
      StrLessIsStrictTotal();
      GroupKeysAscending(ds, CountryOf, StrLess);
      Some(GroupMeans(ds, CountryOf, StrLess))
  }

  lemma NoDataScientist(vis: Table)
    ensures Members(vis, RoleOf, "Data Scientist") == [] <==>
      forall i :: 0 <= i < |vis| ==> vis[i].role != "Data Scientist"
  {
    var ds := Members(vis, RoleOf, "Data Scientist");
    MembersExact(vis, RoleOf, "Data Scientist");
    if ds != [] {
      assert ds[0] in ds;
    } else {
      forall i | 0 <= i < |vis| ensures vis[i].role != "Data Scientist" {
        assert vis[i] in vis;
      }
    }
  }

  /** The rows behind an entry of the map are exactly the visible Data
      Scientist rows of its country. */
  lemma DsRowsExact(vis: Table, c: string)
    ensures forall row :: row in DsRows(vis, c) <==>
      row in vis && row.role == "Data Scientist" && row.country == c
  {
    MembersExact(vis, RoleOf, "Data Scientist");
    MembersExact(Members(vis, RoleOf, "Data Scientist"), CountryOf, c);
  }

  /** The map's countries are those of the visible Data Scientist rows. */
  lemma DataScientistKeys(vis: Table)
    ensures var g := GroupMeans(Members(vis, RoleOf, "Data Scientist"), CountryOf, StrLess);
      forall c :: c in KeysOf(g) <==> HasDataScientistIn(vis, c)
  {
    var ds := Members(vis, RoleOf, "Data Scientist");
    MembersExact(vis, RoleOf, "Data Scientist");
    GroupCoverage(ds, CountryOf, StrLess);
    forall c ensures c in Column(ds, CountryOf) <==> HasDataScientistIn(vis, c) {
      if c in Column(ds, CountryOf) {
        var k :| 0 <= k < |ds| && Column(ds, CountryOf)[k] == c;
        assert ds[k] in ds;
        var i :| 0 <= i < |vis| && vis[i] == ds[k];
      }
      if HasDataScientistIn(vis, c) {
        var i :| 0 <= i < |vis| && vis[i].role == "Data Scientist" && vis[i].country == c;
        assert vis[i] in vis;
        var k :| 0 <= k < |ds| && ds[k] == vis[i];
        assert Column(ds, CountryOf)[k] == c;
      }
    }
  }

  /** Each entry of the map holds the mean salary of its country's rows. */
  lemma DataScientistMeans(vis: Table)
    ensures var g := GroupMeans(Members(vis, RoleOf, "Data Scientist"), CountryOf, StrLess);
      forall x :: x in g ==> |DsRows(vis, x.key)| > 0 && x.mean == Mean(Salaries(DsRows(vis, x.key)))
  {
    var ds := Members(vis, RoleOf, "Data Scientist");
    GroupEntries(ds, CountryOf, StrLess);
    forall x | x in GroupMeans(ds, CountryOf, StrLess)
      ensures |DsRows(vis, x.key)| > 0 && x.mean == Mean(Salaries(DsRows(vis, x.key)))
    {
      MembersNonEmpty(ds, CountryOf, x.key);
    }
  }
}
