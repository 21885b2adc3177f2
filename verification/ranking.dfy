/** `nlargest(n)` over a grouped-mean result, and the ascending re-sort the
    horizontal bar charts apply to it. */
module Ranking {
  import opened Table
  import opened Order
  import opened Sorting
  import opened Grouping

  /** How many of the highest means the charts show. */
  const TopN: nat := 10

  function MeanOf<K>(g: Group<K>): real {
    g.mean
  }

  function Min(a: nat, b: nat): nat {
    if a < b then a else b
  }

  /** The first `k` entries of a descending sequence are each at least as
      large as every entry left out. */
  lemma PrefixDominates<T>(s: seq<T>, k: nat, val: T -> real)
    requires k <= |s|
    requires Descending(s, val)
    ensures forall x, y :: x in s[..k] && y in s && y !in s[..k] ==> val(x) >= val(y)
  {
    forall x, y | x in s[..k] && y in s && y !in s[..k] ensures val(x) >= val(y) {
      var i :| 0 <= i < k && s[..k][i] == x;
      forall j | 0 <= j < k ensures s[j] in s[..k] {
        assert s[..k][j] == s[j];
      }
      var j :| 0 <= j < |s| && s[j] == y;
    }
  }

  /** `nlargest(n, keep="first")`: the `n` rows with the highest means (all
      rows when there are fewer), highest first. Ties keep their original
      order, so on a tie at the cut the earlier row is kept: for every mean,
      the kept rows with that mean are the first rows of `g` with it. */
  function NLargest<K>(g: seq<Group<K>>, n: nat): (r: seq<Group<K>>)
    ensures |r| == Min(n, |g|)
    ensures multiset(r) <= multiset(g)
    ensures Descending(r, MeanOf)
    ensures forall x, y :: x in r && y in g && y !in r ==> x.mean >= y.mean
    ensures forall v :: Ties(r, MeanOf, v) <= Ties(g, MeanOf, v)
  {
    var s := SortDesc(g, MeanOf);
    SortDescStableAll(g, MeanOf);
    TopOfSorted(g, s, Min(n, |g|));
    s[..Min(n, |g|)]
  }

  /** The facts `NLargest` promises, for a prefix of a descending permutation. */
  lemma TopOfSorted<K>(g: seq<Group<K>>, s: seq<Group<K>>, k: nat)
    requires multiset(s) == multiset(g) && Descending(s, MeanOf) && k <= |s|
    requires forall v :: Ties(s, MeanOf, v) == Ties(g, MeanOf, v)
    ensures multiset(s[..k]) <= multiset(g)
    ensures Descending(s[..k], MeanOf)
    ensures forall x, y :: x in s[..k] && y in g && y !in s[..k] ==> x.mean >= y.mean
    ensures forall v :: Ties(s[..k], MeanOf, v) <= Ties(g, MeanOf, v)
  {
    forall v ensures Ties(s[..k], MeanOf, v) <= Ties(g, MeanOf, v) {
      TiesOfPrefix(s, k, MeanOf, v);
    }
    PrefixDominates(s, k, MeanOf);
    forall y | y in g ensures y in s {
      SameElements(s, g, y);
    }
    PrefixSubMultiset(s, k);
  }

  lemma PrefixSubMultiset<T>(s: seq<T>, k: nat)
    requires k <= |s|
    ensures multiset(s[..k]) <= multiset(s)
  {
    assert s == s[..k] + s[k..];
  }

  /** `.nlargest(10, …).sort_values(…)`: the ten best-paid groups, re-sorted
      ascending for a horizontal bar chart. Which of several equal means
      comes first is not fixed by pandas' default sort, and is not stated. */
  function TopForDisplay<K>(g: seq<Group<K>>): (r: seq<Group<K>>)
    ensures |r| == Min(TopN, |g|)
    ensures multiset(r) == multiset(NLargest(g, TopN))
    ensures Ascending(r, MeanOf)
  {
    SortAsc(NLargest(g, TopN), MeanOf)
  }

  /** The top-ten job titles (Home) and roles (Main Courts) by mean salary. */
  function TopTitles(t: Table): seq<Group<string>> {
    TopForDisplay(GroupMeans(t, RoleOf, StrLess))
  }

  /** Every entry of a top-ten chart is a role of the table shown with its
      mean salary; there are ten of them, or every role when there are
      fewer; every role left out has a mean no higher than any shown; and the
      bars run from the lowest mean to the highest. */
  lemma TopTitlesSpec(t: Table)
    ensures var r := TopTitles(t);
      && |r| == Min(TopN, |set x | x in Column(t, RoleOf)|)
      && (forall x :: x in r ==> x.key in Column(t, RoleOf) && x.mean == GroupMean(t, RoleOf, x.key))
      && (forall x, y :: x in r && y in GroupMeans(t, RoleOf, StrLess) && y !in r ==> x.mean >= y.mean)
      && Ascending(r, MeanOf)
  {
    var g := GroupMeans(t, RoleOf, StrLess);
    var r := TopTitles(t);
    var top := NLargest(g, TopN);
    StrLessIsStrictTotal();
    GroupCount(t, RoleOf, StrLess);
    forall x | x in r ensures x in top && x in g {
      SameElements(r, top, x);
      assert x in multiset(top);
    }
    GroupEntries(t, RoleOf, StrLess);
    forall y | y in g && y !in r ensures y !in top {
      SameElements(r, top, y);
    }
  }

  /** `groupby("residencia_iso3")[…].mean().nlargest(10)`: the ten countries
      with the highest mean salary, kept in descending order. */
  function CountryRanking(t: Table): seq<Group<string>> {
    NLargest(GroupMeans(t, CountryOf, StrLess), TopN)
  }

  /** The country ranking holds min(10, number of countries) countries of
      the table with their mean salaries, highest first, and no country left
      out earns a higher mean than one shown. Of countries with equal means,
      those shown are the first in country order, and in that order. */
  lemma CountryRankingSpec(t: Table)
    ensures var r := CountryRanking(t);
      && |r| == Min(TopN, |set x | x in Column(t, CountryOf)|)
      && (forall x :: x in r ==> x.key in Column(t, CountryOf) && x.mean == GroupMean(t, CountryOf, x.key))
      && (forall x, y :: x in r && y in GroupMeans(t, CountryOf, StrLess) && y !in r ==> x.mean >= y.mean)
      && Descending(r, MeanOf)
      && (forall v :: Ties(r, MeanOf, v) <= Ties(GroupMeans(t, CountryOf, StrLess), MeanOf, v))
  {
    var g := GroupMeans(t, CountryOf, StrLess);
    var r := CountryRanking(t);
    StrLessIsStrictTotal();
    GroupCount(t, CountryOf, StrLess);
    forall x | x in r ensures x in g {
      assert x in multiset(r);
    }
    GroupEntries(t, CountryOf, StrLess);
  }

  /** On a tie at the cut the group listed first wins: with means 200 for
      "A" and "B", `nlargest(1)` keeps "A". */
  lemma KeepFirstOnTie()
    ensures NLargest([Group("A", 200.0), Group("B", 200.0)], 1) == [Group("A", 200.0)]
  {
  }
}
