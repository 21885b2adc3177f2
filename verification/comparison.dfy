/** The two-role comparison: `df[df[role].isin([a, b])].groupby(role)
    .agg(mean, median)`, the Main Courts `delta` read from it by row
    position, and the Role Comparison insight read from it by role name. */
module Comparison {
  import opened Table
  import opened Order
  import opened Stats
  import opened Grouping

  /** One row of the comparison: a role with the mean and median salary of
      its rows. */
  datatype RoleStats = RoleStats(role: string, mean: real, median: real)

  /** The `isin([a, b])` mask on the role column. */
  predicate EitherRole(a: string, b: string, r: Record) {
    r.role == a || r.role == b
  }

  function Selected(t: Table, a: string, b: string): Table {
    Where(t, (r: Record) => EitherRole(a, b, r))
  }

  function StatsFor(t: Table, ks: seq<string>): (r: seq<RoleStats>)
    requires forall k :: k in ks ==> k in Column(t, RoleOf)
    ensures |r| == |ks|
    ensures forall i :: 0 <= i < |ks| ==> r[i].role == ks[i] && RowOfRole(t, r[i])
  {
    if ks == [] then []
    else [StatsOf(t, ks[0])] + StatsFor(t, ks[1..])
  }

  /** `agg(mean, median)` for one role of the table: both figures are taken
      over the non-empty set of exactly the table's rows of that role, and
      both lie between the smallest and the largest of their salaries. */
  function StatsOf(t: Table, k: string): (r: RoleStats)
    requires k in Column(t, RoleOf)
    ensures r.role == k && RowOfRole(t, r)
    ensures var m := Members(t, RoleOf, k);
      && |m| > 0
      && (forall x :: x in m <==> x in t && x.role == k)
      && MinOf(Salaries(m)) <= r.mean <= MaxOf(Salaries(m))
      && MinOf(Salaries(m)) <= r.median <= MaxOf(Salaries(m))
  {
    MembersNonEmpty(t, RoleOf, k);
    MembersExact(t, RoleOf, k);
    MeanBounds(Salaries(Members(t, RoleOf, k)));
    RoleStats(k, GroupMean(t, RoleOf, k), Median(Salaries(Members(t, RoleOf, k))))
  }

  /** The roles the comparison has a row for, in sorted order. */
  function ComparedRoles(t: Table, a: string, b: string): seq<string> {
    Keys(Column(Selected(t, a, b), RoleOf), StrLess)
  }

  /** The comparison table: one row per selected role present in `t`, in
      sorted role order. */
  function CompareRoles(t: Table, a: string, b: string): seq<RoleStats> {
    StatsFor(Selected(t, a, b), ComparedRoles(t, a, b))
  }

  function RolesOf(c: seq<RoleStats>): (r: seq<string>)
    ensures |r| == |c|
    ensures forall i :: 0 <= i < |c| ==> r[i] == c[i].role
  {
    if c == [] then [] else [c[0].role] + RolesOf(c[1..])
  }

  /** A role is a selected role of the table exactly when it is in the
      table's role column and is one of the two selected. */
  lemma SelectedRoles(t: Table, a: string, b: string)
    ensures forall k :: k in Column(Selected(t, a, b), RoleOf) <==>
      (k == a || k == b) && k in Column(t, RoleOf)
  {
    var p := (r: Record) => EitherRole(a, b, r);
    var sel := Selected(t, a, b);
    forall k | k in Column(sel, RoleOf) ensures (k == a || k == b) && k in Column(t, RoleOf) {
      var i :| 0 <= i < |sel| && Column(sel, RoleOf)[i] == k;
      assert sel[i] in sel;
      var j :| 0 <= j < |t| && t[j] == sel[i];
      assert Column(t, RoleOf)[j] == k;
    }
    forall k | (k == a || k == b) && k in Column(t, RoleOf) ensures k in Column(sel, RoleOf) {
      var j :| 0 <= j < |t| && Column(t, RoleOf)[j] == k;
      WhereKeeps(t, p, t[j]);
      var i :| 0 <= i < |sel| && sel[i] == t[j];
      assert Column(sel, RoleOf)[i] == k;
    }
  }

  /** The rows of a selected role are the same whether taken from the
      selection or from the whole table. */
  lemma {:induction false} SelectedMembers(t: Table, a: string, b: string, k: string)
    requires k == a || k == b
    ensures Members(Selected(t, a, b), RoleOf, k) == Members(t, RoleOf, k)
  {
    if t != [] {
      SelectedMembers(t[1..], a, b, k);
      var rest := Selected(t[1..], a, b);
      if EitherRole(a, b, t[0]) {
        var s := [t[0]] + rest;
        assert Selected(t, a, b) == s;
        assert s[0] == t[0] && s[1..] == rest;
      } else {
        assert RoleOf(t[0]) != k;
        assert Members(t, RoleOf, k) == Members(t[1..], RoleOf, k);
      }
    }
  }

  /** The compared roles: at most two, strictly ascending, and exactly those
      of the two selected that occur in the table. */
  lemma ComparedRolesSpec(t: Table, a: string, b: string)
    ensures var ks := ComparedRoles(t, a, b);
      && |ks| <= 2
      && (forall i, j :: 0 <= i < j < |ks| ==> StrLess(ks[i], ks[j]))
      && (forall k :: k in ks <==> (k == a || k == b) && k in Column(t, RoleOf))
  {
    var ks := ComparedRoles(t, a, b);
    StrLessIsStrictTotal();
    KeysSorted(Column(Selected(t, a, b), RoleOf), StrLess);
    SelectedRoles(t, a, b);
    AtMostTwo(ks, a, b);
  }

  /** A strictly ascending sequence of roles drawn from two has at most two. */
  lemma AtMostTwo(ks: seq<string>, a: string, b: string)
    requires forall i, j :: 0 <= i < j < |ks| ==> StrLess(ks[i], ks[j])
    requires forall k :: k in ks ==> k == a || k == b
    ensures |ks| <= 2
  {
    StrLessIsStrictTotal();
    SortedCard(ks, StrLess);
    SubsetCard(set x | x in ks, {a, b});
  }

  /** When `c1` sorts before `c2` and both occur, the comparison's rows are
      `c1`'s and then `c2`'s. */
  lemma RolesInOrder(t: Table, c1: string, c2: string)
    requires StrLess(c1, c2)
    requires c1 in Column(t, RoleOf) && c2 in Column(t, RoleOf)
    ensures ComparedRoles(t, c1, c2) == [c1, c2]
  {
    var ks := ComparedRoles(t, c1, c2);
    ComparedRolesSpec(t, c1, c2);
    StrLessIrreflexive(c1);
    TwoKeys(ks, c1, c2, true, true);
    assert ks[0] in ks && ks[1] in ks;
    StrLessIsStrictTotal();
    assert ks[0] == c1 && ks[1] == c2;
  }

  /** The comparison has one row for each of the two roles that occurs in
      the table and no other row, so at most two; its roles are in strictly
      ascending order; and each row holds the mean and median salary of all
      the table's rows of that role. */
  lemma CompareRolesSpec(t: Table, a: string, b: string)
    ensures var c := CompareRoles(t, a, b);
      && |c| <= 2
      && (forall i, j :: 0 <= i < j < |c| ==> StrLess(c[i].role, c[j].role))
      && (forall k :: k in RolesOf(c) <==> (k == a || k == b) && k in Column(t, RoleOf))
      && (forall i :: 0 <= i < |c| ==> RowOfRole(t, c[i]))
  {
    var ks := ComparedRoles(t, a, b);
    var c := CompareRoles(t, a, b);
    ComparedRolesSpec(t, a, b);
    assert RolesOf(c) == ks;
    forall i | 0 <= i < |c| ensures RowOfRole(t, c[i]) {
      assert ks[i] in ks;
      SelectedMembers(t, a, b, ks[i]);
    }
  }

  /** `row` holds the mean and median salary of all of the table's rows of
      its role. */
  predicate RowOfRole(t: Table, row: RoleStats) {
    && row.role in Column(t, RoleOf)
    && |Members(t, RoleOf, row.role)| > 0
    && row.mean == GroupMean(t, RoleOf, row.role)
    && row.median == Median(Salaries(Members(t, RoleOf, row.role)))
  }

  /** The mean of role `k` in a comparison table, looked up by name. */
  function MeanFor(c: seq<RoleStats>, k: string): (m: Option<real>)
    ensures m.Some? <==> k in RolesOf(c)
    ensures m.Some? ==> exists i :: 0 <= i < |c| && c[i].role == k && c[i].mean == m.value
  {
    if c == [] then None
    else if c[0].role == k then Some(c[0].mean)
    else
      var m := MeanFor(c[1..], k);
      assert RolesOf(c) == [c[0].role] + RolesOf(c[1..]);
      if m.Some? then
        var i :| 0 <= i < |c[1..]| && c[1..][i].role == k && c[1..][i].mean == m.value;
        assert c[i + 1].role == k;
        m
      else
        m
  }

  /** Looking a selected role up by name in the comparison finds it exactly
      when it occurs in the table, and then finds its whole-table mean. */
  lemma LookupByName(t: Table, a: string, b: string, k: string)
    requires k == a || k == b
    ensures var m := MeanFor(CompareRoles(t, a, b), k);
      && (m.Some? <==> k in Column(t, RoleOf))
      && (m.Some? ==> m.value == GroupMean(t, RoleOf, k))
  {
    var c := CompareRoles(t, a, b);
    CompareRolesSpec(t, a, b);
    var m := MeanFor(c, k);
    if m.Some? {
      var i :| 0 <= i < |c| && c[i].role == k && c[i].mean == m.value;
      assert RowOfRole(t, c[i]);
    }
  }

  /** Selecting "a and b" or "b and a" gives the same comparison table. */
  lemma CompareRolesSymmetric(t: Table, a: string, b: string)
    ensures CompareRoles(t, a, b) == CompareRoles(t, b, a)
  {
    SelectionSymmetric(t, a, b);
  }

  lemma {:induction false} SelectionSymmetric(t: Table, a: string, b: string)
    ensures Selected(t, a, b) == Selected(t, b, a)
  {
    if t != [] {
      SelectionSymmetric(t[1..], a, b);
    }
  }

  // ----- Main Courts: `delta` -----

  /** `base` increased by `pct` percent. */
  function Grown(base: real, pct: real): real {
    base * (1.0 + pct / 100.0)
  }

  /** Of two roles, the one the comparison lists first (sorted order). */
  function FirstRole(a: string, b: string): string {
    if StrLess(a, b) then a else b
  }

  /** Of two roles, the one the comparison lists second. */
  function SecondRole(a: string, b: string): string {
    if StrLess(a, b) then b else a
  }

  /** The comparison has two rows exactly when the two roles differ and both
      occur in the table; otherwise it has fewer, and `comp.loc[1]` fails. */
  lemma TwoRowsIffBothRoles(t: Table, a: string, b: string)
    ensures |CompareRoles(t, a, b)| == 2 <==> BothRoles(t, a, b)
    ensures |CompareRoles(t, a, b)| <= 2
  {
    var ks := ComparedRoles(t, a, b);
    ComparedRolesSpec(t, a, b);
    TwoKeys(ks, a, b, a in Column(t, RoleOf), b in Column(t, RoleOf));
  }

  /** Strictly ascending keys that are exactly those of `a` (when `pa`) and
      `b` (when `pb`) number two exactly when both are there and distinct. */
  lemma TwoKeys(ks: seq<string>, a: string, b: string, pa: bool, pb: bool)
    requires |ks| <= 2
    requires forall i, j :: 0 <= i < j < |ks| ==> StrLess(ks[i], ks[j])
    requires forall k :: k in ks <==> (k == a && pa) || (k == b && pb)
    ensures |ks| == 2 <==> a != b && pa && pb
  {
    if a != b && pa && pb {
      assert a in ks && b in ks;
      var i :| 0 <= i < |ks| && ks[i] == a;
      var j :| 0 <= j < |ks| && ks[j] == b;
      assert i != j;
    }
    if |ks| == 2 {
      StrLessIrreflexive(ks[0]);
      assert ks[0] in ks && ks[1] in ks;
    }
  }

  /** The delta as written, over a table: it is defined exactly when the two
      roles differ, both occur, and the mean of the role that sorts first is
      nonzero; it then compares the role that sorts second against the one
      that sorts first, whatever order they were selected in. */
  lemma DeltaByPositionSpec(t: Table, c1: string, c2: string)
    ensures var c, d := CompareRoles(t, c1, c2), DeltaByPosition(CompareRoles(t, c1, c2));
      && (d.Some? <==> BothRoles(t, c1, c2) && GroupMean(t, RoleOf, FirstRole(c1, c2)) != 0.0)
      && (d.Some? ==> |c| == 2 && c[0].role == FirstRole(c1, c2) && c[1].role == SecondRole(c1, c2))
  {
    var c := CompareRoles(t, c1, c2);
    TwoRowsIffBothRoles(t, c1, c2);
    if BothRoles(t, c1, c2) {
      var p, q := FirstRole(c1, c2), SecondRole(c1, c2);
      StrLessIsStrictTotal();
      assert StrLess(p, q);
      CompareRolesSymmetric(t, c1, c2);
      assert c == CompareRoles(t, p, q);
      RolesInOrder(t, p, q);
      CompareRolesSpec(t, p, q);
      assert RowOfRole(t, c[0]);
    }
  }

  /** `(x / base - 1) * 100`: by how many percent `x` exceeds `base`. */
  function PctOver(x: real, base: real): (p: real)
    requires base != 0.0
    ensures x == Grown(base, p)
  {
    var q := x / base;
    assert q * base == x;
    (q - 1.0) * 100.0
  }

  /** `(comp.loc[1, "media"] / comp.loc[0, "media"] - 1) * 100` as written:
      the second row in role order against the first. Undefined when the
      table has fewer than two rows (pandas raises KeyError) or the first
      mean is 0 (an infinite or NaN ratio). */
  function DeltaByPosition(c: seq<RoleStats>): (d: Option<real>)
    ensures d.Some? <==> |c| >= 2 && c[0].mean != 0.0
    ensures d.Some? ==> c[1].mean == Grown(c[0].mean, d.value)
  {
    if |c| < 2 || c[0].mean == 0.0 then None
    else Some(PctOver(c[1].mean, c[0].mean))
  }

  /** The delta the message describes: how much more role `c2` earns than
      role `c1`, with both means looked up by name in the comparison table.
      Undefined when the two roles coincide, one of them has no row, or
      `c1`'s mean is 0. */
  function DeltaBySelection(c: seq<RoleStats>, c1: string, c2: string): Option<real> {
    var m1, m2 := MeanFor(c, c1), MeanFor(c, c2);
    if c1 == c2 || m1.None? || m2.None? || m1.value == 0.0 then None
    else Some(PctOver(m2.value, m1.value))
  }

  /** The corrected delta is defined exactly when the two roles differ,
      both have a row and `c1`'s mean is nonzero; then `c2`'s mean is `c1`'s
      scaled by 1 + delta / 100, whatever order the rows are in. */
  lemma DeltaFromLookups(c: seq<RoleStats>, c1: string, c2: string)
    ensures var d, m1, m2 := DeltaBySelection(c, c1, c2), MeanFor(c, c1), MeanFor(c, c2);
      && (d.Some? <==> c1 != c2 && m1.Some? && m2.Some? && m1.value != 0.0)
      && (d.Some? ==> m2.value == Grown(m1.value, d.value))
  {
    var m1, m2 := MeanFor(c, c1), MeanFor(c, c2);
    if c1 != c2 && m1.Some? && m2.Some? && m1.value != 0.0 {
      var p := PctOver(m2.value, m1.value);
      assert DeltaBySelection(c, c1, c2) == Some(p);
    }
  }

  /** Over the comparison of `c1` and `c2` of a table, the corrected delta is
      defined exactly when both roles are distinct, both occur in the table
      and `c1`'s whole-table mean is nonzero. */
  lemma DeltaBySelectionDefined(t: Table, c1: string, c2: string)
    ensures DeltaBySelection(CompareRoles(t, c1, c2), c1, c2).Some? <==>
      BothRoles(t, c1, c2) && GroupMean(t, RoleOf, c1) != 0.0
  {
    var c := CompareRoles(t, c1, c2);
    LookupByName(t, c1, c2, c1);
    LookupByName(t, c1, c2, c2);
    DeltaFromLookups(c, c1, c2);
  }

  /** Two distinct roles, both occurring in the table. */
  predicate BothRoles(t: Table, a: string, b: string) {
    a != b && a in Column(t, RoleOf) && b in Column(t, RoleOf)
  }

  /** When `c1` sorts before `c2` the row order and the selection order
      agree, and the delta as written is the intended one. */
  lemma DeltaAgreesInRoleOrder(t: Table, c1: string, c2: string)
    requires StrLess(c1, c2)
    requires c1 in Column(t, RoleOf) && c2 in Column(t, RoleOf)
    ensures DeltaByPosition(CompareRoles(t, c1, c2)) == DeltaBySelection(CompareRoles(t, c1, c2), c1, c2)
  {
    RowsInOrder(t, c1, c2);
    StrLessIrreflexive(c1);
    PositionIsSelection(CompareRoles(t, c1, c2), c1, c2);
  }

  /** In a two-row comparison whose rows are `c1`'s and then `c2`'s, the
      two deltas agree. */
  lemma PositionIsSelection(c: seq<RoleStats>, c1: string, c2: string)
    requires |c| == 2 && c[0].role == c1 && c[1].role == c2 && c1 != c2
    ensures DeltaByPosition(c) == DeltaBySelection(c, c1, c2)
  {
    MeanForPair(c);
  }

  /** When `c1` sorts before `c2` and both occur, the comparison has two
      rows, `c1`'s first. */
  lemma RowsInOrder(t: Table, c1: string, c2: string)
    requires StrLess(c1, c2)
    requires c1 in Column(t, RoleOf) && c2 in Column(t, RoleOf)
    ensures var c := CompareRoles(t, c1, c2);
      |c| == 2 && c[0].role == c1 && c[1].role == c2
  {
    RolesInOrder(t, c1, c2);
  }

  /** In a two-row comparison with distinct roles, looking either role up by
      name finds its row. */
  lemma MeanForPair(c: seq<RoleStats>)
    requires |c| == 2 && c[0].role != c[1].role
    ensures MeanFor(c, c[0].role) == Some(c[0].mean)
    ensures MeanFor(c, c[1].role) == Some(c[1].mean)
  {
    assert c[1..][0] == c[1];
  }

  /** The discrepancy: rows "B" earning 100 and "A" earning 200, with
      c1 = "B" and c2 = "A". "A" earns twice what "B" does, so the message
      "A pays on average …% more than B" should carry +100; the delta as
      written divides by the first row in role order, which is "A", and
      reports -50. */
  lemma DeltaByPositionReversed()
    ensures var t := ExampleTable();
      && DeltaByPosition(CompareRoles(t, "B", "A")) == Some(-50.0)
      && DeltaBySelection(CompareRoles(t, "B", "A"), "B", "A") == Some(100.0)
  {
    var t := ExampleTable();
    ExampleMeans();
    CompareRolesSymmetric(t, "B", "A");
    DeltaAgreesInRoleOrder(t, "A", "B");
    LookupByName(t, "A", "B", "A");
    LookupByName(t, "A", "B", "B");
    DeltaFromLookups(CompareRoles(t, "A", "B"), "A", "B");
    DeltaFromLookups(CompareRoles(t, "A", "B"), "B", "A");
  }

  /** Role "B" earning 100 and role "A" earning 200. */
  function ExampleTable(): Table {
    [Record(2024, "SE", "FT", "M", "B", "0", "BRA", 100.0),
     Record(2024, "SE", "FT", "M", "A", "0", "BRA", 200.0)]
  }

  lemma ExampleMeans()
    ensures StrLess("A", "B")
    ensures "A" in Column(ExampleTable(), RoleOf) && "B" in Column(ExampleTable(), RoleOf)
    ensures GroupMean(ExampleTable(), RoleOf, "A") == 200.0
    ensures GroupMean(ExampleTable(), RoleOf, "B") == 100.0
  {
    var t := ExampleTable();
    var rb, ra := t[0], t[1];
    assert "A" != "B" by { assert "A"[0] != "B"[0]; }
    assert Column(t, RoleOf)[0] == "B" && Column(t, RoleOf)[1] == "A";
    assert t[1..] == [ra];
    assert Members([ra], RoleOf, "A") == [ra];
    assert Members(t, RoleOf, "A") == [ra];
    assert Members([ra], RoleOf, "B") == [];
    assert Members(t, RoleOf, "B") == [rb] + Members([ra], RoleOf, "B");
    assert Sum(Salaries([ra])) == 200.0 + Sum([]);
    assert Sum(Salaries([rb])) == 100.0 + Sum([]);
  }

  // ----- Role Comparison: the insight -----

  /** "On average, a earns diff% more/less than b". */
  datatype Insight = Insight(diff: real, more: bool)

  /** `((x - base) / base) * 100`: the relative difference in percent. */
  function RelativeDiff(x: real, base: real): (p: real)
    requires base != 0.0
    ensures x == Grown(base, p)
    ensures base > 0.0 ==> (p > 0.0 <==> x > base)
  {
    var q := (x - base) / base;
    assert q * base == x - base;
    assert base > 0.0 ==> (q > 0.0 <==> x - base > 0.0);
    q * 100.0
  }

  /** `avg_a`, `avg_b` looked up by name in the comparison table,
      `diff = (avg_a - avg_b) / avg_b * 100`, "more" when diff > 0 and
      "less" otherwise. Nothing is shown when the two roles coincide; a role
      without a row (pandas raises IndexError) or a zero `avg_b` (an infinite
      or NaN percentage) leaves it undefined. */
  function RoleInsight(c: seq<RoleStats>, a: string, b: string): Option<Insight> {
    if a == b then None
    else
      var ma, mb := MeanFor(c, a), MeanFor(c, b);
      if ma.None? || mb.None? || mb.value == 0.0 then None
      else
        var diff := RelativeDiff(ma.value, mb.value);
        Some(Insight(diff, diff > 0.0))
  }

  /** The insight is shown exactly when the roles differ, both have a row
      and `b`'s mean is nonzero; its percentage relates the two looked-up
      means (avg_a = avg_b * (1 + diff / 100)); it says "more" exactly when
      the percentage is positive, and, for a positive `avg_b`, exactly when
      `a` has the higher mean. */
  lemma InsightFromLookups(c: seq<RoleStats>, a: string, b: string)
    ensures var r, ma, mb := RoleInsight(c, a, b), MeanFor(c, a), MeanFor(c, b);
      && (r.Some? <==> a != b && ma.Some? && mb.Some? && mb.value != 0.0)
      && (r.Some? ==> ma.value == Grown(mb.value, r.value.diff))
      && (r.Some? ==> (r.value.more <==> r.value.diff > 0.0))
      && (r.Some? && mb.value > 0.0 ==> (r.value.more <==> ma.value > mb.value))
  {
  }

  /** Over the comparison of `a` and `b` of a table, the insight exists
      exactly when the roles differ, both occur in the table and `b`'s
      whole-table mean is nonzero; for a positive mean of `b` it says "more"
      exactly when `a`'s whole-table mean is higher. */
  lemma RoleInsightSpec(t: Table, a: string, b: string)
    ensures var r := RoleInsight(CompareRoles(t, a, b), a, b);
      && (r.Some? <==> BothRoles(t, a, b) && GroupMean(t, RoleOf, b) != 0.0)
      && (r.Some? && GroupMean(t, RoleOf, b) > 0.0 ==>
            (r.value.more <==> GroupMean(t, RoleOf, a) > GroupMean(t, RoleOf, b)))
  {
    var c := CompareRoles(t, a, b);
    if a != b {
      LookupByName(t, a, b, a);
      LookupByName(t, a, b, b);
    }
    InsightFromLookups(c, a, b);
  }
}
