/** The Main Courts currency switch: a `salario` column derived in place
    from the USD salary, at a fixed USD→EUR rate. */
module Currency {
  import opened Table
  import opened Stats
  import opened Filter
  import opened Grouping

  datatype Money = USD | EUR

  /** One `salario` value: the USD amount itself, or the amount times the
      fixed rate TAXA_EUR = 0.92 in euros. */
  function Salario(usd: real, m: Money): real {
    if m == USD then usd else 0.92 * usd
  }

  /** The table the page aggregates after the switch: the same rows, in the
      same order, with `salario` as the salary column. */
  function Converted(t: Table, m: Money): (r: Table)
    ensures |r| == |t|
    ensures forall i :: 0 <= i < |t| ==> r[i] == t[i].(salary := Salario(t[i].salary, m))
  {
    if t == [] then [] else [t[0].(salary := Salario(t[0].salary, m))] + Converted(t[1..], m)
  }

  /** The rows of `t` with the salary column replaced by `s`. */
  function WithSalaries(t: Table, s: seq<real>): (r: Table)
    requires |s| == |t|
    ensures |r| == |t|
    ensures forall i :: 0 <= i < |t| ==> r[i] == t[i].(salary := s[i])
  {
    if t == [] then [] else [t[0].(salary := s[0])] + WithSalaries(t[1..], s[1..])
  }

  /** The data frame of the Main Courts page: its rows, and the `salario`
      column the page adds to it. */
  class Frame {
    var rows: Table
    var salario: seq<real>

    constructor(rows: Table)
      ensures this.rows == rows && salario == []
    {
      this.rows := rows;
      salario := [];
    }

    /** The frame as the aggregates read it, with `salario` as the salary
        column, once that column is present. */
    function View(): (v: Table)
      reads this
      requires |salario| == |rows|
      ensures |v| == |rows|
      ensures forall i :: 0 <= i < |rows| ==> v[i] == rows[i].(salary := salario[i])
    {
      WithSalaries(rows, salario)
    }

    /** `df_f["salario"] = df_f["usd"] if moeda == "USD" else df_f["usd"] * TAXA_EUR`:
        adds the column, row by row, and leaves the rows alone. */
    method AddSalario(m: Money)
      modifies this
      ensures rows == old(rows)
      ensures |salario| == |rows|
      ensures forall i :: 0 <= i < |rows| ==> salario[i] == Salario(rows[i].salary, m)
      ensures View() == Converted(rows, m)
    {
      salario := Salaries(Converted(rows, m));
    }
  }

  /** In US dollars the converted table is the table itself. */
  lemma UsdIsIdentity(t: Table)
    ensures Converted(t, USD) == t
  {
  }

  /** Converting touches the salary column only: every other column of every
      row is as it was. */
  lemma ConvertedKeepsColumns(t: Table, m: Money)
    ensures forall i :: 0 <= i < |t| ==> Converted(t, m)[i].(salary := t[i].salary) == t[i]
  {
  }

  /** Each salary in euros is the USD salary times 0.92. */
  lemma EuroSalaries(t: Table)
    ensures var s := Salaries(Converted(t, EUR));
      |s| == |t| && forall i :: 0 <= i < |t| ==> s[i] == 0.92 * Salaries(t)[i]
  {
  }

  /** The mean salary in euros is 0.92 times the mean in US dollars. */
  lemma EuroMean(t: Table)
    requires |t| > 0
    ensures Mean(Salaries(Converted(t, EUR))) == 0.92 * Mean(Salaries(t))
  {
    var s, u := Salaries(t), Salaries(Converted(t, EUR));
    EuroSalaries(t);
    assert |s| > 0 && |u| == |s|;
    assert forall i :: 0 <= i < |s| ==> u[i] == 0.92 * s[i];
    ScaledMean(s, u);
    assert Mean(u) == 0.92 * Mean(s);
  }

  /** `MeanScales` at the fixed rate, over plain columns. */
  lemma ScaledMean(s: seq<real>, u: seq<real>)
    requires |s| > 0 && |u| == |s|
    requires forall i :: 0 <= i < |s| ==> u[i] == 0.92 * s[i]
    ensures Mean(u) == 0.92 * Mean(s)
  {
    MeanScales(s, 0.92, u);
  }

  /** Selecting rows by anything but the salary commutes with converting. */
  lemma {:induction false} ConvertCommutes(t: Table, m: Money, p: Record -> bool)
    requires forall r: Record, x: real :: p(r) == p(r.(salary := x))
    ensures Where(Converted(t, m), p) == Converted(Where(t, p), m)
  {
    if t != [] {
      ConvertCommutes(t[1..], m, p);
      assert Converted(t, m)[1..] == Converted(t[1..], m);
      assert p(Converted(t, m)[0]) == p(t[0]);
    }
  }

  /** The filter picks the same rows before or after the conversion. */
  lemma FilterThenConvert(t: Table, sel: Selection, m: Money)
    ensures FilterData(Converted(t, m), sel) == Converted(FilterData(t, sel), m)
  {
    ConvertCommutes(t, m, (r: Record) => Keeps(sel, r));
  }

  /** Every group mean in euros is 0.92 times the group mean in US dollars,
      so the currency switch rescales the yearly evolution, the heatmap,
      the top roles and the ranking without reordering them. */
  lemma EuroGroupMean<K>(t: Table, key: Record -> K, k: K)
    requires k in Column(t, key)
    requires forall r: Record, x: real :: key(r) == key(r.(salary := x))
    ensures k in Column(Converted(t, EUR), key)
    ensures GroupMean(Converted(t, EUR), key, k) == 0.92 * GroupMean(t, key, k)
  {
    var i :| 0 <= i < |t| && Column(t, key)[i] == k;
    assert Column(Converted(t, EUR), key)[i] == k;
    ConvertCommutes(t, EUR, (r: Record) => key(r) == k);
    MembersNonEmpty(t, key, k);
    EuroMean(Members(t, key, k));
  }
}
