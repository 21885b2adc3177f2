/** The sidebar filter: `filter_data` on the Home page and `filtrar` on the
    Main Courts page are the same conjunction of four `isin` tests. */
module Filter {
  import opened Table
  import opened Order

  /** The four multiselect lists: years, experience levels, employment
      types and company sizes. */
  datatype Selection = Selection(
    years: seq<int>,
    seniorities: seq<string>,
    contracts: seq<string>,
    sizes: seq<string>)

  predicate Keeps(sel: Selection, r: Record) {
    && r.year in sel.years
    && r.seniority in sel.seniorities
    && r.contract in sel.contracts
    && r.companySize in sel.sizes
  }

  function FilterData(t: Table, sel: Selection): Table {
    Where(t, (r: Record) => Keeps(sel, r))
  }

  /** The filter keeps a row exactly when all four of its values are
      selected, as often as the row occurs, in the table's order. */
  lemma FilterKeepsMatchingRows(t: Table, sel: Selection)
    ensures Subseq(FilterData(t, sel), t)
    ensures forall r :: r in FilterData(t, sel) <==> r in t && Keeps(sel, r)
    ensures forall r :: multiset(FilterData(t, sel))[r] == if Keeps(sel, r) then multiset(t)[r] else 0
  {
    WhereIsSubseq(t, (r: Record) => Keeps(sel, r));
    forall r ensures multiset(FilterData(t, sel))[r] == if Keeps(sel, r) then multiset(t)[r] else 0 {
      WhereCounts(t, (r: Record) => Keeps(sel, r), r);
    }
    forall r | r in t && Keeps(sel, r) ensures r in FilterData(t, sel) {
      WhereKeeps(t, (r: Record) => Keeps(sel, r), r);
    }
  }

  /** Filtering an already filtered table with the same selection changes
      nothing. */
  lemma FilterIdempotent(t: Table, sel: Selection)
    ensures FilterData(FilterData(t, sel), sel) == FilterData(t, sel)
  {
    WhereNarrows(t, (r: Record) => Keeps(sel, r), (r: Record) => Keeps(sel, r));
  }

  /** Clearing any one of the four lists empties the result. */
  lemma EmptyListSelectsNothing(t: Table, sel: Selection)
    requires sel.years == [] || sel.seniorities == [] || sel.contracts == [] || sel.sizes == []
    ensures FilterData(t, sel) == []
  {
    WhereNone(t, (r: Record) => Keeps(sel, r));
  }

  /** The sidebar's defaults: every value observed in the table, sorted. */
  function DefaultSelection(t: Table): Selection {
    Selection(
      Keys(Column(t, YearOf), IntLess),
      Keys(Column(t, SeniorityOf), StrLess),
      Keys(Column(t, ContractOf), StrLess),
      Keys(Column(t, SizeOf), StrLess))
  }

  /** A selection that lists, per dimension, every value the table holds. */
  predicate Covers(sel: Selection, t: Table) {
    forall i :: 0 <= i < |t| ==> Keeps(sel, t[i])
  }

  /** With every observed value selected the filter returns the whole table;
      the default selection is one such selection. */
  lemma CoveringSelectionKeepsAll(t: Table, sel: Selection)
    requires Covers(sel, t)
    ensures FilterData(t, sel) == t
  {
    WhereAll(t, (r: Record) => Keeps(sel, r));
  }

  lemma DefaultSelectionCovers(t: Table)
    ensures Covers(DefaultSelection(t), t)
    ensures FilterData(t, DefaultSelection(t)) == t
  {
    var sel := DefaultSelection(t);
    forall i | 0 <= i < |t| ensures Keeps(sel, t[i]) {
      assert Column(t, YearOf)[i] == t[i].year;
      assert Column(t, SeniorityOf)[i] == t[i].seniority;
      assert Column(t, ContractOf)[i] == t[i].contract;
      assert Column(t, SizeOf)[i] == t[i].companySize;
    }
    CoveringSelectionKeepsAll(t, sel);
  }
}
