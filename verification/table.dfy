/** The salary table: one record per salary observation, and the row
    selection (a boolean mask, `df[mask]`) that every page applies to it. */
module Table {

  datatype Option<+T> = None | Some(value: T)

  /** One salary observation. `salary` is the numeric column the page
      aggregates (Salary_In_Usd / usd, or the derived salario column). */
  datatype Record = Record(
    year: int,
    seniority: string,
    contract: string,
    companySize: string,
    role: string,
    remote: string,
    country: string,
    salary: real)

  type Table = seq<Record>

  /** The salary column of a table, row by row. */
  function Salaries(t: Table): (r: seq<real>)
    ensures |r| == |t|
    ensures forall i :: 0 <= i < |t| ==> r[i] == t[i].salary
  {
    if t == [] then [] else [t[0].salary] + Salaries(t[1..])
  }

  /** One column of a table, row by row. */
  function Column<K>(t: Table, key: Record -> K): (r: seq<K>)
    ensures |r| == |t|
    ensures forall i :: 0 <= i < |t| ==> r[i] == key(t[i])
  {
    if t == [] then [] else [key(t[0])] + Column(t[1..], key)
  }

  function YearOf(r: Record): int { r.year }
  function SeniorityOf(r: Record): string { r.seniority }
  function ContractOf(r: Record): string { r.contract }
  function SizeOf(r: Record): string { r.companySize }
  function RoleOf(r: Record): string { r.role }
  function CountryOf(r: Record): string { r.country }
  function SeniorityAndSize(r: Record): (string, string) { (r.seniority, r.companySize) }

  /** The rows of `s` for which the mask `p` holds, in their original order. */
  function Where<T>(s: seq<T>, p: T -> bool): (r: seq<T>)
    ensures |r| <= |s|
    ensures forall x :: x in r ==> x in s && p(x)
  {
    if s == [] then []
    else if p(s[0]) then [s[0]] + Where(s[1..], p)
    else Where(s[1..], p)
  }

  /** `a` is an order-preserving subsequence of `b`. */
  predicate Subseq<T(==)>(a: seq<T>, b: seq<T>)
    decreases |b|
  {
    if a == [] then true
    else if b == [] then false
    else if a[0] == b[0] then Subseq(a[1..], b[1..])
    else Subseq(a, b[1..])
  }

  /** Selecting rows keeps them in their original relative order. */
  lemma {:induction false} WhereIsSubseq<T>(s: seq<T>, p: T -> bool)
    ensures Subseq(Where(s, p), s)
  {
    if s != [] {
      WhereIsSubseq(s[1..], p);
      var w := Where(s[1..], p);
      if !p(s[0]) && w != [] {
        assert w[0] in w;
        assert w[0] != s[0];
      }
    }
  }

  /** A row is kept exactly as often as it occurs, when the mask holds of it,
      and not at all otherwise. */
  lemma {:induction false} WhereCounts<T>(s: seq<T>, p: T -> bool, x: T)
    ensures multiset(Where(s, p))[x] == if p(x) then multiset(s)[x] else 0
  {
    if s != [] {
      WhereCounts(s[1..], p, x);
      assert s == [s[0]] + s[1..];
    }
  }

  /** Selecting with a weaker mask first and then with a stronger one is the
      same as selecting with the stronger one. */
  lemma {:induction false} WhereNarrows<T>(s: seq<T>, p: T -> bool, q: T -> bool)
    requires forall x :: q(x) ==> p(x)
    ensures Where(Where(s, p), q) == Where(s, q)
  {
    if s != [] {
      WhereNarrows(s[1..], p, q);
    }
  }

  /** A mask that holds of every row keeps the whole table. */
  lemma {:induction false} WhereAll<T>(s: seq<T>, p: T -> bool)
    requires forall i :: 0 <= i < |s| ==> p(s[i])
    ensures Where(s, p) == s
  {
    if s != [] {
      WhereAll(s[1..], p);
    }
  }

  /** A mask that holds of no row keeps nothing. */
  lemma {:induction false} WhereNone<T>(s: seq<T>, p: T -> bool)
    requires forall i :: 0 <= i < |s| ==> !p(s[i])
    ensures Where(s, p) == []
  {
    if s != [] {
      WhereNone(s[1..], p);
    }
  }

  /** A row that is in the table and passes the mask is kept. */
  lemma {:induction false} WhereKeeps<T>(s: seq<T>, p: T -> bool, x: T)
    requires x in s && p(x)
    ensures x in Where(s, p)
  {
    if s[0] != x {
      WhereKeeps(s[1..], p, x);
    }
  }
}
