/** Sorting rows by a numeric column: the ascending sort behind
    `sort_values` and `median`, and the stable descending sort behind
    `nlargest(n, keep="first")`. */
module Sorting {

  ghost predicate Ascending<T>(s: seq<T>, val: T -> real) {
    forall i, j :: 0 <= i < j < |s| ==> val(s[i]) <= val(s[j])
  }

  ghost predicate Descending<T>(s: seq<T>, val: T -> real) {
    forall i, j :: 0 <= i < j < |s| ==> val(s[i]) >= val(s[j])
  }

  function InsertAsc<T>(x: T, s: seq<T>, val: T -> real): (r: seq<T>)
    ensures multiset(r) == multiset(s) + multiset{x}
  {
    if s == [] || val(x) <= val(s[0]) then [x] + s
    else
      assert s == [s[0]] + s[1..];
      [s[0]] + InsertAsc(x, s[1..], val)
  }

  lemma {:induction false} InsertAscSorted<T>(x: T, s: seq<T>, val: T -> real)
    requires Ascending(s, val)
    ensures Ascending(InsertAsc(x, s, val), val)
  {
    if s != [] && !(val(x) <= val(s[0])) {
      var rest := InsertAsc(x, s[1..], val);
      InsertAscSorted(x, s[1..], val);
      forall y | y in rest ensures val(s[0]) <= val(y) {
        assert y in multiset(rest);
        assert y in s[1..] || y == x;
      }
    }
  }

  /** Ascending by `val`; the relative order of equal values is not part of
      the contract. */
  function SortAsc<T>(s: seq<T>, val: T -> real): (r: seq<T>)
    ensures multiset(r) == multiset(s)
    ensures |r| == |s|
    ensures Ascending(r, val)
  {
    if s == [] then []
    else
      assert s == [s[0]] + s[1..];
      InsertAscSorted(s[0], SortAsc(s[1..], val), val);
      InsertAsc(s[0], SortAsc(s[1..], val), val)
  }

  /** Places `x` before the first element whose value is not larger, so that
      `x` precedes the elements of `s` that tie with it. */
  function InsertDesc<T>(x: T, s: seq<T>, val: T -> real): (r: seq<T>)
    ensures multiset(r) == multiset(s) + multiset{x}
  {
    if s == [] || val(x) >= val(s[0]) then [x] + s
    else
      assert s == [s[0]] + s[1..];
      [s[0]] + InsertDesc(x, s[1..], val)
  }

  lemma {:induction false} InsertDescSorted<T>(x: T, s: seq<T>, val: T -> real)
    requires Descending(s, val)
    ensures Descending(InsertDesc(x, s, val), val)
  {
    if s != [] && !(val(x) >= val(s[0])) {
      var rest := InsertDesc(x, s[1..], val);
      InsertDescSorted(x, s[1..], val);
      forall y | y in rest ensures val(s[0]) >= val(y) {
        assert y in multiset(rest);
        assert y in s[1..] || y == x;
      }
    }
  }

  /** Descending by `val`; among equal values the earlier row comes first. */
  function SortDesc<T>(s: seq<T>, val: T -> real): (r: seq<T>)
    ensures multiset(r) == multiset(s)
    ensures |r| == |s|
    ensures Descending(r, val)
  {
    if s == [] then []
    else
      assert s == [s[0]] + s[1..];
      InsertDescSorted(s[0], SortDesc(s[1..], val), val);
      InsertDesc(s[0], SortDesc(s[1..], val), val)
  }

  /** The elements of `s` whose value is `v`, in their order in `s`. */
  function Ties<T>(s: seq<T>, val: T -> real, v: real): seq<T> {
    if s == [] then []
    else if val(s[0]) == v then [s[0]] + Ties(s[1..], val, v)
    else Ties(s[1..], val, v)
  }

  /** Inserting `x` puts it ahead of every element that ties with it and
      leaves the other ties in their order. */
  lemma {:induction false} InsertDescTies<T>(x: T, s: seq<T>, val: T -> real, v: real)
    ensures Ties(InsertDesc(x, s, val), val, v) ==
      if val(x) == v then [x] + Ties(s, val, v) else Ties(s, val, v)
  {
    if s != [] && !(val(x) >= val(s[0])) {
      InsertDescTies(x, s[1..], val, v);
      var r := InsertDesc(x, s, val);
      assert r[0] == s[0] && r[1..] == InsertDesc(x, s[1..], val);
    } else {
      var r := [x] + s;
      assert r[0] == x && r[1..] == s;
    }
  }

  /** The descending sort is stable: for every value, the elements with that
      value come out in their input order. */
  lemma {:induction false} SortDescStable<T>(s: seq<T>, val: T -> real, v: real)
    ensures Ties(SortDesc(s, val), val, v) == Ties(s, val, v)
  {
    if s != [] {
      SortDescStable(s[1..], val, v);
      InsertDescTies(s[0], SortDesc(s[1..], val), val, v);
    }
  }

  lemma SortDescStableAll<T>(s: seq<T>, val: T -> real)
    ensures forall v :: Ties(SortDesc(s, val), val, v) == Ties(s, val, v)
  {
    forall v ensures Ties(SortDesc(s, val), val, v) == Ties(s, val, v) {
      SortDescStable(s, val, v);
    }
  }

  /** The ties of a prefix are a prefix of the ties of the whole. */
  lemma {:induction false} TiesOfPrefix<T>(s: seq<T>, k: nat, val: T -> real, v: real)
    requires k <= |s|
    ensures Ties(s[..k], val, v) <= Ties(s, val, v)
  {
    if k > 0 {
      TiesOfPrefix(s[1..], k - 1, val, v);
      assert s[..k][0] == s[0] && s[..k][1..] == s[1..][..k - 1];
    }
  }

  /** Every element of a permutation of `s` is an element of `s`. */
  lemma SameElements<T>(r: seq<T>, s: seq<T>, x: T)
    requires multiset(r) == multiset(s)
    ensures x in r <==> x in s
  {
    assert x in r <==> x in multiset(r);
    assert x in s <==> x in multiset(s);
  }
}
