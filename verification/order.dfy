/** The orders pandas sorts group keys by: numbers by value, strings by
    code point, lexicographically, and tuples of strings component-wise. */
module Order {

  ghost predicate StrictTotalOrder<K(!new)>(lt: (K, K) -> bool) {
    && (forall a :: !lt(a, a))
    && (forall a, b, c :: lt(a, b) && lt(b, c) ==> lt(a, c))
    && (forall a, b :: a != b ==> lt(a, b) || lt(b, a))
  }

  predicate IntLess(a: int, b: int) {
    a < b
  }

  /** Python's `<` on `str`: code point by code point; a proper prefix
      sorts first. */
  predicate StrLess(a: string, b: string) {
    |b| > 0 && (|a| == 0 || a[0] < b[0] || (a[0] == b[0] && StrLess(a[1..], b[1..])))
  }

  /** Python's `<` on a pair of strings. */
  predicate PairLess(a: (string, string), b: (string, string)) {
    StrLess(a.0, b.0) || (a.0 == b.0 && StrLess(a.1, b.1))
  }

  lemma IntLessIsStrictTotal()
    ensures StrictTotalOrder(IntLess)
  {
  }

  lemma {:induction false} StrLessIrreflexive(a: string)
    ensures !StrLess(a, a)
  {
    if |a| > 0 {
      StrLessIrreflexive(a[1..]);
    }
  }

  lemma {:induction false} StrLessTransitive(a: string, b: string, c: string)
    requires StrLess(a, b) && StrLess(b, c)
    ensures StrLess(a, c)
  {
    if |a| > 0 && a[0] == b[0] && b[0] == c[0] {
      StrLessTransitive(a[1..], b[1..], c[1..]);
    }
  }

  lemma {:induction false} StrLessTotal(a: string, b: string)
    requires a != b
    ensures StrLess(a, b) || StrLess(b, a)
  {
    if |a| > 0 && |b| > 0 && a[0] == b[0] {
      assert a == [a[0]] + a[1..] && b == [b[0]] + b[1..];
      StrLessTotal(a[1..], b[1..]);
    }
  }

  lemma StrLessIsStrictTotal()
    ensures StrictTotalOrder(StrLess)
  {
    forall a: string ensures !StrLess(a, a) {
      StrLessIrreflexive(a);
    }
    forall a: string, b: string, c: string | StrLess(a, b) && StrLess(b, c)
      ensures StrLess(a, c)
    {
      StrLessTransitive(a, b, c);
    }
    forall a: string, b: string | a != b ensures StrLess(a, b) || StrLess(b, a) {
      StrLessTotal(a, b);
    }
  }

  lemma PairLessIsStrictTotal()
    ensures StrictTotalOrder(PairLess)
  {
    StrLessIsStrictTotal();
  }

  /** Any two positions of `s` are in strictly increasing order. */
  ghost predicate StrictlySorted<K>(s: seq<K>, lt: (K, K) -> bool) {
    forall i, j :: 0 <= i < j < |s| ==> lt(s[i], s[j])
  }

  function InsertKey<K(==,!new)>(k: K, ks: seq<K>, lt: (K, K) -> bool): (r: seq<K>)
    ensures forall x :: x in r <==> x == k || x in ks
  {
    if ks == [] then [k]
    else if k == ks[0] then ks
    else if lt(k, ks[0]) then [k] + ks
    else
      assert ks == [ks[0]] + ks[1..];
      [ks[0]] + InsertKey(k, ks[1..], lt)
  }

  /** `sorted(column.unique())`: the distinct values of a column. */
  function Keys<K(==,!new)>(s: seq<K>, lt: (K, K) -> bool): (r: seq<K>)
    ensures forall x :: x in r <==> x in s
  {
    if s == [] then []
    else
      assert s == [s[0]] + s[1..];
      InsertKey(s[0], Keys(s[1..], lt), lt)
  }

  lemma {:induction false} InsertKeySorted<K(!new)>(k: K, ks: seq<K>, lt: (K, K) -> bool)
    requires StrictTotalOrder(lt)
    requires StrictlySorted(ks, lt)
    ensures StrictlySorted(InsertKey(k, ks, lt), lt)
  {
    if ks != [] && k != ks[0] && !lt(k, ks[0]) {
      InsertKeySorted(k, ks[1..], lt);
      var rest := InsertKey(k, ks[1..], lt);
      assert lt(ks[0], k);
      forall y | y in rest ensures lt(ks[0], y) {
        if y != k {
          var j :| 1 <= j < |ks| && ks[j] == y;
        }
      }
    }
  }

  /** With a strict total order, the distinct values come out strictly
      increasing, hence each exactly once. */
  lemma {:induction false} KeysSorted<K(!new)>(s: seq<K>, lt: (K, K) -> bool)
    requires StrictTotalOrder(lt)
    ensures StrictlySorted(Keys(s, lt), lt)
  {
    if s != [] {
      KeysSorted(s[1..], lt);
      InsertKeySorted(s[0], Keys(s[1..], lt), lt);
    }
  }

  /** A strictly sorted sequence has as many elements as distinct values. */
  lemma {:induction false} SortedCard<K(!new)>(s: seq<K>, lt: (K, K) -> bool)
    requires StrictTotalOrder(lt)
    requires StrictlySorted(s, lt)
    ensures |set x | x in s| == |s|
  {
    if s != [] {
      SortedCard(s[1..], lt);
      forall j | 1 <= j < |s| ensures s[j] != s[0] {
        assert lt(s[0], s[j]);
      }
      assert s[0] !in s[1..];
      assert (set x | x in s) == {s[0]} + (set x | x in s[1..]);
    }
  }

  /** A subset has at most as many elements as its superset. */
  lemma {:induction false} SubsetCard<K>(a: set<K>, b: set<K>)
    requires a <= b
    ensures |a| <= |b|
  {
    if a != {} {
      var x :| x in a;
      SubsetCard(a - {x}, b - {x});
    }
  }

  /** `column.nunique()`: the number of distinct values equals the number of
      sorted keys. */
  lemma NUniqueIsKeyCount<K(!new)>(s: seq<K>, lt: (K, K) -> bool)
    requires StrictTotalOrder(lt)
    ensures |set x | x in s| == |Keys(s, lt)|
  {
    KeysSorted(s, lt);
    SortedCard(Keys(s, lt), lt);
    assert (set x | x in s) == (set x | x in Keys(s, lt));
  }
}
