/** Column statistics as pandas computes them on a non-empty column:
    `mean`, `median`, `max`, and `mode().iloc[0]`. */
module Stats {
  import opened Order
  import opened Sorting

  function Sum(s: seq<real>): real {
    if s == [] then 0.0 else s[0] + Sum(s[1..])
  }

  function Mean(s: seq<real>): real
    requires |s| > 0
  {
    Sum(s) / (|s| as real)
  }

  function MaxOf(s: seq<real>): (m: real)
    requires |s| > 0
    ensures m in s
    ensures forall x :: x in s ==> x <= m
  {
    if |s| == 1 then s[0]
    else
      var rest := MaxOf(s[1..]);
      assert s == [s[0]] + s[1..];
      if s[0] >= rest then s[0] else rest
  }

  function MinOf(s: seq<real>): (m: real)
    requires |s| > 0
    ensures m in s
    ensures forall x :: x in s ==> m <= x
  {
    if |s| == 1 then s[0]
    else
      var rest := MinOf(s[1..]);
      assert s == [s[0]] + s[1..];
      if s[0] <= rest then s[0] else rest
  }

  lemma {:induction false} SumBounds(s: seq<real>, lo: real, hi: real)
    requires forall i :: 0 <= i < |s| ==> lo <= s[i] <= hi
    ensures (|s| as real) * lo <= Sum(s) <= (|s| as real) * hi
  {
    if s != [] {
      SumBounds(s[1..], lo, hi);
      var n := (|s| - 1) as real;
      assert (|s| as real) * lo == n * lo + lo;
      assert (|s| as real) * hi == n * hi + hi;
    }
  }

  /** A mean lies within any bounds that every value of the column lies in. */
  lemma MeanWithin(s: seq<real>, lo: real, hi: real)
    requires |s| > 0
    requires forall i :: 0 <= i < |s| ==> lo <= s[i] <= hi
    ensures lo <= Mean(s) <= hi
  {
    SumBounds(s, lo, hi);
    var n, x := |s| as real, Sum(s);
    var q := x / n;
    assert q * n == x;
    assert (q - lo) * n >= 0.0;
    assert (hi - q) * n >= 0.0;
  }

  /** The mean of a column lies between its smallest and largest value. */
  lemma MeanBounds(s: seq<real>)
    requires |s| > 0
    ensures MinOf(s) <= Mean(s) <= MaxOf(s)
  {
    var lo, hi := MinOf(s), MaxOf(s);
    forall i | 0 <= i < |s| ensures lo <= s[i] <= hi {
      assert s[i] in s;
    }
    MeanWithin(s, lo, hi);
  }

  /** Scaling every value of a column by `c` scales its sum by `c`. */
  lemma {:induction false} SumScales(s: seq<real>, c: real, t: seq<real>)
    requires |t| == |s|
    requires forall i :: 0 <= i < |s| ==> t[i] == c * s[i]
    ensures Sum(t) == c * Sum(s)
  {
    if s != [] {
      SumScales(s[1..], c, t[1..]);
    }
  }

  /** Scaling every value of a column by `c` scales its mean by `c`. */
  lemma MeanScales(s: seq<real>, c: real, t: seq<real>)
    requires |s| > 0 && |t| == |s|
    requires forall i :: 0 <= i < |s| ==> t[i] == c * s[i]
    ensures Mean(t) == c * Mean(s)
  {
    SumScales(s, c, t);
    var n, x := |s| as real, Sum(s);
    var q := x / n;
    assert q * n == x;
    assert (c * q) * n == c * x;
  }

  function Identity(x: real): real {
    x
  }

  /** pandas `median`: the middle value of the sorted column, or the mean of
      the two middle values when the column has an even length. */
  function Median(s: seq<real>): (m: real)
    requires |s| > 0
    ensures MinOf(s) <= m <= MaxOf(s)
  {
    var ss := SortAsc(s, Identity);
    var n := |s|;
    var lo := ss[(n - 1) / 2];
    var hi := ss[n / 2];
    SameElements(ss, s, lo);
    SameElements(ss, s, hi);
    if n % 2 == 1 then hi else (lo + hi) / 2.0
  }

  /** The number of times `x` occurs in the column `s`. */
  function Count(s: seq<string>, x: string): nat {
    multiset(s)[x]
  }

  /** The candidate pandas lists first among two: the more frequent one, and
      on a tie the one that sorts first. */
  function Better(s: seq<string>, x: string, y: string): string {
    if Count(s, x) > Count(s, y) || (Count(s, x) == Count(s, y) && StrLess(x, y)) then x else y
  }

  function PickMode(s: seq<string>, cands: seq<string>): (m: string)
    requires |cands| > 0
    ensures m in cands
    ensures forall y :: y in cands ==> Count(s, y) <= Count(s, m)
    ensures forall y :: y in cands && Count(s, y) == Count(s, m) ==> m == y || StrLess(m, y)
  {
    if |cands| == 1 then cands[0]
    else
      StrLessIsStrictTotal();
      assert cands == [cands[0]] + cands[1..];
      Better(s, cands[0], PickMode(s, cands[1..]))
  }

  /** `mode().iloc[0]`: a most frequent value, the first in sorted order
      among the most frequent ones. */
  function Mode(s: seq<string>): (m: string)
    requires |s| > 0
    ensures m in s
    ensures forall y :: y in s ==> Count(s, y) <= Count(s, m)
    ensures forall y :: y in s && Count(s, y) == Count(s, m) ==> m == y || StrLess(m, y)
  {
    PickMode(s, s)
  }
}
