/** The aggregates over the parsed amounts: Python's `sum(donations)` and
    `sorted(donations, reverse=True)[:3]`. */
module Ranking {

  /** How many of the largest amounts the page lists. */
  const TopCount: nat := 3

  function Min(a: int, b: int): int
  {
    if a <= b then a else b
  }

  /** `sum(s)`: 0 for the empty list. A list of amounts none of which is
      negative has a total that is not negative either. */
  function Sum(s: seq<real>): (r: real)
    ensures (forall k :: 0 <= k < |s| ==> s[k] >= 0.0) ==> r >= 0.0
  {
    if s == [] then 0.0 else s[0] + Sum(s[1..])
  }

  lemma {:induction false} SumConcat(a: seq<real>, b: seq<real>)
    ensures Sum(a + b) == Sum(a) + Sum(b)
  {
    if a == [] {
      assert a + b == b;
    } else {
      assert (a + b)[1..] == a[1..] + b;
      SumConcat(a[1..], b);
    }
  }

  predicate NonIncreasing(s: seq<real>)
  {
    forall i, j :: 0 <= i < j < |s| ==> s[i] >= s[j]
  }

  /** Inserts `x` into a non-increasing list, before the first element that
      is not larger than it. */
  function Insert(x: real, s: seq<real>): (r: seq<real>)
    requires NonIncreasing(s)
    ensures NonIncreasing(r)
    ensures multiset(r) == multiset(s) + multiset{x}
    ensures |r| == |s| + 1
    ensures r[0] == x || (s != [] && r[0] == s[0])
  {
    if s == [] || x >= s[0] then
      ConsNonIncreasing(x, s);
      [x] + s
    else
      TailNonIncreasing(s);
      var t := Insert(x, s[1..]);
      assert s == [s[0]] + s[1..];
      assert s[1..] == [] || s[0] >= s[1];
      ConsNonIncreasing(s[0], t);
      [s[0]] + t
  }

  /** Putting an element no smaller than the head in front of a
      non-increasing list keeps it non-increasing. */
  lemma ConsNonIncreasing(h: real, t: seq<real>)
    requires NonIncreasing(t) && (t == [] || h >= t[0])
    ensures NonIncreasing([h] + t)
  {
    var u := [h] + t;
    forall i, j | 0 <= i < j < |u| ensures u[i] >= u[j] {
      if i == 0 && j > 1 {
        assert t[0] >= t[j - 1];
      }
    }
  }

  /** `sorted(s, reverse=True)`: a non-increasing permutation of `s`. */
  function SortDescending(s: seq<real>): (r: seq<real>)
    ensures NonIncreasing(r)
    ensures multiset(r) == multiset(s)
    ensures |r| == |s|
  {
    if s == [] then []
    else
      assert s == [s[0]] + s[1..];
      Insert(s[0], SortDescending(s[1..]))
  }

  /** The head of a non-increasing list is its largest element. */
  lemma HeadIsLargest(s: seq<real>, x: real)
    requires NonIncreasing(s) && x in s
    ensures x <= s[0]
  {
    var j :| 0 <= j < |s| && s[j] == x;
    if j > 0 { assert s[0] >= s[j]; }
  }

  lemma TailNonIncreasing(s: seq<real>)
    requires NonIncreasing(s) && s != []
    ensures NonIncreasing(s[1..])
  {
    forall i, j | 0 <= i < j < |s| - 1 ensures s[1..][i] >= s[1..][j] {
      assert s[i + 1] >= s[j + 1];
    }
  }

  /** Two non-increasing lists with the same elements are the same list:
      the sorted order of a collection of amounts is unique. */
  lemma {:induction false} SortedUnique(a: seq<real>, b: seq<real>)
    requires NonIncreasing(a) && NonIncreasing(b)
    requires multiset(a) == multiset(b)
    ensures a == b
    decreases |a|
  {
    assert |a| == |multiset(a)| == |multiset(b)| == |b|;
    if a != [] {
      SameHead(a, b);
      TailMultiset(a);
      TailMultiset(b);
      TailNonIncreasing(a);
      TailNonIncreasing(b);
      SortedUnique(a[1..], b[1..]);
      assert a == [a[0]] + a[1..] && b == [b[0]] + b[1..];
    }
  }

  /** Two non-empty non-increasing lists with the same elements start with
      the same (largest) element. */
  lemma SameHead(a: seq<real>, b: seq<real>)
    requires NonIncreasing(a) && NonIncreasing(b)
    requires multiset(a) == multiset(b) && a != [] && b != []
    ensures a[0] == b[0]
  {
    assert a[0] in multiset(b) && b[0] in multiset(a);
    HeadIsLargest(b, a[0]);
    HeadIsLargest(a, b[0]);
  }

  lemma TailMultiset(a: seq<real>)
    requires a != []
    ensures multiset(a[1..]) == multiset(a) - multiset{a[0]}
  {
    assert a == [a[0]] + a[1..];
  }

  /** `sorted(ds, reverse=True)[:3]`: the three largest amounts, largest
      first, or all of them when there are fewer. */
  function Top3(ds: seq<real>): (r: seq<real>)
    ensures |r| == Min(TopCount, |ds|) && NonIncreasing(r)
    ensures multiset(r) <= multiset(ds)
  {
    var k := Min(TopCount, |ds|);
    SplitSorted(SortDescending(ds), k);
    SortDescending(ds)[..k]
  }

  /** Cutting a non-increasing list in two: the front is non-increasing and
      the two parts hold the list's elements between them. */
  lemma SplitSorted(s: seq<real>, k: nat)
    requires NonIncreasing(s) && k <= |s|
    ensures NonIncreasing(s[..k])
    ensures multiset(s) == multiset(s[..k]) + multiset(s[k..])
  {
    assert s == s[..k] + s[k..];
  }

  /** What makes `t` a top-3 list of `ds`: largest first, as long as it can
      be, drawn from `ds`, and no amount left out exceeds its last entry. */
  ghost predicate IsTop3(ds: seq<real>, t: seq<real>)
  {
    && NonIncreasing(t)
    && |t| == Min(TopCount, |ds|)
    && multiset(t) <= multiset(ds)
    && forall x :: x in multiset(ds) - multiset(t) ==> t != [] && x <= t[|t| - 1]
  }

  /** Everything after position `k` of a non-increasing list is at most
      the element just before it. */
  lemma TailBelow(s: seq<real>, k: nat, x: real)
    requires NonIncreasing(s) && 0 < k <= |s| && x in s[k..]
    ensures x <= s[k - 1]
  {
    var j :| k <= j < |s| && s[j] == x;
  }

  /** `Top3` returns a top-3 list. */
  lemma Top3Spec(ds: seq<real>)
    ensures IsTop3(ds, Top3(ds))
  {
    var sorted := SortDescending(ds);
    var k := Min(TopCount, |ds|);
    var t := Top3(ds);
    SplitSorted(sorted, k);
    forall x | x in multiset(ds) - multiset(t) ensures t != [] && x <= t[|t| - 1] {
      assert x in multiset(sorted[k..]);
      TailBelow(sorted, k, x);
    }
  }

  /** Appending smaller amounts to a non-increasing list keeps it so. */
  lemma AppendSmaller(t: seq<real>, rest: seq<real>)
    requires NonIncreasing(t) && NonIncreasing(rest)
    requires forall x :: x in rest ==> t != [] && x <= t[|t| - 1]
    ensures NonIncreasing(t + rest)
  {
    var u := t + rest;
    forall i, j | 0 <= i < j < |u| ensures u[i] >= u[j] {
      if i < |t| <= j {
        assert u[j] in rest;
        assert u[i] >= t[|t| - 1];
      }
    }
  }

  /** Any top-3 list of `ds` is the one `Top3` returns: the four properties
      pin the result down completely. */
  lemma Top3Unique(ds: seq<real>, t: seq<real>)
    requires IsTop3(ds, t)
    ensures t == Top3(ds)
  {
    var rest := SortDescending(Remove(ds, multiset(t)));
    forall x | x in rest ensures t != [] && x <= t[|t| - 1] {
      assert x in multiset(rest);
    }
    AppendSmaller(t, rest);
    var u := t + rest;
    assert multiset(u) == multiset(ds);
    SortedUnique(u, SortDescending(ds));
    assert u[..|t|] == t;
  }

  /** `ds` with one copy of each element of `m` taken out. */
  ghost function Remove(ds: seq<real>, m: multiset<real>): (r: seq<real>)
    ensures multiset(r) == multiset(ds) - m
  {
    if ds == [] then []
    else
      assert ds == [ds[0]] + ds[1..];
      if ds[0] in m then Remove(ds[1..], m - multiset{ds[0]})
      else [ds[0]] + Remove(ds[1..], m)
  }

}
