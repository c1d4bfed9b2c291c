/**
 * The sequence operations the dashboard composes its tables from: boolean-mask
 * selection (Filter), dropping missing cells (Present), and keeping each value
 * once in order of first appearance (Distinct, which is what `unique()` does).
 */
module Seqs {
  import opened Wrappers

  /** No value occurs twice in `s`. */
  predicate NoDup<T(==)>(s: seq<T>) {
    forall i, j :: 0 <= i < j < |s| ==> s[i] != s[j]
  }

  /** The elements of `s` that satisfy `p`, in their original order. */
  function Filter<T(!new)>(s: seq<T>, p: T -> bool): (r: seq<T>)
    ensures |r| <= |s|
    ensures forall x :: x in r <==> x in s && p(x)
  {
    if s == [] then []
    else
      assert forall x :: x in s <==> x == s[0] || x in s[1..];
      (if p(s[0]) then [s[0]] else []) + Filter(s[1..], p)
  }

  /** Selection commutes with concatenation: relative order is kept. */
  lemma {:induction false} FilterAppend<T(!new)>(a: seq<T>, b: seq<T>, p: T -> bool)
    ensures Filter(a + b, p) == Filter(a, p) + Filter(b, p)
  {
    if a == [] {
      assert a + b == b;
    } else {
      assert (a + b)[1..] == a[1..] + b;
      FilterAppend(a[1..], b, p);
    }
  }

  /** Selecting with a mask every element satisfies changes nothing. */
  lemma {:induction false} FilterAll<T(!new)>(s: seq<T>, p: T -> bool)
    requires forall i :: 0 <= i < |s| ==> p(s[i])
    ensures Filter(s, p) == s
  {
    if s != [] {
      FilterAll(s[1..], p);
    }
  }

  /** Selection keeps every copy of a selected value and no copy of another. */
  lemma {:induction false} FilterCount<T(!new)>(s: seq<T>, p: T -> bool, x: T)
    ensures multiset(Filter(s, p))[x] == if p(x) then multiset(s)[x] else 0
  {
    if s != [] {
      assert s == [s[0]] + s[1..];
      FilterCount(s[1..], p, x);
    }
  }

  lemma FilterCounts<T(!new)>(s: seq<T>, p: T -> bool)
    ensures forall x :: multiset(Filter(s, p))[x] == if p(x) then multiset(s)[x] else 0
  {
    forall x {
      FilterCount(s, p, x);
    }
  }

  /** The first selected element is the first element of `s` that satisfies `p`. */
  lemma {:induction false} FilterFirst<T(!new)>(s: seq<T>, p: T -> bool)
    requires |Filter(s, p)| > 0
    ensures exists i :: 0 <= i < |s| && p(s[i]) && Filter(s, p)[0] == s[i] &&
                        forall j :: 0 <= j < i ==> !p(s[j])
  {
    if p(s[0]) {
      assert Filter(s, p)[0] == s[0];
    } else {
      FilterFirst(s[1..], p);
      var i :| 0 <= i < |s[1..]| && p(s[1..][i]) && Filter(s[1..], p)[0] == s[1..][i] &&
               forall j :: 0 <= j < i ==> !p(s[1..][j]);
      assert Filter(s, p)[0] == s[i + 1];
      assert forall j :: 0 <= j < i + 1 ==> !p(s[j]) by {
        forall j | 0 <= j < i + 1 ensures !p(s[j]) {
          if j > 0 { assert s[j] == s[1..][j - 1]; }
        }
      }
    }
  }

  /** The non-missing values of a column, in order (`dropna()`). */
  function Present<K(!new)>(s: seq<Option<K>>): (r: seq<K>)
    ensures |r| <= |s|
    ensures forall k :: k in r <==> Some(k) in s
    ensures forall k :: multiset(r)[k] == multiset(s)[Some(k)]
  {
    if s == [] then []
    else
      assert s == [s[0]] + s[1..];
      assert forall x :: x in s <==> x == s[0] || x in s[1..];
      (if s[0].Some? then [s[0].value] else []) + Present(s[1..])
  }

  lemma ConcatAssoc<T>(x: seq<T>, y: seq<T>, z: seq<T>)
    ensures x + (y + z) == (x + y) + z
  {
  }

  /** `dropna()` keeps the order of the values it keeps. */
  lemma {:induction false} PresentAppend<K(!new)>(a: seq<Option<K>>, b: seq<Option<K>>)
    ensures Present(a + b) == Present(a) + Present(b)
  {
    if a == [] {
      assert a + b == b;
    } else {
      var h := if a[0].Some? then [a[0].value] else [];
      assert (a + b)[0] == a[0] && (a + b)[1..] == a[1..] + b;
      assert Present(a + b) == h + Present(a[1..] + b);
      assert Present(a) == h + Present(a[1..]);
      PresentAppend(a[1..], b);
      ConcatAssoc(h, Present(a[1..]), Present(b));
    }
  }

  /** Each value of `s` once, in order of first appearance (`unique()`). */
  function Distinct<T(==,!new)>(s: seq<T>): (r: seq<T>)
    ensures |r| <= |s|
    ensures forall x :: x in r <==> x in s
    ensures NoDup(r)
  {
    if s == [] then []
    else
      var init, last := s[..|s| - 1], s[|s| - 1];
      assert s == init + [last];
      var d := Distinct(init);
      if last in d then d else d + [last]
  }

  /** The position of the first occurrence of `x` in `s`. */
  function FirstIndex<T(==)>(s: seq<T>, x: T): (i: nat)
    requires x in s
    ensures i < |s| && s[i] == x
    ensures forall j :: 0 <= j < i ==> s[j] != x
  {
    if s[0] == x then 0 else 1 + FirstIndex(s[1..], x)
  }

  lemma FirstIndexPrefix<T>(a: seq<T>, b: seq<T>, x: T)
    requires x in a
    ensures FirstIndex(a + b, x) == FirstIndex(a, x)
  {
    var k, m := FirstIndex(a + b, x), FirstIndex(a, x);
    assert (a + b)[m] == x;
  }

  /** `Distinct` lists values in the order in which they first occur in `s`. */
  lemma {:induction false} DistinctFirstAppearance<T(!new)>(s: seq<T>, i: nat, j: nat)
    requires i < j < |Distinct(s)|
    ensures FirstIndex(s, Distinct(s)[i]) < FirstIndex(s, Distinct(s)[j])
  {
    var init, last := s[..|s| - 1], s[|s| - 1];
    assert s == init + [last];
    var d := Distinct(init);
    var x, y := Distinct(s)[i], Distinct(s)[j];
    assert x == d[i];
    FirstIndexPrefix(init, [last], x);
    if j < |d| {
      assert y == d[j];
      DistinctFirstAppearance(init, i, j);
      FirstIndexPrefix(init, [last], y);
    } else {
      assert y == last && last !in init;
    }
  }
}
