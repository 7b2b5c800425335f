/** The descending sort of `main` (`sort.Slice` with the comparison
    `dest[i].Contents.Date > dest[j].Contents.Date`). Go compares strings
    byte-wise; the dates are valid UTF-8, whose byte order is the order
    of code points, so the comparison here is lexicographic on chars. */
module Ordering {
  import opened Records

  /** Go's `a < b` on strings: `a` is a proper prefix of `b`, or `a` has
      the smaller character at the first position where they differ. */
  predicate LexLess(a: string, b: string)
    decreases |a|
  {
    if |a| == 0 then |b| > 0
    else if |b| == 0 then false
    else if a[0] != b[0] then a[0] < b[0]
    else LexLess(a[1..], b[1..])
  }

  /** Length of the longest common prefix. */
  function CommonPrefix(a: string, b: string): (k: nat)
    ensures k <= |a| && k <= |b| && a[..k] == b[..k]
    ensures k < |a| && k < |b| ==> a[k] != b[k]
    decreases |a|
  {
    if |a| == 0 || |b| == 0 || a[0] != b[0] then 0
    else 1 + CommonPrefix(a[1..], b[1..])
  }

  /** The order read off the first difference: `a` runs out first, or
      holds the smaller character where the two first differ. */
  lemma {:induction false} LexLessAtFirstDifference(a: string, b: string)
    ensures var k := CommonPrefix(a, b);
      LexLess(a, b) <==> (k == |a| && k < |b|) || (k < |a| && k < |b| && a[k] < b[k])
    decreases |a|
  {
    if |a| > 0 && |b| > 0 && a[0] == b[0] {
      LexLessAtFirstDifference(a[1..], b[1..]);
    }
  }

  lemma {:induction false} LexLessIrreflexive(a: string)
    ensures !LexLess(a, a)
    decreases |a|
  {
    if |a| > 0 {
      LexLessIrreflexive(a[1..]);
    }
  }

  lemma {:induction false} LexLessTransitive(a: string, b: string, c: string)
    requires LexLess(a, b) && LexLess(b, c)
    ensures LexLess(a, c)
    decreases |a|
  {
    if |a| > 0 && a[0] == b[0] && b[0] == c[0] {
      LexLessTransitive(a[1..], b[1..], c[1..]);
    }
  }

  lemma LexLessAsymmetric(a: string, b: string)
    requires LexLess(a, b)
    ensures !LexLess(b, a)
  {
    if LexLess(b, a) {
      LexLessTransitive(a, b, a);
      LexLessIrreflexive(a);
    }
  }

  /** Two different strings are always ordered one way or the other. */
  lemma {:induction false} LexLessTotal(a: string, b: string)
    ensures a == b || LexLess(a, b) || LexLess(b, a)
    decreases |a|
  {
    if |a| > 0 && |b| > 0 && a[0] == b[0] {
      LexLessTotal(a[1..], b[1..]);
      if a[1..] == b[1..] {
        assert a == [a[0]] + a[1..] && b == [b[0]] + b[1..];
      }
    }
  }

  /** `a >= b` in the string order. */
  predicate LexAtLeast(a: string, b: string) {
    !LexLess(a, b)
  }

  lemma LexAtLeastTransitive(a: string, b: string, c: string)
    requires LexAtLeast(a, b) && LexAtLeast(b, c)
    ensures LexAtLeast(a, c)
  {
    if LexLess(a, c) {
      LexLessTotal(a, b);
      if LexLess(b, a) {
        LexLessTransitive(b, a, c);
      }
    }
  }

  function DateOf(e: NostrLog): string {
    e.contents.date
  }

  /** Dates never increase from left to right. */
  predicate SortedByDateDesc(s: seq<NostrLog>) {
    forall i, j :: 0 <= i < j < |s| ==> LexAtLeast(DateOf(s[i]), DateOf(s[j]))
  }

  /** No date in `s` exceeds `top`. */
  predicate DatesAtMost(top: string, s: seq<NostrLog>) {
    forall j :: 0 <= j < |s| ==> LexAtLeast(top, DateOf(s[j]))
  }

  lemma SortedCons(h: NostrLog, t: seq<NostrLog>)
    requires DatesAtMost(DateOf(h), t) && SortedByDateDesc(t)
    ensures SortedByDateDesc([h] + t)
  {
    var s := [h] + t;
    forall i, j | 0 <= i < j < |s|
      ensures LexAtLeast(DateOf(s[i]), DateOf(s[j]))
    {
      if i > 0 {
        assert s[i] == t[i - 1] && s[j] == t[j - 1];
      } else {
        assert s[j] == t[j - 1];
      }
    }
  }

  /** A bound on a sorted sequence's head bounds all of it. */
  lemma HeadBoundsAll(top: string, s: seq<NostrLog>)
    requires SortedByDateDesc(s) && |s| > 0 && LexAtLeast(top, DateOf(s[0]))
    ensures DatesAtMost(top, s)
  {
    forall j | 0 <= j < |s|
      ensures LexAtLeast(top, DateOf(s[j]))
    {
      if j > 0 {
        LexAtLeastTransitive(top, DateOf(s[0]), DateOf(s[j]));
      }
    }
  }

  /** The head of a sorted sequence bounds its tail and any record it
      does not fall below. */
  lemma HeadBoundsTail(s: seq<NostrLog>, x: NostrLog)
    requires SortedByDateDesc(s) && |s| > 0 && LexAtLeast(DateOf(s[0]), DateOf(x))
    ensures DatesAtMost(DateOf(s[0]), s[1..] + [x])
  {
    var t := s[1..] + [x];
    forall j | 0 <= j < |t|
      ensures LexAtLeast(DateOf(s[0]), DateOf(t[j]))
    {
      if j < |s| - 1 {
        assert t[j] == s[j + 1];
      }
    }
  }

  /** The bound depends only on the multiset of elements. */
  lemma BoundByMultiset(top: string, s: seq<NostrLog>, r: seq<NostrLog>)
    requires DatesAtMost(top, s) && multiset(r) <= multiset(s)
    ensures DatesAtMost(top, r)
  {
    forall j | 0 <= j < |r|
      ensures LexAtLeast(top, DateOf(r[j]))
    {
      assert r[j] in multiset(r);
      assert r[j] in multiset(s);
      var k :| 0 <= k < |s| && s[k] == r[j];
    }
  }

  /** Insert `x` before the first element whose date is not greater. */
  function InsertByDate(x: NostrLog, s: seq<NostrLog>): (r: seq<NostrLog>)
    requires SortedByDateDesc(s)
    ensures SortedByDateDesc(r)
    ensures multiset(r) == multiset(s) + multiset{x}
  {
    if |s| == 0 then [x]
    else if LexAtLeast(DateOf(x), DateOf(s[0])) then
      HeadBoundsAll(DateOf(x), s);
      SortedCons(x, s);
      [x] + s
    else
      var rest := InsertByDate(x, s[1..]);
      LexLessAsymmetric(DateOf(x), DateOf(s[0]));
      HeadBoundsTail(s, x);
      BoundByMultiset(DateOf(s[0]), s[1..] + [x], rest);
      SortedCons(s[0], rest);
      assert s == [s[0]] + s[1..];
      [s[0]] + rest
  }

  /** The records ordered by descending date. Go's `sort.Slice` is not
      stable, so records with equal dates may come out in any order; this
      model inserts them in input order, one of the orders Go can produce. */
  function SortByDateDesc(s: seq<NostrLog>): (r: seq<NostrLog>)
    ensures SortedByDateDesc(r)
    ensures multiset(r) == multiset(s)
    ensures |r| == |s|
  {
    if |s| == 0 then []
    else
      assert s == [s[0]] + s[1..];
      InsertByDate(s[0], SortByDateDesc(s[1..]))
  }
}
