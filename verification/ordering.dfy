/**
  Python's ordering of `str` values (lexicographic by code point, a proper
  prefix first) and the sort the organizer applies to its candidate paths,
  written as an insertion sort with its two promises: the result is in
  order and is a permutation of the input. Because the order is total and
  antisymmetric, the sorted order of a collection is unique, so the
  processing order does not depend on the order the directory walk used.
 */
module Ordering {

  /** `a <= b` on Python strings. */
  predicate Le(a: string, b: string)
    decreases |a|
  {
    |a| == 0 || (|b| > 0 && (a[0] < b[0] || (a[0] == b[0] && Le(a[1..], b[1..]))))
  }

  lemma {:induction false} LeReflexive(a: string)
    ensures Le(a, a)
    decreases |a|
  {
    if |a| > 0 { LeReflexive(a[1..]); }
  }

  lemma {:induction false} LeTotal(a: string, b: string)
    ensures Le(a, b) || Le(b, a)
    decreases |a|
  {
    if |a| > 0 && |b| > 0 && a[0] == b[0] { LeTotal(a[1..], b[1..]); }
  }

  lemma {:induction false} LeTransitive(a: string, b: string, c: string)
    requires Le(a, b) && Le(b, c)
    ensures Le(a, c)
    decreases |a|
  {
    if |a| > 0 && a[0] == b[0] && b[0] == c[0] { LeTransitive(a[1..], b[1..], c[1..]); }
  }

  lemma {:induction false} LeAntisymmetric(a: string, b: string)
    requires Le(a, b) && Le(b, a)
    ensures a == b
    decreases |a|
  {
    if |a| > 0 {
      LeAntisymmetric(a[1..], b[1..]);
      assert a == [a[0]] + a[1..];
      assert b == [b[0]] + b[1..];
    }
  }

  /** Each element is at most its successor. */
  predicate Sorted(s: seq<string>) {
    forall i :: 0 <= i < |s| - 1 ==> Le(s[i], s[i + 1])
  }

  function Insert(x: string, s: seq<string>): (r: seq<string>)
    requires Sorted(s)
    ensures Sorted(r)
    ensures multiset(r) == multiset(s) + multiset{x}
    ensures |r| == |s| + 1
    ensures r[0] == x || (|s| > 0 && r[0] == s[0])
  {
    if |s| == 0 then [x]
    else if Le(x, s[0]) then [x] + s
    else
      LeTotal(x, s[0]);
      var rest := Insert(x, s[1..]);
      assert s == [s[0]] + s[1..];
      [s[0]] + rest
  }

  /** `sorted(s)`, by insertion. */
  function Sort(s: seq<string>): (r: seq<string>)
    ensures Sorted(r)
    ensures multiset(r) == multiset(s)
    ensures |r| == |s|
  {
    if |s| == 0 then []
    else
      assert s == [s[0]] + s[1..];
      Insert(s[0], Sort(s[1..]))
  }

  /** The head of a sorted sequence is below every element. */
  lemma {:induction false} SortedHeadLeast(s: seq<string>, x: string)
    requires Sorted(s) && x in s
    ensures Le(s[0], x)
  {
    if x == s[0] {
      LeReflexive(x);
    } else {
      assert x in s[1..];
      SortedHeadLeast(s[1..], x);
      LeTransitive(s[0], s[1], x);
    }
  }

  /** Two sorted arrangements of the same elements are identical. */
  lemma {:induction false} SortedUnique(a: seq<string>, b: seq<string>)
    requires Sorted(a) && Sorted(b)
    requires multiset(a) == multiset(b)
    ensures a == b
  {
    if |a| > 0 {
      assert |b| == |a| by { assert |multiset(a)| == |multiset(b)|; }
      assert b[0] in multiset(a);
      assert a[0] in multiset(b);
      SortedHeadLeast(a, b[0]);
      SortedHeadLeast(b, a[0]);
      LeAntisymmetric(a[0], b[0]);
      assert a == [a[0]] + a[1..];
      assert b == [b[0]] + b[1..];
      assert multiset(a) == multiset{a[0]} + multiset(a[1..]);
      assert multiset(b) == multiset{b[0]} + multiset(b[1..]);
      assert multiset(a[1..]) == multiset(a) - multiset{a[0]};
      assert multiset(b[1..]) == multiset(b) - multiset{b[0]};
      SortedUnique(a[1..], b[1..]);
    } else {
      assert |multiset(b)| == 0;
    }
  }

  /** Sorting depends only on the elements, not on the order they arrive in. */
  lemma SortDeterministic(s: seq<string>, t: seq<string>)
    requires multiset(s) == multiset(t)
    ensures Sort(s) == Sort(t)
  {
    SortedUnique(Sort(s), Sort(t));
  }
}
