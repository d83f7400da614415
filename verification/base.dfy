/**
  Small shared vocabulary: an optional value, and the "first candidate that
  qualifies" search that every ordered fallback chain of the organizer uses
  (author patterns, year patterns, DOI patterns, bibliographic services).
 */
module Base {

  datatype Option<+T> = None | Some(value: T) {
    function GetOr(default: T): T {
      match this
      case Some(v) => v
      case None => default
    }
  }

  /** The results of applying every function of `fs`, in order, to `x`. */
  function ApplyAll<A, B>(fs: seq<A -> B>, x: A): (r: seq<B>)
    ensures |r| == |fs|
    ensures forall i :: 0 <= i < |fs| ==> r[i] == fs[i](x)
  {
    seq(|fs|, i requires 0 <= i < |fs| => fs[i](x))
  }

  /** Index of the first element of `xs` that satisfies `p`, scanning front to back. */
  function FirstWhere<T>(xs: seq<T>, p: T -> bool): (r: Option<nat>)
    ensures r.Some? ==> r.value < |xs| && p(xs[r.value])
    ensures r.Some? ==> forall j :: 0 <= j < r.value ==> !p(xs[j])
    ensures r.None? <==> forall j :: 0 <= j < |xs| ==> !p(xs[j])
  {
    if |xs| == 0 then None
    else if p(xs[0]) then Some(0)
    else match FirstWhere(xs[1..], p)
      case None => None
      case Some(i) => Some(i + 1)
  }

  /** The first qualifying index is the only index that qualifies with nothing qualifying before it. */
  lemma FirstWhereUnique<T>(xs: seq<T>, p: T -> bool, i: nat)
    requires i < |xs| && p(xs[i])
    requires forall j :: 0 <= j < i ==> !p(xs[j])
    ensures FirstWhere(xs, p) == Some(i)
  {
  }

  /** The same fact for every index at once. */
  lemma FirstWhereIsFirst<T>(xs: seq<T>, p: T -> bool)
    ensures forall i ::
              (0 <= i < |xs| && p(xs[i]) && (forall j :: 0 <= j < i ==> !p(xs[j])))
              ==> FirstWhere(xs, p) == Some(i)
  {
    forall i | 0 <= i < |xs| && p(xs[i]) && (forall j :: 0 <= j < i ==> !p(xs[j])) {
      FirstWhereUnique(xs, p, i);
    }
  }

  /** How many elements of `xs` satisfy `p`. */
  function CountWhere<T>(xs: seq<T>, p: T -> bool): (n: nat)
    ensures n <= |xs|
  {
    if |xs| == 0 then 0
    else CountWhere(xs[..|xs| - 1], p) + (if p(xs[|xs| - 1]) then 1 else 0)
  }

  lemma {:induction false} CountWhereAppend<T>(a: seq<T>, b: seq<T>, p: T -> bool)
    ensures CountWhere(a + b, p) == CountWhere(a, p) + CountWhere(b, p)
    decreases |b|
  {
    if |b| == 0 {
      assert a + b == a;
    } else {
      var n := |b| - 1;
      assert (a + b)[..|a + b| - 1] == a + b[..n];
      CountWhereAppend(a, b[..n], p);
    }
  }

  /** A count depends only on the elements, not on their order. */
  lemma {:induction false} CountWherePermutation<T>(a: seq<T>, b: seq<T>, p: T -> bool)
    requires multiset(a) == multiset(b)
    ensures CountWhere(a, p) == CountWhere(b, p)
    decreases |a|
  {
    if |a| == 0 {
      assert |multiset(b)| == 0;
    } else {
      var n := |a| - 1;
      var x := a[n];
      assert a == a[..n] + [x];
      assert x in multiset(b);
      var k :| 0 <= k < |b| && b[k] == x;
      assert b == b[..k] + [x] + b[k + 1..];
      var rest := b[..k] + b[k + 1..];
      assert multiset(b) == multiset(b[..k]) + multiset{x} + multiset(b[k + 1..]);
      assert multiset(rest) == multiset(b[..k]) + multiset(b[k + 1..]);
      assert multiset(a) == multiset(a[..n]) + multiset{x};
      assert multiset(a[..n]) == multiset(a) - multiset{x};
      assert multiset(rest) == multiset(b) - multiset{x};
      CountWherePermutation(a[..n], rest, p);
      CountWhereAppend(b[..k] + [x], b[k + 1..], p);
      CountWhereAppend(b[..k], [x], p);
      CountWhereAppend(b[..k], b[k + 1..], p);
      assert CountWhere([x], p) == (if p(x) then 1 else 0) by {
        assert [x][..0] == [];
      }
    }
  }
}
