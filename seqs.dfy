/** `Array.prototype.filter` and `find` over the rows of a table, with the
    criterion given as a named predicate `keep(q, x)` and its argument `q`. */
module Seqs {
  import opened Base

  /** The elements of `s` that `keep(q, _)` accepts, in their order in `s`. */
  function Filter<T(!new), Q>(s: seq<T>, q: Q, keep: (Q, T) -> bool): (r: seq<T>)
    ensures |r| <= |s|
    ensures forall x :: x in r <==> x in s && keep(q, x)
  {
    if s == [] then []
    else (if keep(q, s[0]) then [s[0]] else []) + Filter(s[1..], q, keep)
  }

  /** Filtering distributes over concatenation: the kept rows keep their
      relative order. */
  lemma {:induction false} FilterAppend<T(!new), Q>(a: seq<T>, b: seq<T>, q: Q, keep: (Q, T) -> bool)
    ensures Filter(a + b, q, keep) == Filter(a, q, keep) + Filter(b, q, keep)
  {
    if a == [] {
      assert a + b == b;
    } else {
      assert (a + b)[1..] == a[1..] + b;
      FilterAppend(a[1..], b, q, keep);
    }
  }

  /** Filtering keeps every copy of an accepted row and no copy of a rejected one. */
  lemma {:induction false} FilterMultiset<T(!new), Q>(s: seq<T>, q: Q, keep: (Q, T) -> bool, x: T)
    ensures multiset(Filter(s, q, keep))[x] == if keep(q, x) then multiset(s)[x] else 0
  {
    if s != [] {
      FilterMultiset(s[1..], q, keep, x);
      assert s == [s[0]] + s[1..];
    }
  }

  /** Two criteria that agree on every row of `s` select the same sequence. */
  lemma {:induction false} FilterAgree<T(!new), Q1, Q2>(s: seq<T>, q1: Q1, keep1: (Q1, T) -> bool, q2: Q2, keep2: (Q2, T) -> bool)
    requires forall x :: x in s ==> keep1(q1, x) == keep2(q2, x)
    ensures Filter(s, q1, keep1) == Filter(s, q2, keep2)
  {
    if s != [] {
      assert s[0] in s;
      assert forall x :: x in s[1..] ==> x in s;
      FilterAgree(s[1..], q1, keep1, q2, keep2);
    }
  }

  /** Index of the first element of `s` that `keep(q, _)` accepts, if any. */
  function FirstIndex<T(!new), Q>(s: seq<T>, q: Q, keep: (Q, T) -> bool): (r: Option<nat>)
    ensures r.Some? ==> r.value < |s| && keep(q, s[r.value])
    ensures r.Some? ==> forall j :: 0 <= j < r.value ==> !keep(q, s[j])
    ensures r.None? <==> forall j :: 0 <= j < |s| ==> !keep(q, s[j])
  {
    if s == [] then None
    else if keep(q, s[0]) then Some(0)
    else match FirstIndex(s[1..], q, keep)
      case None => None
      case Some(i) => Some(i + 1)
  }

  /** `find`: the first element `keep(q, _)` accepts. */
  function Find<T(!new), Q>(s: seq<T>, q: Q, keep: (Q, T) -> bool): (r: Option<T>)
    ensures r.Some? ==> r.value in s && keep(q, r.value)
    ensures r.None? <==> forall x :: x in s ==> !keep(q, x)
    ensures r.Some? ==> exists i :: 0 <= i < |s| && s[i] == r.value && forall j :: 0 <= j < i ==> !keep(q, s[j])
  {
    match FirstIndex(s, q, keep)
    case None => None
    case Some(i) => Some(s[i])
  }
}
