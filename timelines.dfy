/** The two timeline queries of `MemStorage`: `getActiveTimelines`, which
    sorts the active timelines by deadline with JavaScript's stable
    `Array.prototype.sort`, and `getTimelinesByType`, which does not sort. */
module Timelines {
  import opened Seqs
  import opened Tables
  import opened Schema

  /** The two timeline queries the store offers. */
  datatype TimelineQuery =
    | ActiveTimelines
    | TimelinesByKind(kind: string)

  /** The per-timeline test of each query. */
  predicate TimelineAdmits(q: TimelineQuery, t: Timeline)
    ensures TimelineAdmits(q, t) ==> t.isActive
    ensures q.TimelinesByKind? ==> (TimelineAdmits(q, t) <==> t.isActive && t.kind == q.kind)
  {
    match q
    case ActiveTimelines => t.isActive
    case TimelinesByKind(kind) => t.isActive && t.kind == kind
  }

  /** Ascending by deadline. */
  predicate SortedByDeadline(s: seq<Timeline>) {
    forall i, j :: 0 <= i < j < |s| ==> s[i].deadline <= s[j].deadline
  }

  /** The timeline falls due at instant `d`. */
  predicate DueAt(d: int, t: Timeline) {
    t.deadline == d
  }

  /** Places `x` ahead of the first timeline due no earlier than it, so
      that it stays ahead of its equals. */
  function InsertByDeadline(x: Timeline, s: seq<Timeline>): (r: seq<Timeline>)
    ensures |r| == |s| + 1
  {
    if s == [] || x.deadline <= s[0].deadline then [x] + s
    else [s[0]] + InsertByDeadline(x, s[1..])
  }

  /** `s.sort((a, b) => a.deadline - b.deadline)`: a stable insertion sort. */
  function SortByDeadline(s: seq<Timeline>): (r: seq<Timeline>)
    ensures |r| == |s|
  {
    if s == [] then [] else InsertByDeadline(s[0], SortByDeadline(s[1..]))
  }

  /** Inserting into a sorted sequence keeps it sorted; the result starts
      with `x` or with the old first timeline. */
  lemma {:induction false} InsertSorted(x: Timeline, s: seq<Timeline>)
    requires SortedByDeadline(s)
    ensures SortedByDeadline(InsertByDeadline(x, s))
    ensures s == [] || InsertByDeadline(x, s)[0] == x || InsertByDeadline(x, s)[0] == s[0]
  {
    if s != [] && x.deadline > s[0].deadline {
      InsertSorted(x, s[1..]);
      var rest := InsertByDeadline(x, s[1..]);
      assert s[0].deadline <= rest[0].deadline;
    }
  }

  /** Inserting adds exactly `x`. */
  lemma {:induction false} InsertPermutes(x: Timeline, s: seq<Timeline>)
    ensures multiset(InsertByDeadline(x, s)) == multiset(s) + multiset{x}
  {
    if s != [] && x.deadline > s[0].deadline {
      InsertPermutes(x, s[1..]);
      assert s == [s[0]] + s[1..];
    }
  }

  /** The sort's output is ascending by deadline. */
  lemma {:induction false} SortSorted(s: seq<Timeline>)
    ensures SortedByDeadline(SortByDeadline(s))
  {
    if s != [] {
      SortSorted(s[1..]);
      InsertSorted(s[0], SortByDeadline(s[1..]));
    }
  }

  /** The sort's output is a permutation of its input. */
  lemma {:induction false} SortPermutes(s: seq<Timeline>)
    ensures multiset(SortByDeadline(s)) == multiset(s)
  {
    if s != [] {
      SortPermutes(s[1..]);
      InsertPermutes(s[0], SortByDeadline(s[1..]));
      assert s == [s[0]] + s[1..];
    }
  }

  /** Two timelines with different deadlines are not both due at `d`. */
  lemma NotBothDue(x: Timeline, y: Timeline, d: int)
    requires x.deadline != y.deadline
    ensures Filter([x], d, DueAt) == [] || Filter([y], d, DueAt) == []
  {
  }

  /** An empty sequence commutes with any other. */
  lemma SwapEmpty(a: seq<Timeline>, b: seq<Timeline>, c: seq<Timeline>)
    requires a == [] || b == []
    ensures a + (b + c) == b + (a + c)
  {
  }

  /** Filtering `[x] + s` one element at a time. */
  lemma FilterFront(x: Timeline, s: seq<Timeline>, d: int)
    requires s != []
    ensures Filter([x] + s, d, DueAt) == Filter([x], d, DueAt) + (Filter([s[0]], d, DueAt) + Filter(s[1..], d, DueAt))
  {
    FilterHead(s, d);
    FilterAppend([x], s, d, DueAt);
  }

  /** Inserting `x` adds it ahead of every timeline due at the same instant. */
  lemma {:induction false} InsertKeepsTies(x: Timeline, s: seq<Timeline>, d: int)
    ensures Filter(InsertByDeadline(x, s), d, DueAt) == Filter([x] + s, d, DueAt)
  {
    if s != [] && x.deadline > s[0].deadline {
      InsertKeepsTies(x, s[1..], d);
      var tail := InsertByDeadline(x, s[1..]);
      var fs0, fx, fr := Filter([s[0]], d, DueAt), Filter([x], d, DueAt), Filter(s[1..], d, DueAt);
      assert InsertByDeadline(x, s) == [s[0]] + tail;
      FilterAppend([s[0]], tail, d, DueAt);
      FilterAppend([x], s[1..], d, DueAt);
      assert Filter(InsertByDeadline(x, s), d, DueAt) == fs0 + (fx + fr);
      FilterFront(x, s, d);
      NotBothDue(s[0], x, d);
      SwapEmpty(fs0, fx, fr);
    }
  }

  /** The sort is stable: the timelines due at any one instant come out in
      the order the table holds them. */
  lemma {:induction false} SortIsStable(s: seq<Timeline>, d: int)
    ensures Filter(SortByDeadline(s), d, DueAt) == Filter(s, d, DueAt)
  {
    if s != [] {
      SortIsStable(s[1..], d);
      InsertKeepsTies(s[0], SortByDeadline(s[1..]), d);
      assert ([s[0]] + SortByDeadline(s[1..]))[1..] == SortByDeadline(s[1..]);
    }
  }

  /** Filtering a non-empty sequence: its head, then its tail. */
  lemma FilterHead(r: seq<Timeline>, d: int)
    requires r != []
    ensures Filter(r, d, DueAt) == Filter([r[0]], d, DueAt) + Filter(r[1..], d, DueAt)
  {
    FilterAppend([r[0]], r[1..], d, DueAt);
    assert [r[0]] + r[1..] == r;
  }

  /** A one-element sequence filtered by its own deadline is itself. */
  lemma FilterOwnDeadline(x: Timeline)
    ensures Filter([x], x.deadline, DueAt) == [x]
  {
  }

  /** If `r1`'s first timeline is among `r2`'s timelines due at the same
      instant, sorted `r2` starts no later. */
  lemma HeadNotLater(r1: seq<Timeline>, r2: seq<Timeline>)
    requires SortedByDeadline(r2) && r1 != [] && r2 != []
    requires Filter(r1, r1[0].deadline, DueAt) == Filter(r2, r1[0].deadline, DueAt)
    ensures r2[0].deadline <= r1[0].deadline
  {
    FilterHead(r1, r1[0].deadline);
    FilterOwnDeadline(r1[0]);
    assert r1[0] in Filter(r2, r1[0].deadline, DueAt);
    var j :| 0 <= j < |r2| && r2[j] == r1[0];
  }

  /** Sorted sequences that agree on the timelines due when either of them
      starts begin with the same timeline. */
  lemma SortedTiesSameHead(r1: seq<Timeline>, r2: seq<Timeline>)
    requires SortedByDeadline(r1) && SortedByDeadline(r2) && r1 != [] && r2 != []
    requires Filter(r1, r1[0].deadline, DueAt) == Filter(r2, r1[0].deadline, DueAt)
    requires Filter(r1, r2[0].deadline, DueAt) == Filter(r2, r2[0].deadline, DueAt)
    ensures r1[0] == r2[0]
  {
    HeadNotLater(r1, r2);
    HeadNotLater(r2, r1);
    var d := r1[0].deadline;
    FilterHead(r1, d);
    FilterHead(r2, d);
    FilterOwnDeadline(r1[0]);
    FilterOwnDeadline(r2[0]);
    assert Filter(r1, d, DueAt)[0] == r1[0];
    assert Filter(r2, d, DueAt)[0] == r2[0];
  }

  /** Equal heads aside, the tails agree on every instant's timelines. */
  lemma SortedTiesSameTail(r1: seq<Timeline>, r2: seq<Timeline>, d: int)
    requires r1 != [] && r2 != [] && r1[0] == r2[0]
    requires Filter(r1, d, DueAt) == Filter(r2, d, DueAt)
    ensures Filter(r1[1..], d, DueAt) == Filter(r2[1..], d, DueAt)
  {
    FilterHead(r1, d);
    FilterHead(r2, d);
    var h := Filter([r1[0]], d, DueAt);
    assert Filter(r1[1..], d, DueAt) == (h + Filter(r1[1..], d, DueAt))[|h|..];
  }

  /** A non-empty sequence has a timeline due when it starts. */
  lemma FirstIsDue(r: seq<Timeline>)
    requires r != []
    ensures Filter(r, r[0].deadline, DueAt) != []
  {
    assert r[0] in Filter(r, r[0].deadline, DueAt);
  }

  /** Agreeing on every instant's timelines, an empty sequence only
      matches an empty one. */
  lemma SortedTiesEmpty(r1: seq<Timeline>, r2: seq<Timeline>)
    requires forall d :: Filter(r1, d, DueAt) == Filter(r2, d, DueAt)
    requires r1 == [] || r2 == []
    ensures r1 == r2
  {
    if r1 != [] {
      FirstIsDue(r1);
    }
    if r2 != [] {
      FirstIsDue(r2);
    }
  }

  /** Agreeing sorted sequences share their head, their tails still agree,
      and the tails are still sorted. */
  lemma SortedTiesStep(r1: seq<Timeline>, r2: seq<Timeline>)
    requires SortedByDeadline(r1) && SortedByDeadline(r2)
    requires forall d :: Filter(r1, d, DueAt) == Filter(r2, d, DueAt)
    requires r1 != [] && r2 != []
    ensures r1[0] == r2[0]
    ensures SortedByDeadline(r1[1..]) && SortedByDeadline(r2[1..])
    ensures forall d :: Filter(r1[1..], d, DueAt) == Filter(r2[1..], d, DueAt)
  {
    SortedTiesSameHead(r1, r2);
    forall d ensures Filter(r1[1..], d, DueAt) == Filter(r2[1..], d, DueAt) {
      SortedTiesSameTail(r1, r2, d);
    }
  }

  /** Two sorted sequences that agree on the timelines due at every instant
      are equal: sortedness and tie order leave no freedom. */
  lemma {:induction false} SortedTiesDetermine(r1: seq<Timeline>, r2: seq<Timeline>)
    requires SortedByDeadline(r1) && SortedByDeadline(r2)
    requires forall d :: Filter(r1, d, DueAt) == Filter(r2, d, DueAt)
    ensures r1 == r2
  {
    if r1 == [] || r2 == [] {
      SortedTiesEmpty(r1, r2);
    } else {
      SortedTiesStep(r1, r2);
      SortedTiesDetermine(r1[1..], r2[1..]);
      assert r1 == [r1[0]] + r1[1..] && r2 == [r2[0]] + r2[1..];
    }
  }

  /** Runs a timeline query over the table. */
  function QueryTimelines(t: Table<Timeline>, q: TimelineQuery): (r: seq<Timeline>)
    ensures forall x :: x in r <==> x in Values(t) && TimelineAdmits(q, x)
  {
    var kept := Filter(Values(t), q, TimelineAdmits);
    match q
    case ActiveTimelines =>
      SortPermutes(kept);
      assert forall x :: x in SortByDeadline(kept) <==> x in multiset(kept);
      SortByDeadline(kept)
    case TimelinesByKind(_) => kept
  }

  /** `getActiveTimelines` returns every active timeline exactly as often as
      the table holds it, ascending by deadline, with ties in table order. */
  lemma ActiveTimelinesSpec(t: Table<Timeline>, d: int)
    ensures SortedByDeadline(QueryTimelines(t, ActiveTimelines))
    ensures multiset(QueryTimelines(t, ActiveTimelines)) == multiset(Filter(Values(t), ActiveTimelines, TimelineAdmits))
    ensures Filter(QueryTimelines(t, ActiveTimelines), d, DueAt) == Filter(Filter(Values(t), ActiveTimelines, TimelineAdmits), d, DueAt)
  {
    var kept := Filter(Values(t), ActiveTimelines, TimelineAdmits);
    SortSorted(kept);
    SortPermutes(kept);
    SortIsStable(kept, d);
  }

  /** Any stable sort by deadline of the active timelines, whatever
      algorithm the engine uses, yields exactly `getActiveTimelines`. */
  lemma ActiveTimelinesIsTheStableSort(t: Table<Timeline>, r: seq<Timeline>)
    requires SortedByDeadline(r)
    requires forall d :: Filter(r, d, DueAt) == Filter(Filter(Values(t), ActiveTimelines, TimelineAdmits), d, DueAt)
    ensures r == QueryTimelines(t, ActiveTimelines)
  {
    var kept := Filter(Values(t), ActiveTimelines, TimelineAdmits);
    forall d ensures Filter(r, d, DueAt) == Filter(SortByDeadline(kept), d, DueAt) {
      SortIsStable(kept, d);
    }
    SortSorted(kept);
    SortedTiesDetermine(r, SortByDeadline(kept));
  }

  /** `getTimelinesByType` keeps table order: a table split in two answers
      with the first part's results followed by the second's. */
  lemma TimelinesByKindInTableOrder(a: Table<Timeline>, b: Table<Timeline>, kind: string)
    ensures QueryTimelines(a + b, TimelinesByKind(kind)) ==
              QueryTimelines(a, TimelinesByKind(kind)) + QueryTimelines(b, TimelinesByKind(kind))
  {
    ValuesAppend(a, b);
    FilterAppend(Values(a), Values(b), TimelinesByKind(kind), TimelineAdmits);
  }
}
