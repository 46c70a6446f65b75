/** The `orderBy: { [sortBy]: sortOrder }` clause of `listScreenshots`: one
    key, one direction, no tie-breaker. PostgreSQL places NULL keys last in
    ascending and first in descending order, so an absent `takenAt` sorts
    as the greatest key. */
module Ordering {
  import opened Wrappers
  import opened Store
  import opened Schemas

  /** The value of the sort column; only `takenAt` is nullable. */
  function Key(s: Screenshot, field: SortField): Option<Time> {
    match field
    case CreatedAt => Some(s.createdAt)
    case UpdatedAt => Some(s.updatedAt)
    case TakenAt => s.takenAt
  }

  /** Ascending key order with NULL greatest. */
  predicate KeyLe(a: Option<Time>, b: Option<Time>) {
    b.None? || (a.Some? && a.value <= b.value)
  }

  /** `a` may come before `b` in the requested order. */
  predicate InOrder(a: Screenshot, b: Screenshot, field: SortField, order: SortOrder) {
    if order == Asc then KeyLe(Key(a, field), Key(b, field))
    else KeyLe(Key(b, field), Key(a, field))
  }

  predicate SortedBy(ss: seq<Screenshot>, field: SortField, order: SortOrder) {
    forall i, j :: 0 <= i < j < |ss| ==> InOrder(ss[i], ss[j], field, order)
  }

  /** `InOrder` is a total preorder: any two records are comparable and the
      relation is transitive. */
  lemma InOrderTotalPreorder(a: Screenshot, b: Screenshot, c: Screenshot, field: SortField, order: SortOrder)
    ensures InOrder(a, a, field, order)
    ensures InOrder(a, b, field, order) || InOrder(b, a, field, order)
    ensures InOrder(a, b, field, order) && InOrder(b, c, field, order) ==> InOrder(a, c, field, order)
  {
  }

  /** Places `x` before the first element it may precede. */
  function Insert(x: Screenshot, ss: seq<Screenshot>, field: SortField, order: SortOrder): (r: seq<Screenshot>)
    requires SortedBy(ss, field, order)
    ensures SortedBy(r, field, order)
    ensures multiset(r) == multiset(ss) + multiset{x}
    ensures |r| == |ss| + 1
  {
    if ss == [] then [x]
    else if InOrder(x, ss[0], field, order) then
      LeadsAll(x, ss, field, order);
      LeadSorted(x, ss, field, order);
      [x] + ss
    else
      var rest := Insert(x, ss[1..], field, order);
      HeadLeadsRest(x, ss, rest, field, order);
      [ss[0]] + rest
  }

  /** An element that may precede the head of a sorted sequence may precede all of it. */
  lemma LeadsAll(x: Screenshot, ss: seq<Screenshot>, field: SortField, order: SortOrder)
    requires SortedBy(ss, field, order) && ss != [] && InOrder(x, ss[0], field, order)
    ensures forall y :: y in multiset(ss) ==> InOrder(x, y, field, order)
  {
    forall y | y in multiset(ss)
      ensures InOrder(x, y, field, order)
    {
      var j :| 0 <= j < |ss| && ss[j] == y;
      InOrderTotalPreorder(x, ss[0], y, field, order);
    }
  }

  /** When `x` goes after the head, the head still leads the sorted tail with `x` inserted. */
  lemma HeadLeadsRest(x: Screenshot, ss: seq<Screenshot>, rest: seq<Screenshot>, field: SortField, order: SortOrder)
    requires SortedBy(ss, field, order) && ss != [] && !InOrder(x, ss[0], field, order)
    requires SortedBy(rest, field, order) && multiset(rest) == multiset(ss[1..]) + multiset{x}
    ensures SortedBy([ss[0]] + rest, field, order)
    ensures multiset([ss[0]] + rest) == multiset(ss) + multiset{x}
  {
    InOrderTotalPreorder(x, ss[0], x, field, order);
    forall y | y in multiset(rest)
      ensures InOrder(ss[0], y, field, order)
    {
      if y != x {
        assert y in multiset(ss[1..]);
        var j :| 0 <= j < |ss[1..]| && ss[1..][j] == y;
        assert ss[j + 1] == y;
      }
    }
    assert ss == [ss[0]] + ss[1..];
    LeadSorted(ss[0], rest, field, order);
  }

  /** Prepending an element that may precede every element keeps a sequence sorted. */
  lemma LeadSorted(x: Screenshot, ss: seq<Screenshot>, field: SortField, order: SortOrder)
    requires SortedBy(ss, field, order)
    requires forall y :: y in multiset(ss) ==> InOrder(x, y, field, order)
    ensures SortedBy([x] + ss, field, order)
  {
    forall i, j | 0 <= i < j < |[x] + ss|
      ensures InOrder(([x] + ss)[i], ([x] + ss)[j], field, order)
    {
      if i == 0 {
        assert ([x] + ss)[j] == ss[j - 1];
        assert ss[j - 1] in multiset(ss);
      }
    }
  }

  /** Insertion sort: the matching rows in the order the query asks for. */
  function Sort(ss: seq<Screenshot>, field: SortField, order: SortOrder): (r: seq<Screenshot>)
    ensures SortedBy(r, field, order)
    ensures multiset(r) == multiset(ss)
    ensures |r| == |ss|
  {
    if ss == [] then []
    else
      assert ss == [ss[0]] + ss[1..];
      Insert(ss[0], Sort(ss[1..], field, order), field, order)
  }

  /** `a` comes strictly before `b`: its key is smaller in the requested order. */
  predicate Before(a: Screenshot, b: Screenshot, field: SortField, order: SortOrder) {
    InOrder(a, b, field, order) && !InOrder(b, a, field, order)
  }

  predicate StrictlySorted(ss: seq<Screenshot>, field: SortField, order: SortOrder) {
    forall i, j :: 0 <= i < j < |ss| ==> Before(ss[i], ss[j], field, order)
  }

  lemma StrictlySortedTail(ss: seq<Screenshot>, field: SortField, order: SortOrder)
    requires StrictlySorted(ss, field, order) && ss != []
    ensures StrictlySorted(ss[1..], field, order)
  {
    forall i, j | 0 <= i < j < |ss[1..]|
      ensures Before(ss[1..][i], ss[1..][j], field, order)
    {
      assert ss[1..][i] == ss[i + 1] && ss[1..][j] == ss[j + 1];
    }
  }

  /** Sorting rows whose keys are already strictly ordered changes nothing. */
  lemma {:induction false} SortKeepsStrictlySorted(ss: seq<Screenshot>, field: SortField, order: SortOrder)
    requires StrictlySorted(ss, field, order)
    ensures Sort(ss, field, order) == ss
  {
    if ss != [] {
      var tail := ss[1..];
      StrictlySortedTail(ss, field, order);
      SortKeepsStrictlySorted(tail, field, order);
      if tail != [] {
        assert Before(ss[0], ss[1], field, order);
      }
      assert ss == [ss[0]] + tail;
    }
  }

  /** Without a tie-breaker the order is not determined: two records with
      equal keys are correctly sorted either way round. */
  lemma TiesHaveNoFixedOrder(a: Screenshot, b: Screenshot, field: SortField, order: SortOrder)
    requires Key(a, field) == Key(b, field) && a != b
    ensures SortedBy([a, b], field, order) && SortedBy([b, a], field, order)
    ensures [a, b] != [b, a] && multiset([a, b]) == multiset([b, a])
  {
    assert [a, b][0] != [b, a][0];
  }

  /** In ascending `takenAt` order a screenshot without `takenAt` comes after
      every screenshot that has one; in descending order it comes first. */
  lemma NullTakenAtPlacement(dated: Screenshot, undated: Screenshot)
    requires dated.takenAt.Some? && undated.takenAt.None?
    ensures InOrder(dated, undated, TakenAt, Asc) && !InOrder(undated, dated, TakenAt, Asc)
    ensures InOrder(undated, dated, TakenAt, Desc) && !InOrder(dated, undated, TakenAt, Desc)
  {
  }
}
