/** The sort of the visible-rows computation. The comparator comes from a
    factory whose code is not part of this model, so it is a parameter:
    a function answering, as `Array.prototype.sort` expects, a positive
    number when its first argument belongs after its second. */
module Sorting {

  import opened Records

  type Comparator = (Student, Student) -> int

  /** `cmp(a, b) <= 0` ("a may come first") is total and transitive. */
  ghost predicate TotalPreorder(cmp: Comparator) {
    Total(cmp) && Transitive(cmp)
  }

  ghost predicate Total(cmp: Comparator) {
    forall a, b :: cmp(a, b) <= 0 || cmp(b, a) <= 0
  }

  ghost predicate Transitive(cmp: Comparator) {
    forall a, b, c :: cmp(a, b) <= 0 && cmp(b, c) <= 0 ==> cmp(a, c) <= 0
  }

  /** Every earlier element may come before every later one. */
  ghost predicate SortedBy(s: seq<Student>, cmp: Comparator) {
    forall i, j :: 0 <= i < j < |s| ==> cmp(s[i], s[j]) <= 0
  }

  /** Inserts `x` in front of the first element it need not follow, so that
      elements the comparator ties keep their relative order. */
  function Insert(x: Student, sorted: seq<Student>, cmp: Comparator): (r: seq<Student>)
    ensures |r| == |sorted| + 1
    ensures multiset(r) == multiset(sorted) + multiset{x}
  {
    if sorted == [] || cmp(x, sorted[0]) <= 0 then
      [x] + sorted
    else
      assert sorted == [sorted[0]] + sorted[1..];
      [sorted[0]] + Insert(x, sorted[1..], cmp)
  }

  /** Inserting into a sorted list keeps it sorted. */
  lemma {:induction false} InsertKeepsSorted(x: Student, sorted: seq<Student>, cmp: Comparator)
    ensures TotalPreorder(cmp) && SortedBy(sorted, cmp) ==> SortedBy(Insert(x, sorted, cmp), cmp)
  {
    if TotalPreorder(cmp) && SortedBy(sorted, cmp) && sorted != [] {
      if cmp(x, sorted[0]) <= 0 {
        InsertInFront(x, sorted, cmp);
      } else {
        InsertKeepsSorted(x, sorted[1..], cmp);
        InsertBehind(x, sorted, cmp);
      }
    }
  }

  /** `x` goes in front: it may precede the head, hence every element. */
  lemma InsertInFront(x: Student, sorted: seq<Student>, cmp: Comparator)
    requires Transitive(cmp) && SortedBy(sorted, cmp)
    requires sorted != [] && cmp(x, sorted[0]) <= 0
    ensures SortedBy([x] + sorted, cmp)
  {
  }

  /** `x` goes behind the head: the head may precede `x` and the rest. */
  lemma InsertBehind(x: Student, sorted: seq<Student>, cmp: Comparator)
    requires Total(cmp) && SortedBy(sorted, cmp)
    requires sorted != [] && cmp(x, sorted[0]) > 0
    requires SortedBy(Insert(x, sorted[1..], cmp), cmp)
    ensures SortedBy([sorted[0]] + Insert(x, sorted[1..], cmp), cmp)
  {
    var rest := Insert(x, sorted[1..], cmp);
    assert cmp(sorted[0], x) <= 0;
    forall y | y in rest ensures cmp(sorted[0], y) <= 0 {
      InsertMember(x, sorted[1..], cmp, y);
      if y != x {
        var k :| 0 <= k < |sorted[1..]| && sorted[1..][k] == y;
        assert sorted[k + 1] == y;
      }
    }
    ConsSorted(sorted[0], rest, cmp);
  }

  /** A sorted list stays sorted behind a head that may precede all of it. */
  lemma ConsSorted(head: Student, rest: seq<Student>, cmp: Comparator)
    requires SortedBy(rest, cmp)
    requires forall y | y in rest :: cmp(head, y) <= 0
    ensures SortedBy([head] + rest, cmp)
  {
  }

  /** Insertion brings in `x` and nothing else. */
  lemma InsertMember(x: Student, sorted: seq<Student>, cmp: Comparator, y: Student)
    ensures y in Insert(x, sorted, cmp) ==> y == x || y in sorted
  {
    var r := Insert(x, sorted, cmp);
    if y in r {
      assert y in multiset(r);
    }
  }

  /** A stable insertion sort: `[...list].sort(cmp)` on a copy of the list. */
  function SortBy(s: seq<Student>, cmp: Comparator): (r: seq<Student>)
    ensures |r| == |s|
    ensures multiset(r) == multiset(s)
    ensures TotalPreorder(cmp) ==> SortedBy(r, cmp)
  {
    if s == [] then []
    else
      assert s == [s[0]] + s[1..];
      InsertKeepsSorted(s[0], SortBy(s[1..], cmp), cmp);
      Insert(s[0], SortBy(s[1..], cmp), cmp)
  }
}
