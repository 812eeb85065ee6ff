/** The filter of the student table: a case-insensitive substring test on
    the forename or the surname, applied to the whole list in order. */
module Filter {

  import opened Records
  import opened Text

  /** A student is kept when the lower-cased filter text is a substring of
      the lower-cased forename or of the lower-cased surname. */
  predicate Matches(st: Student, filterText: string) {
    Includes(Lower(st.forename), Lower(filterText)) || Includes(Lower(st.surname), Lower(filterText))
  }

  /** `Matches` is the substring test it is meant to be, in both directions. */
  lemma MatchesIsSubstringTest(st: Student, filterText: string)
    ensures Matches(st, filterText) <==>
      Occurs(Lower(filterText), Lower(st.forename)) || Occurs(Lower(filterText), Lower(st.surname))
  {
  }

  /** `students.filter(...)`: the matching students, in list order. */
  function Filtered(students: seq<Student>, filterText: string): (kept: seq<Student>)
    ensures |kept| <= |students|
  {
    if students == [] then []
    else
      var rest := Filtered(students[1..], filterText);
      if Matches(students[0], filterText) then [students[0]] + rest else rest
  }

  /** A student is in the filtered list exactly when it is in the list and
      matches the filter text. */
  lemma {:induction false} FilteredMembership(students: seq<Student>, filterText: string, x: Student)
    ensures x in Filtered(students, filterText) <==> x in students && Matches(x, filterText)
  {
    if students != [] {
      FilteredMembership(students[1..], filterText, x);
      assert x in students <==> x == students[0] || x in students[1..];
    }
  }

  /** `idx` lists, strictly increasing, the positions of `students` that
      `kept` holds, and these are exactly the positions whose student
      matches the filter. */
  ghost predicate KeptPositions(idx: seq<int>, students: seq<Student>, kept: seq<Student>, filterText: string) {
    && |idx| == |kept|
    && (forall k :: 0 <= k < |idx| ==> 0 <= idx[k] < |students| && kept[k] == students[idx[k]])
    && (forall k, l :: 0 <= k < l < |idx| ==> idx[k] < idx[l])
    && (forall i :: 0 <= i < |students| ==> (i in idx <==> Matches(students[i], filterText)))
  }

  /** The filtered list is an order-preserving subsequence of `students`
      that takes every matching position and no other. */
  lemma {:induction false} FilteredIsOrderedSelection(students: seq<Student>, filterText: string)
    ensures exists idx :: KeptPositions(idx, students, Filtered(students, filterText), filterText)
  {
    if students == [] {
      assert Filtered(students, filterText) == [];
      assert KeptPositions([], students, [], filterText);
    } else {
      var tail := students[1..];
      FilteredIsOrderedSelection(tail, filterText);
      var idx' :| KeptPositions(idx', tail, Filtered(tail, filterText), filterText);
      KeptPositionsCons(idx', students, filterText);
    }
  }

  /** Positions in `students[1..]`, renumbered as positions in `students`. */
  function Shift(idx: seq<int>): (shifted: seq<int>)
    ensures |shifted| == |idx|
    ensures forall k :: 0 <= k < |idx| ==> shifted[k] == idx[k] + 1
  {
    seq(|idx|, k requires 0 <= k < |idx| => idx[k] + 1)
  }

  lemma ShiftMembership(idx: seq<int>, i: int)
    ensures i in Shift(idx) <==> i - 1 in idx
  {
  }

  /** One step of the selection: the positions kept from the tail, shifted
      by one, and position 0 in front when the head matches. */
  lemma KeptPositionsCons(idx': seq<int>, students: seq<Student>, filterText: string)
    requires |students| > 0
    requires KeptPositions(idx', students[1..], Filtered(students[1..], filterText), filterText)
    ensures exists idx :: KeptPositions(idx, students, Filtered(students, filterText), filterText)
  {
    var keep := Matches(students[0], filterText);
    var idx := if keep then [0] + Shift(idx') else Shift(idx');
    var rest := Filtered(students[1..], filterText);
    var kept := if keep then [students[0]] + rest else rest;
    assert kept == Filtered(students, filterText);
    ConsElements(idx', students, rest, keep);
    ConsIncreasing(idx', keep);
    ConsPositions(idx', students, filterText);
    assert KeptPositions(idx, students, kept, filterText);
  }

  lemma ConsElements(idx': seq<int>, students: seq<Student>, rest: seq<Student>, keep: bool)
    requires |students| > 0 && |idx'| == |rest|
    requires forall k :: 0 <= k < |idx'| ==> 0 <= idx'[k] < |students| - 1 && rest[k] == students[1..][idx'[k]]
    ensures var idx := if keep then [0] + Shift(idx') else Shift(idx');
            var kept := if keep then [students[0]] + rest else rest;
            forall k :: 0 <= k < |idx| ==> 0 <= idx[k] < |students| && kept[k] == students[idx[k]]
  {
    var shifted := Shift(idx');
    forall k | 0 <= k < |shifted|
      ensures 0 <= shifted[k] < |students| && rest[k] == students[shifted[k]]
    {
      assert students[1..][idx'[k]] == students[idx'[k] + 1];
    }
    if keep {
      var idx := [0] + shifted;
      var kept := [students[0]] + rest;
      forall k | 0 < k < |idx|
        ensures 0 <= idx[k] < |students| && kept[k] == students[idx[k]]
      {
        assert idx[k] == shifted[k - 1] && kept[k] == rest[k - 1];
      }
    }
  }

  lemma ConsIncreasing(idx': seq<int>, keep: bool)
    requires forall k :: 0 <= k < |idx'| ==> 0 <= idx'[k]
    requires forall k, l :: 0 <= k < l < |idx'| ==> idx'[k] < idx'[l]
    ensures var idx := if keep then [0] + Shift(idx') else Shift(idx');
            forall k, l :: 0 <= k < l < |idx| ==> idx[k] < idx[l]
  {
  }

  lemma ConsPositions(idx': seq<int>, students: seq<Student>, filterText: string)
    requires |students| > 0
    requires forall k :: 0 <= k < |idx'| ==> 0 <= idx'[k]
    requires forall i :: 0 <= i < |students| - 1 ==> (i in idx' <==> Matches(students[1..][i], filterText))
    ensures var keep := Matches(students[0], filterText);
            var idx := if keep then [0] + Shift(idx') else Shift(idx');
            forall i :: 0 <= i < |students| ==> (i in idx <==> Matches(students[i], filterText))
  {
    var keep := Matches(students[0], filterText);
    var idx := if keep then [0] + Shift(idx') else Shift(idx');
    forall i | 0 <= i < |students|
      ensures i in idx <==> Matches(students[i], filterText)
    {
      ShiftMembership(idx', i);
      if i > 0 {
        assert students[i] == students[1..][i - 1];
      }
    }
  }

  /** The empty filter text keeps every student, in the original order. */
  lemma {:induction false} EmptyFilterKeepsAll(students: seq<Student>)
    ensures Filtered(students, "") == students
  {
    if students != [] {
      IncludesEmpty(Lower(students[0].forename));
      assert Lower("") == "";
      EmptyFilterKeepsAll(students[1..]);
    }
  }

  /** Lower-casing the filter text first changes nothing, because the test
      lower-cases it anyway (see `FilterIgnoresCase` for case-insensitivity
      itself). */
  lemma MatchesIgnoresFilterCase(st: Student, filterText: string)
    ensures Matches(st, Lower(filterText)) == Matches(st, filterText)
  {
    LowerIdempotent(filterText);
  }

  /** Two filter texts that differ only in the case of their letters keep
      the same students: "AN", "an" and "aN" all keep "Ann" and "Dan". */
  lemma {:induction false} FilterIgnoresCase(students: seq<Student>, text1: string, text2: string)
    requires EqualIgnoringCase(text1, text2)
    ensures Filtered(students, text1) == Filtered(students, text2)
  {
    EqualIgnoringCaseLowersAlike(text1, text2);
    if students != [] {
      FilterIgnoresCase(students[1..], text1, text2);
    }
  }

}
