/** The SEND toggle of the student table: the list is mapped, and each
    record with the clicked id is replaced by a copy whose `send` is flipped. */
module SendToggle {

  import opened Records
  import opened Filter

  /** One record of the map: flipped when its id is the clicked one. */
  function Flip(st: Student, id: int): (flipped: Student) {
    if st.id == id then st.(send := !st.send) else st
  }

  /** `students.map(...)` with `Flip`. */
  function Toggled(students: seq<Student>, id: int): (r: seq<Student>)
    ensures |r| == |students|
    ensures forall i :: 0 <= i < |r| ==>
      SameExceptSend(students[i], r[i]) && (r[i].send != students[i].send <==> students[i].id == id)
  {
    if students == [] then [] else [Flip(students[0], id)] + Toggled(students[1..], id)
  }

  /** Toggling the same id twice restores the list. */
  lemma ToggleTwice(students: seq<Student>, id: int)
    ensures Toggled(Toggled(students, id), id) == students
  {
  }

  /** Toggling an id that no record has changes nothing. */
  lemma ToggleAbsentId(students: seq<Student>, id: int)
    requires forall i :: 0 <= i < |students| ==> students[i].id != id
    ensures Toggled(students, id) == students
  {
  }

  /** The filter looks only at names, so toggling commutes with filtering:
      the same students stay visible, with their flags flipped. */
  lemma {:induction false} ToggleCommutesWithFilter(students: seq<Student>, id: int, filterText: string)
    ensures Filtered(Toggled(students, id), filterText) == Toggled(Filtered(students, filterText), id)
  {
    if students != [] {
      var st := students[0];
      assert Toggled(students, id) == [Flip(st, id)] + Toggled(students[1..], id);
      assert Toggled(students, id)[1..] == Toggled(students[1..], id);
      assert Matches(Flip(st, id), filterText) == Matches(st, filterText);
      ToggleCommutesWithFilter(students[1..], id, filterText);
      if Matches(st, filterText) {
        assert Toggled([st] + Filtered(students[1..], filterText), id)
          == [Flip(st, id)] + Toggled(Filtered(students[1..], filterText), id);
      }
    }
  }
}
