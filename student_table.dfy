/** The student table's view-model: six state fields, the event handlers
    that update them, and the three values derived from them on each render
    (the filtered list, the visible rows and the padding-row count). */
module StudentTable {

  import opened Records
  import opened Filter
  import opened Sorting
  import opened Pagination
  import opened SendToggle

  datatype Order = Asc | Desc

  /** The direction after a click on the header of column `property`: the
      active column flips from ascending to descending, and everything else
      (a descending active column, a new column) becomes ascending. */
  function NextOrder(order: Order, orderBy: string, property: string): (next: Order) {
    if orderBy == property && order == Asc then Desc else Asc
  }

  /** A second click on the same header always reverses the direction the
      first click chose. */
  lemma SecondClickReverses(order: Order, orderBy: string, property: string)
    ensures NextOrder(NextOrder(order, orderBy, property), property, property)
      != NextOrder(order, orderBy, property)
  {
  }

  /** The rows shown: the filtered list, sorted on a copy with the
      comparator for the current direction and column, cut to the current
      page. The window is a slice of a sorted permutation of the filtered
      list, and an out-of-range page shows nothing. */
  function VisibleRows(students: seq<Student>, filterText: string, cmp: Comparator, page: nat, rowsPerPage: nat)
    : (rows: seq<Student>)
    ensures exists sorted ::
      && multiset(sorted) == multiset(Filtered(students, filterText))
      && (TotalPreorder(cmp) ==> SortedBy(sorted, cmp))
      && rows == Window(sorted, page, rowsPerPage)
    ensures |rows| == Min(rowsPerPage, Max(0, |Filtered(students, filterText)| - page * rowsPerPage))
  {
    Window(SortBy(Filtered(students, filterText), cmp), page, rowsPerPage)
  }

  /** Every visible row is a student of the list that matches the filter. */
  lemma VisibleRowsMatch(students: seq<Student>, filterText: string, cmp: Comparator, page: nat, rowsPerPage: nat)
    ensures forall x :: x in VisibleRows(students, filterText, cmp, page, rowsPerPage) ==>
      x in students && Matches(x, filterText)
  {
    var filtered := Filtered(students, filterText);
    var sorted := SortBy(filtered, cmp);
    forall x | x in Window(sorted, page, rowsPerPage) ensures x in students && Matches(x, filterText) {
      WindowMember(sorted, page, rowsPerPage, x);
      assert x in multiset(sorted);
      assert x in multiset(filtered);
      FilteredMembership(students, filterText, x);
    }
  }

  lemma WindowMember<T>(sorted: seq<T>, page: nat, rowsPerPage: nat, x: T)
    ensures x in Window(sorted, page, rowsPerPage) ==> x in sorted
  {
  }

  /** The view-model's state, one field per `useState` of the component. */
  class TableState {
    var students: seq<Student>
    var order: Order
    var orderBy: string
    var page: nat
    var rowsPerPage: nat
    var filterText: string

    /** The initial state: no students yet, sorted ascending by forename,
        first page, five rows per page, empty filter. */
    constructor ()
      ensures students == [] && order == Asc && orderBy == "forename"
      ensures page == 0 && rowsPerPage == 5 && filterText == ""
    {
      students := [];
      order := Asc;
      orderBy := "forename";
      page := 0;
      rowsPerPage := 5;
      filterText := "";
    }

    /** The loaded list replaces the student list; nothing else changes. */
    method Load(data: seq<Student>)
      modifies this
      ensures students == data
      ensures order == old(order) && orderBy == old(orderBy) && page == old(page)
      ensures rowsPerPage == old(rowsPerPage) && filterText == old(filterText)
    {
      students := data;
    }

    /** A click on a column header: that column becomes the sort column,
        descending exactly when it was already the ascending sort column.
        The page is kept. */
    method RequestSort(property: string)
      modifies this
      ensures orderBy == property
      ensures order == Desc <==> old(orderBy) == property && old(order) == Asc
      ensures students == old(students) && page == old(page)
      ensures rowsPerPage == old(rowsPerPage) && filterText == old(filterText)
    {
      order := NextOrder(order, orderBy, property);
      orderBy := property;
    }

    /** The first page is on show: for every comparator factory, the rows
        shown are the first `rowsPerPage` rows of the sorted filtered list. */
    ghost predicate ShowsFirstPage()
      reads this
    {
      forall comparatorFor: (Order, string) -> Comparator :: CurrentRows(comparatorFor)
        == SortBy(FilteredStudents(), comparatorFor(order, orderBy))[..Min(rowsPerPage, |FilteredStudents()|)]
    }

    /** On page 0 the first page is on show. */
    lemma FirstPageShown()
      requires page == 0
      ensures ShowsFirstPage()
    {
      forall comparatorFor: (Order, string) -> Comparator
        ensures CurrentRows(comparatorFor)
          == SortBy(FilteredStudents(), comparatorFor(order, orderBy))[..Min(rowsPerPage, |FilteredStudents()|)]
      {
        FirstPage(SortBy(FilteredStudents(), comparatorFor(order, orderBy)), rowsPerPage);
      }
    }

    /** Moving to another page; no bounds check is made here. */
    method ChangePage(newPage: nat)
      modifies this
      ensures page == newPage
      ensures students == old(students) && order == old(order) && orderBy == old(orderBy)
      ensures rowsPerPage == old(rowsPerPage) && filterText == old(filterText)
    {
      page := newPage;
    }

    /** A new page size; the table goes back to the first page. */
    method ChangeRowsPerPage(newRowsPerPage: nat)
      modifies this
      ensures rowsPerPage == newRowsPerPage && page == 0
      ensures students == old(students) && order == old(order) && orderBy == old(orderBy)
      ensures filterText == old(filterText)
      ensures ShowsFirstPage()
    {
      rowsPerPage := newRowsPerPage;
      page := 0;
      FirstPageShown();
    }

    /** New filter text, followed by the effect that depends on it: when the
        text differs from the previous one the page goes back to 0; an
        identical value does not re-run the effect and keeps the page. */
    method FilterChange(text: string)
      modifies this
      ensures filterText == text
      ensures page == if text == old(filterText) then old(page) else 0
      ensures students == old(students) && order == old(order) && orderBy == old(orderBy)
      ensures rowsPerPage == old(rowsPerPage)
      ensures text != old(filterText) ==> ShowsFirstPage()
    {
      var changed := text != filterText;
      filterText := text;
      if changed {
        page := 0;
        FirstPageShown();
      }
    }

    /** A click on a SEND cell: the student list is replaced by its copy
        with `send` flipped on every record with that id. */
    method ToggleSend(id: int)
      modifies this
      ensures students == Toggled(old(students), id)
      ensures |students| == |old(students)|
      ensures forall i :: 0 <= i < |students| ==>
        SameExceptSend(old(students)[i], students[i])
        && (students[i].send != old(students)[i].send <==> old(students)[i].id == id)
      ensures order == old(order) && orderBy == old(orderBy) && page == old(page)
      ensures rowsPerPage == old(rowsPerPage) && filterText == old(filterText)
    {
      students := Toggled(students, id);
    }

    /** The memoised filtered list for the current state: the matching
        students, picked out of the list in order. */
    function FilteredStudents(): (kept: seq<Student>)
      reads this
      ensures |kept| <= |students|
      ensures exists idx :: KeptPositions(idx, students, kept, filterText)
    {
      FilteredIsOrderedSelection(students, filterText);
      Filtered(students, filterText)
    }

    /** The rows shown for the current state; `comparatorFor` stands for
        the comparator factory, given the direction and the column. They are
        a window, at the current page, of a permutation of the filtered list
        that is sorted when the current comparator is a total preorder. */
    function CurrentRows(comparatorFor: (Order, string) -> Comparator): (rows: seq<Student>)
      reads this
      ensures exists sorted ::
        && multiset(sorted) == multiset(FilteredStudents())
        && (TotalPreorder(comparatorFor(order, orderBy)) ==> SortedBy(sorted, comparatorFor(order, orderBy)))
        && rows == Window(sorted, page, rowsPerPage)
      ensures |rows| == Min(rowsPerPage, Max(0, |FilteredStudents()| - page * rowsPerPage))
    {
      VisibleRows(students, filterText, comparatorFor(order, orderBy), page, rowsPerPage)
    }

    /** The padding-row count for the current state: none on the first page. */
    function CurrentEmptyRows(): (blank: nat)
      reads this
      ensures page == 0 ==> blank == 0
    {
      EmptyRows(page, rowsPerPage, |FilteredStudents()|)
    }

    /** On a later page that starts inside the filtered list, the rows shown
        and the padding rows together fill exactly one page. */
    lemma CurrentPageIsFull(comparatorFor: (Order, string) -> Comparator)
      requires page > 0 && page * rowsPerPage <= |FilteredStudents()|
      ensures CurrentEmptyRows() + |CurrentRows(comparatorFor)| == rowsPerPage
    {
      PaddingCompletesPage(SortBy(FilteredStudents(), comparatorFor(order, orderBy)), page, rowsPerPage);
    }
  }
}
