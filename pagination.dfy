/** Page windows and the padding-row count of the student table. Pages are
    numbered from 0; `rowsPerPage` rows make a page. */
module Pagination {

  function Min(a: int, b: int): (m: int) { if a <= b then a else b }

  function Max(a: int, b: int): (m: int) { if a <= b then b else a }

  /** `sorted.slice(page * rowsPerPage, page * rowsPerPage + rowsPerPage)`:
      both bounds are clamped to the length, and a start past the end gives
      no rows rather than an error. */
  function Window<T>(sorted: seq<T>, page: nat, rowsPerPage: nat): (rows: seq<T>)
    ensures |rows| == Min(rowsPerPage, Max(0, |sorted| - page * rowsPerPage))
    ensures forall k :: 0 <= k < |rows| ==> rows[k] == sorted[page * rowsPerPage + k]
    ensures |sorted| <= page * rowsPerPage ==> rows == []
  {
    var start := page * rowsPerPage;
    if start >= |sorted| then [] else sorted[start..Min(|sorted|, start + rowsPerPage)]
  }

  /** The number of blank rows that pad a page after the first one up to a
      full page's height; the first page is never padded. */
  function EmptyRows(page: nat, rowsPerPage: nat, filteredCount: nat): (blank: nat)
    ensures page == 0 ==> blank == 0
    ensures page > 0 ==>
      blank + Min(rowsPerPage, Max(0, filteredCount - page * rowsPerPage))
        == Max(rowsPerPage, (page + 1) * rowsPerPage - filteredCount)
  {
    assert (1 + page) * rowsPerPage == page * rowsPerPage + rowsPerPage;
    if page > 0 then Max(0, (1 + page) * rowsPerPage - filteredCount) else 0
  }

  /** On any page after the first that starts inside the list, the rows
      shown plus the padding rows make exactly one page. */
  lemma PaddingCompletesPage<T>(sorted: seq<T>, page: nat, rowsPerPage: nat)
    requires page > 0 && page * rowsPerPage <= |sorted|
    ensures EmptyRows(page, rowsPerPage, |sorted|) + |Window(sorted, page, rowsPerPage)| == rowsPerPage
  {
  }

  /** The first page shows the first `rowsPerPage` rows, or all of them. */
  lemma FirstPage<T>(sorted: seq<T>, rowsPerPage: nat)
    ensures Window(sorted, 0, rowsPerPage) == sorted[..Min(rowsPerPage, |sorted|)]
  {
  }

  /** Pages tile the list: row `i` is shown on page `i / rowsPerPage`, at
      position `i % rowsPerPage`. */
  lemma RowOnItsPage<T>(sorted: seq<T>, rowsPerPage: nat, i: nat)
    requires rowsPerPage > 0 && i < |sorted|
    ensures i % rowsPerPage < |Window(sorted, i / rowsPerPage, rowsPerPage)|
    ensures Window(sorted, i / rowsPerPage, rowsPerPage)[i % rowsPerPage] == sorted[i]
  {
  }
}
