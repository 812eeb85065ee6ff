# Student dashboard view-models

A model of the two view-models of a small student dashboard. The table view
lists student records. It filters them by a case-insensitive substring of
forename or surname, sorts them with a comparator chosen by column and
direction, shows one page of them, and flips a record's SEND flag on a
click. The detail view looks up one record by id and shows either that
record or a loading message.

Modules:

- `Records`: the `Student` record.
- `Text`: ASCII lower-casing. It also holds `Includes`, the substring scan of `String.prototype.includes`, and `Occurs`, the reference meaning it is proved against.
- `Filter`: the filter predicate and the filtered list.
- `Sorting`: the comparator parameter, and a stable insertion sort standing for `[...list].sort(cmp)`.
- `Pagination`: the page window (`slice`) and the padding-row count.
- `SendToggle`: the `map` that flips `send` for one id.
- `StudentTable`: the composite visible-rows function. Also the class `TableState`, whose six fields are the component's six `useState` values and whose methods are its event handlers.
- `StudentDetail`: the first-match lookup by id and the rendering rule for its result.

## Model

| member | source | states |
|---|---|---|
| `Text.Lower` | src/components/studentTable/StudentTable.jsx:77-78 | lower-casing keeps the length, turns each upper-case ASCII letter into its lower-case letter, keeps every other character, and leaves no upper-case ASCII letter |
| `Text.Includes` | src/components/studentTable/StudentTable.jsx:77-78 | `hay.includes(needle)` is true exactly when `needle` occurs at some position of `hay` |
| `Filter.MatchesIsSubstringTest` | src/components/studentTable/StudentTable.jsx:76-79 | a student matches iff the lower-cased filter text is a substring of its lower-cased forename or of its lower-cased surname (both directions) |
| `Filter.MatchesIgnoresFilterCase` | src/components/studentTable/StudentTable.jsx:77-78 | lower-casing the filter text beforehand does not change the outcome |
| `Filter.FilterIgnoresCase` | src/components/studentTable/StudentTable.jsx:77-78 | two filter texts that differ only in the ASCII case of their letters keep exactly the same students |
| `Filter.Filtered` | src/components/studentTable/StudentTable.jsx:75-80 | the filtered list is never longer than the student list |
| `Filter.FilteredMembership` | src/components/studentTable/StudentTable.jsx:76-79 | a student is in the filtered list iff it is in the list and matches |
| `Filter.FilteredIsOrderedSelection` | src/components/studentTable/StudentTable.jsx:76 | there is a strictly increasing list of positions that picks out the filtered list from the student list, in order, and these positions are exactly those whose student matches |
| `Filter.EmptyFilterKeepsAll` | src/components/studentTable/StudentTable.jsx:75-80 | the empty filter text returns the student list unchanged |
| `Sorting.Insert` | src/components/studentTable/StudentTable.jsx:88-89 | inserting adds exactly the new element: one longer, same multiset plus it |
| `Sorting.InsertKeepsSorted` | src/components/studentTable/StudentTable.jsx:88-89 | for a total-preorder comparator, inserting into a sorted list gives a sorted list |
| `Sorting.SortBy` | src/components/studentTable/StudentTable.jsx:88-89 | sorting the copy yields a permutation of it (any comparator), and it is sorted when the comparator is a total preorder |
| `Pagination.Window` | src/components/studentTable/StudentTable.jsx:90 | the window has `min(r, max(0, n - page*r))` rows, row `k` is sorted row `page*r + k`, and a page starting at or past the end is empty |
| `Pagination.EmptyRows` | src/components/studentTable/StudentTable.jsx:112 | the first page gets no padding; on a later page, padding plus the window's length is `max(r, (page+1)*r - n)` |
| `Pagination.PaddingCompletesPage` | src/components/studentTable/StudentTable.jsx:112 | on a later page that starts inside the list, shown rows plus padding rows equal `rowsPerPage` |
| `Pagination.FirstPage` | src/components/studentTable/StudentTable.jsx:90 | page 0 shows the first `min(r, n)` rows |
| `Pagination.RowOnItsPage` | src/components/studentTable/StudentTable.jsx:90 | with `r > 0`, row `i` of the sorted list appears on page `i / r` at position `i % r` |
| `StudentTable.VisibleRows` | src/components/studentTable/StudentTable.jsx:86-92 | the visible rows are a window of some permutation of the filtered list, one that is sorted whenever the comparator is a total preorder; their count is `min(r, max(0, n - page*r))` |
| `StudentTable.VisibleRowsMatch` | src/components/studentTable/StudentTable.jsx:86-92 | every visible row is a student of the list that matches the filter |
| `StudentTable.SecondClickReverses` | src/components/studentTable/StudentTable.jsx:39-43 | a second click on the same header always reverses the direction chosen by the first |
| `StudentTable.TableState.constructor` | src/components/studentTable/StudentTable.jsx:15-20 | initial state: no students, ascending by `forename`, page 0, 5 rows per page, empty filter |
| `StudentTable.TableState.Load` | src/components/studentTable/StudentTable.jsx:23-27 | the loaded list becomes the student list; no other field changes |
| `StudentTable.TableState.RequestSort` | src/components/studentTable/StudentTable.jsx:39-43 | the column becomes `orderBy`; the direction is descending iff that column was already the ascending sort column; page, list, size and filter unchanged |
| `StudentTable.TableState.ChangePage` | src/components/studentTable/StudentTable.jsx:50-52 | only `page` changes, to the requested page, with no bounds check |
| `StudentTable.TableState.ChangeRowsPerPage` | src/components/studentTable/StudentTable.jsx:58-61 | `rowsPerPage` becomes the new size and `page` becomes 0; nothing else changes; afterwards the rows shown are the first `rowsPerPage` rows of the sorted filtered list |
| `StudentTable.TableState.FilterChange` | src/components/studentTable/StudentTable.jsx:67-69 | the filter text is replaced; the page reset effect (lines 30-32) sets `page` to 0 whenever the text differs from the old one, and then the rows shown are the first `rowsPerPage` rows of the newly filtered, sorted list; nothing else changes |
| `StudentTable.TableState.ToggleSend` | src/components/studentTable/StudentTable.jsx:98-106 | the student list becomes its toggled copy: same length, each record unchanged except `send`, which flips exactly where the id matches; other fields unchanged |
| `StudentTable.TableState.FirstPageShown` | src/components/studentTable/StudentTable.jsx:86-92 | on page 0, for every comparator factory, the rows shown are the first `min(rowsPerPage, n)` rows of the sorted filtered list |
| `StudentTable.TableState.FilteredStudents` | src/components/studentTable/StudentTable.jsx:75-80 | the current filtered list is no longer than the student list and is picked out of it, in order, at exactly the positions that match the current filter text |
| `StudentTable.TableState.CurrentRows` | src/components/studentTable/StudentTable.jsx:86-92 | the current rows are the window at the current page of a permutation of the current filtered list, sorted when the current comparator is a total preorder, with `min(r, max(0, n - page*r))` rows |
| `StudentTable.TableState.CurrentEmptyRows` | src/components/studentTable/StudentTable.jsx:112 | the current padding-row count is 0 on the first page |
| `StudentTable.TableState.CurrentPageIsFull` | src/components/studentTable/StudentTable.jsx:112 | on a later page that starts inside the current filtered list, current padding plus current rows equal `rowsPerPage` |
| `SendToggle.Toggled` | src/components/studentTable/StudentTable.jsx:98-106 | length and order are kept; each record keeps every field but `send`, and `send` flips iff the record's id is the argument |
| `SendToggle.ToggleTwice` | src/components/studentTable/StudentTable.jsx:98-106 | toggling the same id twice gives back the original list |
| `SendToggle.ToggleAbsentId` | src/components/studentTable/StudentTable.jsx:98-106 | toggling an id no record has leaves the list unchanged |
| `SendToggle.ToggleCommutesWithFilter` | src/components/studentTable/StudentTable.jsx:98-106 | filtering the toggled list equals toggling the filtered list, so a toggle never changes which students are listed |
| `StudentDetail.FindById` | src/pages/StudentDetail.jsx:14 | the result is absent iff no record has the id; a present result has the id and is the first record in list order that has it |
| `StudentDetail.FindUniqueId` | src/pages/StudentDetail.jsx:14 | when ids are unique, looking up record `k`'s id returns record `k` |
| `StudentDetail.Render` | src/pages/StudentDetail.jsx:19-31 | the page shows the loading message iff there is no record; otherwise it shows the record's portrait, names and form, with "Yes" exactly when `send` holds and "No" exactly when it does not |
| `StudentDetail.NotFoundLooksLikeLoading` | src/pages/StudentDetail.jsx:19-21 | the page for a lookup equals the page before loading iff no record has the id, so "not found" and "still loading" cannot be told apart |
| `StudentDetail.ShownProfileHasRequestedId` | src/pages/StudentDetail.jsx:14-29 | a shown profile is the rendering of some record whose id is the requested one |

## Left out

- Fetching and parsing `/students.json` (StudentTable.jsx:23-27, StudentDetail.jsx:10-17) is asynchronous I/O. The loaded list is an input: `TableState.Load` for the table, the `data` argument of `FindById` for the detail page.
- `getComparator` lives in `src/utils`, which is not part of this model. The comparator is a parameter. Sortedness is claimed only when it is a total preorder, and nothing is said about field semantics, such as the header's `'name'` key that no record has.
- `Sorting.SortBy`: `Array.prototype.sort` is the engine's own routine. It is modelled by a stable insertion sort, and the model claims only "permutation, sorted under a total preorder". Stability and the exact order of ties are not stated.
- `Text.Lower` folds only the ASCII letters A-Z. Unicode `toLowerCase` (other scripts, multi-character mappings) is not modelled.
- `parseInt` is left out: `parseInt(event.target.value, 10)` for the page size, and `parseInt(id)` for the route parameter. Sizes and ids are taken as already-parsed integers, so a non-numeric id (NaN, which matches nothing) is not represented.
- Page numbers and page sizes are `nat`. The pagination control only offers non-negative pages and the sizes 5, 10 and 25, so JavaScript's negative-index `slice` behaviour is not modelled.
- React scheduling is not modelled. The render between `setFilterText` and the page-reset effect, with the new text but the old page, is not represented; `FilterChange` gives the state after the effect. `useMemo` caching is not modelled either: derived values are plain functions of the state.
- Sorting a copy (StudentTable.jsx:88): `VisibleRows` and `TableState.CurrentRows` are functions of the state, so they cannot reorder `students` or the filtered list. No separate contract states this.
- All JSX and MUI rendering, the 53-pixel row height, `Link` routing, the header cell markup (StudentTableHeader.jsx), `DashboardHeader.jsx` and `App.js` are presentation only.
- The detail page's `student` state (`useState(null)`, `setStudent`) is represented only by its two possible contents: `INITIAL` (nothing yet) and the lookup's result.
