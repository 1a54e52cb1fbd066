# AdminDashboard table state in Dafny

This project models the table-state engine of the `AdminDashboard` React
component in `src/test.js`. The component holds a list of members fetched
once. It shows them ten to a page and lets the user search, page through,
tick, delete and edit them inline. The model covers:

- the five state variables `originalUsers`, `users`, `searchTerm`,
  `selectedRows` and `currentPage`;
- the page size of 10;
- the load step;
- the derived `totalPages` and `currentUsers`;
- every handler;
- the targets and `disabled` conditions of the pagination buttons.

Each handler is one atomic step of the class `Dashboard.AdminDashboard`. The
class's fields are the state variables. Its methods compute new values with
pure sequence functions (`filter`, `map`, `slice`) and assign them. Each
method states the new value of each of the five state variables and of the
tag counter `nextTag`. Lemmas about those functions prove what
the component promises.

Layout:

- `seqs.dfy` (`Seqs`): `filter` and `map` over sequences, plus distinctness
  and subsequence facts.
- `records.dfy` (`Records`):
  - member records and row objects;
  - the `{ ...user, editing: false }` copies.
- `search.dfy` (`Search`): the lower-cased `includes` search.
- `paging.dfy` (`Paging`): `totalPages`, `Array.prototype.slice` and the
  page window. The helper `SliceIndex` is `slice`'s reading of one index:
  a negative one counts back from the end, and both are clamped to the
  list.
- `navigation.dfy` (`Navigation`): the pagination buttons. The helper
  `NumberedButtons` is the row of buttons drawn from
  `[...Array(totalPages).keys()]`. `Buttons` is the whole rendered row:
  "<<", "<", the numbered buttons, ">" and ">>".
- `selection.dfy` (`Selection`): the select-all checkbox and row ticking.
- `dashboard.dfy` (`Dashboard`): the component state and its handlers.
- `scenarios.dfy` (`Scenarios`): consequences over several user actions.

**Object identity.** The component compares records by object reference
(`includes`, `!==`), and every spread `{...u}` makes a new object. A `Row`
therefore carries a `tag`, taken from the counter `nextTag` each time the
code spreads a record. The model never reuses a tag, so two rows it has made
are equal values exactly when they are the same object. `Valid()` says that:

- neither list holds an object twice;
- every object in either list was made before `nextTag`.

**Behaviour of the code worth knowing.** Each point below is what the code
does, and the listed member proves it.

- **No page clamping.** `currentPage` is not kept in `1..totalPages`.
  Deletes and searches never clamp it. With no rows, ">>" leads to page 0
  and "<" from there to page -1. `Array.prototype.slice` then counts a
  negative index from the end. Proved by `Paging.NegativePageFromEnd`,
  `Navigation.EmptyTableLeavesRange` and `Navigation.NextPastEnd`.
- **An empty table has 0 pages, not 1.** See `Paging.TotalPages`.
- **Bulk delete confirms only when the selection is empty.** It asks when
  nothing is selected and never when something is. See
  `Dashboard.AdminDashboard.HandleDeleteSelected`.
- **Select-all compares lengths only.** The checkbox is checked when the
  selection is as long as the visible page, and this decides what the
  toggle does. See `Selection.CheckedWithoutVisibleRows`.
- **Toggling select-all twice does not always restore the selection.** It
  does so exactly when the selection was the visible page or empty. See
  `Selection.ToggleAllTwice`.
- **Searches and edits leave the selection stale.** They never touch
  `selectedRows`, so the selection can hold objects no longer in `users`.
  See `Scenarios.SearchLeavesSelectionStale` and
  `Scenarios.EditLeavesSelectionStale`.
- **Deleted rows come back.** Deletes never reach `originalUsers`, so
  clearing the search restores deleted members. See
  `Scenarios.DeletedRowsComeBack`.

## Model

| member | source | states |
|---|---|---|
| Dashboard.AdminDashboard.constructor | src/test.js:10-15 | the initial state: no members, no rows, empty query, empty selection, page 1 |
| Dashboard.AdminDashboard.Load | src/test.js:24-25 | `originalUsers` becomes the data; `users` becomes fresh copies of the data, in order, with `editing` off, and reading their fields back gives the data; the copies are new objects; selection, query and page are unchanged |
| Dashboard.AdminDashboard.PageCount | src/test.js:30 | `totalPages` is enough pages of ten for every row, one fewer would not be, and it is 0 exactly when there are no rows |
| Dashboard.AdminDashboard.CurrentUsers | src/test.js:32-34 | the visible rows are at most ten |
| Dashboard.AdminDashboard.HandleSearch | src/test.js:36-47 | `users` becomes fresh copies, with `editing` off, of exactly the members that match `v`, in their original order; `searchTerm` becomes `v` and the page 1; `originalUsers` and the selection are unchanged, and no selected object is among the new rows |
| Dashboard.AdminDashboard.HandleInputChange | src/test.js:49-57 | the empty value shows fresh copies of all members and keeps the page; any other value acts as `handleSearch`; in both cases the rows' fields are the members matching the value, and the selection is unchanged |
| Dashboard.AdminDashboard.HandlePaginationClick | src/test.js:59-61 | the page becomes the argument, unchecked; nothing else changes |
| Dashboard.AdminDashboard.ClickButton | src/test.js:229-262 | a click on a rendered button sets the page to that button's target unless the button is disabled; from a page in range no button leads out of range; nothing else changes |
| Dashboard.AdminDashboard.ToggleSelectAll | src/test.js:63-67 | when the selection is as long as the visible page it is emptied, otherwise it becomes exactly the visible rows in page order, which checks the box; nothing else changes |
| Dashboard.AdminDashboard.HandleSelectRow | src/test.js:69-75 | for a row `r` on the current page, whose checkbox calls the handler, `r` is removed from the selection if present and appended otherwise; the table keeps its invariant; nothing else changes |
| Dashboard.AdminDashboard.HandleDelete | src/test.js:77-83 | the object `r` leaves both `users` and the selection; every other entry keeps its order; a present row shortens `users` by exactly one; the page is not adjusted |
| Dashboard.AdminDashboard.HandleDeleteSelected | src/test.js:91-105 | declining, which is possible only with an empty selection, changes nothing; otherwise `users` loses exactly the selected objects, keeps the rest in order, and the selection is emptied; with an empty selection `users` is the same whatever the answer |
| Dashboard.AdminDashboard.HandleFieldChange | src/test.js:84-89 | the entry that is `r` is replaced in place by a new object with field `f` set to `v`; every other entry, the length and the order are kept; an absent `r` changes no row; the selection is unchanged |
| Dashboard.AdminDashboard.HandleEdit | src/test.js:107-112 | the entry that is `r` is replaced in place by a new object with `editing` flipped and the same fields; every other entry is kept; the selection is unchanged |
| Records.Stamp | src/test.js:25 | the copies are as many as the members; copy `i` holds member `i`'s fields with `editing` off and a tag of its own |
| Records.MembersOfStamp | src/test.js:25 | reading the fields back from the copies gives the members, in order |
| Records.StampFresh | src/test.js:25 | the copies are distinct objects, all made after the earlier ones |
| Records.WithField | src/test.js:86 | the copy has field `f` set to `v`, every other field, the id and `editing` of the original, and a new tag |
| Records.ToggledEditing | src/test.js:109 | the copy has the original's fields, `editing` negated and a new tag |
| Seqs.Filter | src/test.js:38-44 | `filter` keeps exactly the elements satisfying the predicate, each as often as in the input |
| Seqs.FilterIsSubseq | src/test.js:38-44 | `filter` keeps the input's order |
| Seqs.Without | src/test.js:78 | `filter(u => u !== r)` removes every occurrence of `r` and keeps every other element with its multiplicity; it shortens a list holding `r` |
| Seqs.WithoutIsSubseq | src/test.js:78 | removing `r` keeps the order of the rest |
| Seqs.WithoutCountDistinct | src/test.js:78 | in a list without repeats, removing a present `r` shortens it by exactly one |
| Seqs.WithoutAll | src/test.js:102 | `filter(u => !selected.includes(u))` keeps exactly the elements outside `selected`, each as often as before |
| Seqs.WithoutIsWithoutAllOfOne | src/test.js:78 | removing one object is the bulk delete's filter with a selection of just that object |
| Seqs.WithoutAllIsSubseq | src/test.js:102 | the bulk delete keeps the order of the rows left |
| Seqs.WithoutNone | src/test.js:102 | with nothing selected, the bulk delete's filter keeps every row |
| Seqs.Replace | src/test.js:85-87 | `map(u => u === r ? c : u)` keeps the length and replaces exactly the entries equal to `r` |
| Seqs.ReplaceAt | src/test.js:108-110 | in a list without repeats, replacing `r` found at index `k` is the update at `k` alone |
| Search.Contains | src/test.js:40-43 | `includes`: the empty string is in every string, and nothing longer than the string is in it |
| Search.Matches | src/test.js:39-43 | the filter callback: the empty query matches every member, and a query longer than all four fields matches none |
| Search.Lower | src/test.js:40-43 | lower-casing keeps the length and maps each character |
| Search.LowerIdempotent | src/test.js:40-43 | lower-casing twice is lower-casing once |
| Search.ContainsIffOccurs | src/test.js:40-43 | `includes` holds exactly when the query occurs at some index |
| Search.ContainsWitness | src/test.js:40-43 | when `includes` holds, the query occurs at some index of the string |
| Search.OccursContains | src/test.js:40-43 | an occurrence of the query at any index makes `includes` hold |
| Search.MatchingMembers | src/test.js:38-44 | a member is in the search result exactly when it is among `originalUsers` and its lower-cased id, name, email or role includes the lower-cased query |
| Search.SearchKeepsOrder | src/test.js:38-44 | the matching members keep their order in `originalUsers` |
| Search.SearchKeepsMultiplicity | src/test.js:38-44 | a matching member appears as often as in `originalUsers`, a non-matching one not at all |
| Search.EmptyQueryMatchesAll | src/test.js:52-53 | the empty query matches every member, so clearing shows all of `originalUsers` |
| Search.QueryCaseInsensitive | src/test.js:40-43 | a query and its lower-case form select the same members |
| Search.MatchesIffOccurs | src/test.js:39-43 | a member matches exactly when the lower-cased query occurs in one of its four lower-cased fields |
| Search.FirstCharAbsentNoMatch | src/test.js:39-43 | a member none of whose fields holds the query's first character does not match |
| Paging.TotalPages | src/test.js:30 | the fewest pages of ten that hold all rows: enough for every row, one fewer would not be, and 0 exactly for no rows |
| Paging.Slice | src/test.js:34 | `slice` gives a run of consecutive elements; when `start <= end`, it is no longer than `end - start`; with indices inside the list it is the elements from `start` up to `end`; an end before the start gives nothing unless the start is non-negative and the end negative; negative indices count back from the end |
| Paging.SliceDropsLast | src/test.js:34 | `slice(0, -1)` drops the last element: a negative end counts from the end whatever the start |
| Paging.PageRows | src/test.js:32-34 | a page holds at most ten rows, all taken from `users`, with no object twice if `users` has none |
| Paging.PageContents | src/test.js:32-34 | page `p >= 1` holds `users[(p-1)*10 ..]`, as many as exist up to ten, and none once `(p-1)*10 >= |users|` |
| Paging.RowOnItsPage | src/test.js:30-34 | row `i` is shown at position `i % 10` of page `i / 10 + 1`, which is one of the `totalPages` pages |
| Paging.PagePastEndEmpty | src/test.js:32-34 | a page after the last is empty |
| Paging.PageZeroEmpty | src/test.js:32-34 | page 0 is empty |
| Paging.NegativePageFromEnd | src/test.js:32-34 | a negative page counts back from the end of `users` |
| Paging.PagesUpToPrefix | src/test.js:32-34 | pages 1 to `k` together are the first `10k` rows |
| Paging.PagesReassemble | src/test.js:30-34 | pages 1 to `totalPages`, one after the other, give back `users` exactly |
| Navigation.NumberedButtonsAre | src/test.js:242-249 | the numbered buttons are exactly those for keys 0 to `totalPages - 1` |
| Navigation.ButtonsAreRendered | src/test.js:229-262 | the rendered buttons are "<<", "<", the numbered ones, ">" and ">>" |
| Navigation.NumberedTargetsArePages | src/test.js:242-249 | the numbered buttons lead to exactly the pages 1 to `totalPages` |
| Navigation.ClickStaysInRange | src/test.js:229-262 | from a page between 1 and `totalPages` no rendered button leads out of that range |
| Navigation.EmptyTableLeavesRange | src/test.js:235-241 | with no rows ">>" leads to page 0, and "<" is enabled there and leads to page -1 |
| Navigation.NextPastEnd | src/test.js:250-256 | past the last page ">" is enabled and leads further on |
| Navigation.Disabled | src/test.js:235-256 | only "<" and ">" can be disabled: "<" exactly on page 1 and ">" exactly on page `totalPages` |
| Navigation.Click | src/test.js:229-262 | "<<" goes to page 1, ">>" to `totalPages`, numbered button `k` to page `k + 1`; "<" goes back a page and ">" forward a page unless disabled, when the page stays; the page changes only through an enabled button |
| Selection.AllChecked | src/test.js:137 | the select-all box is checked when exactly the page is selected, and on an empty page exactly when nothing is selected |
| Selection.ToggleAll | src/test.js:63-67 | the new selection is empty or exactly the visible rows; the toggle flips the select-all box, except on an empty page, where the box stays checked |
| Selection.ToggleRow | src/test.js:69-75 | `r` is in the new selection exactly when it was not; every other row keeps its membership; removal keeps the order and shortens the list; an absent row is appended at the end |
| Selection.ToggleRowTwice | src/test.js:69-75 | ticking an unticked row twice restores the selection |
| Selection.ToggleRowTwiceSelected | src/test.js:69-75 | ticking a ticked row twice moves it to the end |
| Selection.ToggleRowDistinct | src/test.js:69-75 | ticking keeps the selection free of repeats |
| Selection.ToggleAllTwice | src/test.js:63-67 | toggling select-all twice restores the selection exactly when it was the visible page or empty |
| Selection.ToggleAllTwiceAfterToggle | src/test.js:63-67 | after one toggle, two more give back the same selection |
| Selection.CheckedWithoutVisibleRows | src/test.js:137 | the select-all box can be checked with no visible row selected, and toggling then empties the selection |
| Scenarios.DeletedRowsComeBack | src/test.js:49-57 | a delete followed by clearing the search shows every member again |
| Scenarios.SearchLeavesSelectionStale | src/test.js:36-47 | after a search the selection is unchanged and none of it is in `users` |
| Scenarios.EditLeavesSelectionStale | src/test.js:107-112 | after editing a selected row the selection still holds the old object, which is no longer in `users` |
| Scenarios.BulkDeleteWithNothingSelected | src/test.js:91-105 | with nothing selected, either answer to the prompt leaves the table as it was |
| Scenarios.SelectThenBulkDelete | src/test.js:69-105 | ticking one row of an empty selection and then bulk-deleting removes exactly that row, as its own delete button does, and asks nothing |
| Scenarios.TwentyFiveRows | src/test.js:30-34 | 25 rows make 3 pages; page 3 holds the last five rows, and ">" is disabled there |

## Left out

- The fetch from the remote endpoint and its error logging are not modelled. `Load` takes the response data as a parameter.
- JSX markup, styling, icons and CSS are not modelled. Their logic is kept: the pagination buttons' targets and `disabled` attributes, and the select-all `checked` expression.
- `window.confirm` is not modelled as a prompt. Its answer is the `confirmed` argument of `HandleDeleteSelected`, and the argument is ignored when no prompt would appear.
- React mechanics are not modelled: `useState`, `useEffect`, batched setters, functional updaters and re-rendering. Each handler is one atomic step over the state.
- Search.Lower lower-cases ASCII letters only, not the full Unicode mapping of `toLowerCase`.
- Records.Member has exactly `id`, `name`, `email` and `role`. Any further fields a fetched record carries are copied by the spreads but not modelled.
- Dashboard.AdminDashboard.HandleFieldChange and Dashboard.AdminDashboard.HandleEdit take a tag for the copy even when `r` is absent and no copy is made. Skipping a tag is harmless, because tags only need to be new.
- Dashboard.AdminDashboard.HandleSelectRow requires `r` to be a row on the current page. The handler is wired only to those rows' checkboxes, and it is not modelled for other callers.
