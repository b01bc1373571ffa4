# Dinner menu selection, modelled in Dafny

The dinner-menu job fetches a published spreadsheet as CSV and parses it into rows keyed by
the header. It keeps the rows whose name (`메뉴명`), thumbnail (`썸네일링크`) and key
ingredients (`주요재료`) cells are all filled in. If no row is left, it writes an error page.
Otherwise it reorders the rows with `sort` and a comparator that answers at random, keeps the
first three, and writes a page with one block per kept row.

This project models that selection step of `run()` and proves what it guarantees:

- `js_string.dfy` (module `JsString`): `String.prototype.trim`, using the WhiteSpace and
  LineTerminator code points of ECMA-262 (sections 12.2 and 12.3). A reference view
  `NonBlanks` drops every blank. It is used to show that `s.trim() === "-"` holds exactly
  when the only non-blank character of `s` is one dash.
- `js_array.dfy` (module `JsArray`): `Array.prototype.filter` with a side-effect-free callback.
  It proves that the filter keeps exactly the accepted elements in their original order, that
  it distributes over concatenation, and that it is idempotent.
- `menu_rows.dfy` (module `MenuRows`): a row is a `map<string, string>`. A missing column is
  an absent key (`undefined`). The module holds the cell test, the row-validity callback and
  the valid list `FilterValid`, and states which cells pass.
- `shuffle_sort.dfy` (module `ShuffleSort`): `menus.sort(() => 0.5 - Math.random())`. Under
  section 23.1.3.30 of ECMA-262 (2023 edition), an inconsistent comparator leaves the order
  implementation-defined. The order the engine produces is passed in as a permutation `perm`
  of the indices. `SortInPlace` collects the elements, writes them back in that order into
  the same array, and keeps the multiset of rows unchanged.
- `menu_page.dfy` (module `MenuSelection`): `slice(0, 3)`, `map(generateHTMLBlock)`, the
  empty-pool branch, and `Run`, which puts the steps together as `run()` does.

The comment above the filter (generate-menu.js:55) says it excludes cells that are `'-'` or
blank. The code is narrower than that, and the model follows the code:

- A cell made only of blanks is not rejected. `"  "` is truthy and trims to `""`, which is
  not `"-"`, so the cell is accepted. Only an empty cell, a missing column and a cell whose
  trimmed text is exactly `"-"` are rejected.
- The only failure is "no valid row" (generate-menu.js:64-76), which gives the error page.
  One or two valid rows still give a menu page with one or two blocks.
- The three required columns are fixed in the code. There is no history, no anti-repeat rule
  and no rule about the kind of dish.

## Model

| member | source | states |
|---|---|---|
| `JsString.IsJsWhitespace` | generate-menu.js:57-59 | the code points `trim` removes: the WhiteSpace and LineTerminator sets of ECMA-262 (sections 12.2 and 12.3) |
| `JsString.SkipBlanks` | generate-menu.js:57-59 | where `trim` makes the text start: every character before that index is blank, and the character at it is not blank when that index is inside the text |
| `JsString.SkipBlanksBack` | generate-menu.js:57-59 | where `trim` makes the text end: every character from that index on is blank, and the one before it is not blank when that index is past where the text starts |
| `JsString.Trim` | generate-menu.js:57-59 | `cell.trim()` is a contiguous piece of the cell. Only blanks lie outside it, and it starts and ends with a non-blank when non-empty |
| `JsString.TrimKeepsNonBlanks` | generate-menu.js:57-59 | trimming never changes the non-blank characters of a cell |
| `JsString.TrimIsDash` | generate-menu.js:57-59 | `cell.trim() === "-"` iff the cell's only non-blank character is a single dash |
| `JsString.TrimIsEmpty` | generate-menu.js:57-59 | `cell.trim() === ""` iff the cell is made of blanks only |
| `MenuRows.CellUsable` | generate-menu.js:57-59 | the test on one present cell: truthy (non-empty) and not `"-"` once trimmed |
| `MenuRows.FieldUsable` | generate-menu.js:57-59 | the test on one column of a row: the column is present (not `undefined`) and its cell is usable |
| `MenuRows.IsValidMenu` | generate-menu.js:56-60 | the filter callback: the name, thumbnail and ingredients columns are all usable |
| `MenuRows.CellUsableMeaning` | generate-menu.js:57-59 | a cell passes its part of the filter iff it is non-empty and its non-blank characters are not exactly `"-"` |
| `MenuRows.PaddedDashRejected` | generate-menu.js:57-59 | a dash with blanks on either side is rejected, because the trim happens before the comparison with `"-"` |
| `MenuRows.BlankCellAccepted` | generate-menu.js:57-59 | a non-empty cell of blanks only is accepted (truthy, and trims to `""`, not `"-"`) |
| `MenuRows.DashCellExamples` | generate-menu.js:57-59 | `"-"`, `" - "` and a dash between a tab and a newline are rejected |
| `MenuRows.BlankCellExamples` | generate-menu.js:57-59 | an empty cell and a missing column are rejected; `"  "` is accepted |
| `MenuRows.FilterValid` | generate-menu.js:56-60 | `allRows.filter(...)` with the validity callback |
| `MenuRows.FilterValidMembership` | generate-menu.js:56-60 | a row is in the valid list iff it is a parsed row whose name, thumbnail and ingredients cells are all present, non-empty, and not a single dash among blanks |
| `JsArray.FilterMembership` | generate-menu.js:56-60 | for any callback, an element is in the filter result iff it is in the input and the callback accepts it |
| `JsArray.FilterKeepsInOrder` | generate-menu.js:56-60 | the result has one element per accepted index, the k-th being the input element at the k-th accepted index; those indices are strictly increasing, and an index is among them iff the callback accepts its element. So the valid list is exactly the accepted rows in their original order |
| `JsArray.FilterAppend` | generate-menu.js:56-60 | filtering a concatenation is the concatenation of the filtered parts |
| `JsArray.FilterAllKept` | generate-menu.js:56-60 | a list whose rows are all accepted passes the filter unchanged |
| `JsArray.FilterIdempotent` | generate-menu.js:56-60 | filtering the valid list again changes nothing |
| `JsArray.FilterEmptyIff` | generate-menu.js:56-64 | the valid list is empty iff no parsed row is accepted, which is the condition of the error branch |
| `ShuffleSort.PermutePreservesMultiset` | generate-menu.js:80 | reordering by a permutation of the indices (the element at index `perm[i]` goes to position i) keeps every row exactly as often as before |
| `ShuffleSort.SortInPlace` | generate-menu.js:80 | after the sort, `menus` holds the rows in the engine's order, and the same multiset of rows as before |
| `MenuSelection.BlockOf` | generate-menu.js:10-19 | the four cells `generateHTMLBlock` interpolates (name, thumbnail, ingredients, recipe video), `None` for a missing column |
| `MenuSelection.Selection` | generate-menu.js:80 | the selection has `min(3, n)` rows, and its k-th row is the valid row at position `perm[k]` |
| `MenuSelection.SortAndSlice` | generate-menu.js:80 | `menus` is reordered in place by the engine's order, and the rows copied out are the selection of the rows `menus` held before |
| `MenuSelection.SelectionDrawsWithoutReuse` | generate-menu.js:80 | the selection is a sub-multiset of the valid rows, so no row is shown more often than it occurs among them. Its first clause, that no position is chosen twice, follows from `perm` being a permutation |
| `MenuSelection.SelectionFromValidRows` | generate-menu.js:56-80 | every selected row is a parsed row that passes the validity filter |
| `MenuSelection.RenderBlocks` | generate-menu.js:81 | one block per selected row, in selection order, built from that row's cells |
| `MenuSelection.Run` | generate-menu.js:56-81 | the error page is produced iff no row is valid. Otherwise the page has `min(3, n) >= 1` blocks, rendered from the first rows of the reordered valid list |

## Left out

- The network fetch of the sheet, CSV parsing by `Papa.parse`, `fs.writeFileSync` and all
  `console` logging (generate-menu.js:47-53, 62, 75, 84-85). These are I/O and library calls.
  The model starts from the parsed rows and ends with the page value the job would write.
- `Math.random` and any statement about the distribution of the shuffle (generate-menu.js:80).
  The random comparator is not a uniform shuffle and nothing here claims it is. The order is
  an input permutation.
- `ShuffleSort.SortInPlace`: the reordering is assumed to be a permutation of the rows. Under
  an inconsistent comparator, ECMA-262 leaves the order implementation-defined, but every
  engine's sort only moves elements. This is the `IsPermutation` precondition.
- The HTML text of `generateHTMLBlock`, `generateFinalHTML` and the error page, the
  `"\n"` separator of `join`, and the `new Date().toISOString()` timestamp
  (generate-menu.js:10-43, 65-74, 81-82). A block is modelled by the four cells it
  interpolates. A missing cell would print as `undefined`; it is modelled as `None`.
- The `try`/`catch` around `run()` (generate-menu.js:46, 86-88). It only logs errors.
- track-click.js, the click beacon (a fire-and-forget `fetch` using the browser and the clock)
  and its one-line device test, are not part of this model.
- History, anti-repeat and dish-kind rules do not occur in this code and are not modelled.
