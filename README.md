# DataTable: sorting and row selection, modelled in Dafny

This project models the logic of the `DataTable` React component
(`src/components/DataTable.tsx`). The component shows rows under a set of
columns. A click on a sortable column header cycles the sort between
ascending and descending. A click on a row toggles that row's index in a
selection set, and the selected rows go to an `onRowSelect` callback.

The model has these parts:

- `Values` (values.dfy): cell values (`Undefined`, integers, strings), rows
  as maps from field name to value, and the `<` order the comparator uses.
  A string is a sequence of UTF-16 code units, as in JavaScript, so `<`
  compares strings code unit by code unit.
- `Sorting` (sorting.dfy): the comparator of `sortedData`. `Sorted` is a
  functional stable insertion sort that specifies the sort.
  `InsertionSort` does the same sort in place on an array, the way
  `Array.prototype.sort` sorts the spread copy. `SortedData` derives the
  displayed order. Lemmas prove the result is ordered in the chosen
  direction, a permutation of the input, and stable.
- `HeaderSort` (header_sort.dfy): the `handleSort` transition of
  `sortConfig`, and the cycle it produces.
- `Selection` (selection.dfy): the `Set<number>` of selected indices as a
  sequence of distinct indices in insertion order, the toggle with its
  `selectable` gate, and the rows passed to `onRowSelect`.
- `Body` (body.dfy): the header cells and the choice between the loading
  placeholder, the "no data" placeholder and one row per displayed row.
- `DataTable` (data_table.dfy): the component as a class `Table`. The props
  and the two state variables are fields. `HandleSort`, `ToggleRowSelection`,
  `Rerender` and `Render` are methods proved against the functions above.

Two behaviours of the code are worth stating on their own:

- `onRowSelect` receives the rows in the insertion order of the `Set`
  (`Array.from(newSelection)`), so a row deselected and selected again
  moves to the end.
- A row click passes the row's position in the sorted display
  (src/components/DataTable.tsx:102,109), and the highlight (line 106) and
  the checkbox (line 115) test that same position. The reported row, however, is looked up in the
  unsorted `data` (line 60). So once a sort is active, the reported row can
  differ from the highlighted one. `DataTable.SortedSelectionReportsOtherRow`
  shows this on a concrete table; the model does not correct it.

## Model

| member | source | states |
|---|---|---|
| `Values.Field` | src/components/DataTable.tsx:34-35 | `row[key]` is the row's value for a field it has and `undefined` for one it lacks |
| `Values.Utf16` | src/components/DataTable.tsx:34-35 | a string's UTF-16 code units: between `|s|` and `2·|s|` of them in all, and exactly its characters when all are in the Basic Multilingual Plane |
| `Values.StrLess` | src/components/DataTable.tsx:34-35 | `<` on two strings: a string is never `<` itself, and nothing is `<` the empty string |
| `Values.StrLessIsLexicographic` | src/components/DataTable.tsx:34-35 | string `<` holds iff the left string is a proper prefix of the right, or at the first difference its code unit is smaller |
| `Values.CodeUnitOrderExample` | src/components/DataTable.tsx:34-35 | U+1F600 sorts before U+FF01 although it is the larger character, because its first UTF-16 code unit (0xD83D) is smaller |
| `Values.Less` | src/components/DataTable.tsx:34-35 | `<` on cell values: never between equal values, and between values of different kinds it follows the kind order |
| `Values.LessTransitive` | src/components/DataTable.tsx:34-35 | `<` on cell values is transitive (strings by UTF-16 code unit, numbers numerically) |
| `Values.LessTrichotomy` | src/components/DataTable.tsx:34-35 | two cell values are equal or one is `<` the other, so "neither `<` nor `>`" means equal keys |
| `Sorting.Compare` | src/components/DataTable.tsx:34-36 | the comparator returns only -1, 0 or 1 |
| `Sorting.CompareZero` | src/components/DataTable.tsx:34-36 | the comparator returns 0 exactly when the two rows' keys are equal |
| `Sorting.CompareAntisymmetric` | src/components/DataTable.tsx:34-36 | swapping the comparator's arguments flips its sign, in both directions |
| `Sorting.NotAfterTransitive` | src/components/DataTable.tsx:34-36 | "not ordered after" under the comparator is transitive, so the comparator is consistent |
| `Sorting.NotAfterMeansOrdered` | src/components/DataTable.tsx:34-36 | the comparator ranks `a` no later than `b` iff `a[key]` ≤ `b[key]` ascending, or ≥ descending |
| `Sorting.SortedPermutation` | src/components/DataTable.tsx:33-37 | the sorted rows are a permutation (same multiset) of the input |
| `Sorting.SortedIsSorted` | src/components/DataTable.tsx:33-37 | no row of the sorted output is ranked after a later row |
| `Sorting.SortedIsStable` | src/components/DataTable.tsx:33-37 | for every key value, the rows with that key appear in the output in their input order (stability), in both directions |
| `Sorting.Insert` | src/components/DataTable.tsx:33 | one step of the sort, placing a row into a sorted prefix, lengthens it by one |
| `Sorting.Sorted` | src/components/DataTable.tsx:33 | the stable sort keeps the number of rows; `SortedPermutation`, `SortedIsSorted` and `SortedIsStable` state what it computes |
| `Sorting.DisplayOrder` | src/components/DataTable.tsx:30-38 | `sortedData` has as many rows as `data`, and is `data` itself when no sort is configured; `DisplayOrderCorrect` states the rest |
| `Sorting.InsertPermutation` | src/components/DataTable.tsx:33 | one insertion step adds exactly the inserted row |
| `Sorting.InsertSorted` | src/components/DataTable.tsx:33 | one insertion step keeps a sorted prefix sorted |
| `Sorting.InsertStable` | src/components/DataTable.tsx:33 | one insertion step puts the new row after every earlier row with the same key |
| `Sorting.InsertAt` | src/components/DataTable.tsx:33 | inserting at the first position whose successors all rank after the row is the specification's insertion |
| `Sorting.InsertInPlace` | src/components/DataTable.tsx:33 | one pass of the in-place sort turns the prefix `a[..i+1]` into the insertion of `a[i]` into `a[..i]` and leaves the rest alone |
| `Sorting.ShiftedPrefix` | src/components/DataTable.tsx:33 | after the shift loop the array prefix is the old prefix with the row placed at the stop position, and the rest of the array is as it was |
| `Sorting.InsertionSort` | src/components/DataTable.tsx:33 | sorting the array in place leaves exactly the stable sort of its old contents |
| `Sorting.SortedData` | src/components/DataTable.tsx:30-38 | `sortedData` is `data` itself with no sort; otherwise a sorted, stable permutation of a copy, and `data` is unchanged |
| `Sorting.DisplayOrderCorrect` | src/components/DataTable.tsx:30-38 | no sort: the rows themselves; otherwise a permutation, non-decreasing on `row[key]` for "asc", non-increasing for "desc", stable |
| `Sorting.DescendingIsNotReversedAscending` | src/components/DataTable.tsx:34-36 | two rows with equal keys stay in input order in both directions, so descending is not a reversed ascending sort |
| `HeaderSort.NextSortConfig` | src/components/DataTable.tsx:41-48 | a non-sortable column leaves the configuration unchanged; a sortable one becomes the key, with the direction flipped if it already was the key and "asc" otherwise |
| `HeaderSort.NeverUnsorted` | src/components/DataTable.tsx:41-48 | once a sort is configured, no header click removes it |
| `HeaderSort.ClicksAlternate` | src/components/DataTable.tsx:41-48 | from no sort, n clicks on one sortable column sort by it, "asc" after odd n and "desc" after even n |
| `HeaderSort.ThreeClicks` | src/components/DataTable.tsx:41-48 | three clicks from no sort give asc, desc, asc |
| `HeaderSort.TwoClicksRestore` | src/components/DataTable.tsx:43-44 | two clicks on the current sort column restore the configuration |
| `Selection.Remove` | src/components/DataTable.tsx:54 | `delete` removes the index, keeps every other index, and keeps the set free of duplicates |
| `Selection.RemoveAt` | src/components/DataTable.tsx:54 | deleting the index at position k removes exactly that position and keeps the order of the rest |
| `Selection.RemoveAbsent` | src/components/DataTable.tsx:54 | deleting an absent index changes nothing |
| `Selection.RemoveAppended` | src/components/DataTable.tsx:54-57 | deleting an index just added restores the selection exactly |
| `Selection.Toggle` | src/components/DataTable.tsx:52-58 | a selected index is removed even when not `selectable`; an absent one is appended only when `selectable`, else the handler returns early; no duplicates arise |
| `Selection.Lookup` | src/components/DataTable.tsx:60 | `data[i]` is the row at `i` when `i` is in range and `undefined` past the end |
| `Selection.Emission` | src/components/DataTable.tsx:60 | `onRowSelect` gets one entry per selected index, entry k being `data[sel[k]]` of the unsorted data (`undefined` past its end) |
| `Selection.ToggleTwice` | src/components/DataTable.tsx:52-59 | with `selectable`, toggling an index twice restores the same set of indices, and the exact sequence when the index was absent |
| `Selection.ToggleTwiceMayReorder` | src/components/DataTable.tsx:52-59 | toggling a selected index twice can move it to the end of the insertion order |
| `Selection.DisabledSelection` | src/components/DataTable.tsx:53-57 | without `selectable`, nothing can be added to an empty selection, but a selected index is still removed |
| `Body.HeaderCells` | src/components/DataTable.tsx:68-85 | the header has one cell per column, plus one selection cell first exactly when rows are selectable |
| `Body.TitleCells` | src/components/DataTable.tsx:70-84 | one title cell per column, in order, with a direction indicator exactly on the sort column |
| `Body.DataCells` | src/components/DataTable.tsx:120-124 | one cell per column showing `row[col.dataIndex]` |
| `Body.RenderRow` | src/components/DataTable.tsx:103-125 | a row at display position `index` has a checkbox exactly when selectable, checked and highlighted exactly when `index` is selected, a click that passes `index`, and one cell per column |
| `Body.RenderBody` | src/components/DataTable.tsx:89-127 | the body is the loading placeholder exactly when loading, the "no data" placeholder exactly when not loading and nothing is displayed, and otherwise one row per displayed row |
| `Body.RenderRows` | src/components/DataTable.tsx:102-126 | one rendered row per displayed row, the k-th built from the k-th displayed row at position k |
| `Body.BodyKind` | src/components/DataTable.tsx:89-102 | loading takes precedence; otherwise an empty display gives "no data"; otherwise one row per displayed row; a placeholder spans `columns.length + (selectable ? 1 : 0)`, the width of the header |
| `Body.RowsLineUpWithHeader` | src/components/DataTable.tsx:102-124 | each body row has a checkbox exactly when the header has the selection column and one cell per column showing that column's field; its checkbox, highlight and click index all use the display position |
| `DataTable.Table.Valid` | src/components/DataTable.tsx:27 | the selection is a `Set`: no index occurs earlier in it than its own position |
| `DataTable.Table.constructor` | src/components/DataTable.tsx:26-27 | a mounted table has no sort and an empty selection |
| `DataTable.Table.Rerender` | src/components/DataTable.tsx:19-27 | new props replace the old ones while the sort and selection state are kept |
| `DataTable.Table.SortedRows` | src/components/DataTable.tsx:30-38 | the render's `sortedData` is the display order of the current `data` and `sortConfig`, a permutation of `data` |
| `DataTable.Table.HandleSort` | src/components/DataTable.tsx:41-48 | the new `sortConfig` is the header transition of the old one; nothing else changes |
| `DataTable.Table.ToggleRowSelection` | src/components/DataTable.tsx:51-61 | the selection becomes the toggle of the old one, or is unchanged with no callback on an early return; the callback receives the emission of the new selection over the unsorted `data` |
| `DataTable.Table.Render` | src/components/DataTable.tsx:64-131 | the render shows the header and the body of the current state; the body kind follows `loading` and whether `data` is empty, with one row per data row |
| `DataTable.UnsortedSelectionAgrees` | src/components/DataTable.tsx:102-115 | with no sort, each reported row is the row displayed and highlighted at the selected index |
| `DataTable.NamesInCodeUnitOrder` | src/components/DataTable.tsx:34-35 | "Alice" < "Bob" < "Tanmay" under string `<` |
| `DataTable.SelectionReportsUnsortedRow` | src/components/DataTable.tsx:51-61 | for any names A < B < T, rows B, T, A sorted by name show A first; clicking it selects index 0 and highlights A, but reports B, `data[0]` |
| `DataTable.SortedSelectionReportsOtherRow` | src/components/DataTable.tsx:51-61 | with rows Bob, Tanmay, Alice sorted by name, clicking the displayed first row (Alice) highlights it but reports Bob, `data[0]` |

## Left out

- Markup, class strings (`clsx`, Tailwind), hover styling: presentation only. The ▲/▼ glyphs are kept only as the direction in a header cell.
- React hook mechanics (`useState` setters, re-render scheduling, `useMemo` caching): state is class fields updated by methods, and memoisation does not change results.
- `Values.Less`: JavaScript's coercing `<` between values of different kinds (a number and a string, or `undefined`) is not modelled; the model orders such values by kind (`Undefined`, then numbers, then strings). Within one kind it is JavaScript's `<`: numeric for numbers, by UTF-16 code unit for strings. So the sort properties hold of the program only for a column whose values are all of one kind. On a mixed or partly missing column the model's order can differ from the program's even where the program's comparator is consistent: rows `[{a: 1}, {}]` sorted by `a` stay as they are in JavaScript (`1 < undefined` and `1 > undefined` are both false, so the comparator returns 0 and the stable sort keeps them), but the model puts `{}` first; and `[1, "2", 3]` stays in order in JavaScript (`"2"` compares numerically) but becomes `[1, 3, "2"]` in the model. ECMA-262 (section 23.1.3.30, "Array.prototype.sort") leaves the result implementation-defined only when the comparator is inconsistent.
- Numbers are modelled as unbounded integers; floating-point keys (fractions, `NaN`) are not modelled.
- `onRowSelect` itself is outside the model: `ToggleRowSelection` returns the array it would receive, or `None` when the handler returns early or no callback was given.
- `src/components/InputField.tsx`, `src/components/Button.tsx`, `src/App.tsx` and the Storybook stories are presentational or demo wiring and are not part of this model.
