# Unified access page: the table engine and the catalog editor

This project models the in-memory logic of the two pages of the unified
access page for the TRISTAN and ISOLDE IP catalogs, and proves properties
of that model.

- **The table page** (`script.js`) loads JSON catalog files into the master
  data. It stamps each record with the category named by its file name,
  then concatenates the files and sorts the rows by `Name`. It derives the
  columns from the first record, primary columns first, and restricts them
  to the visible columns of the current view. It filters the rows with one
  value picker per column header and a free-text search. It lists each
  picker's values with *selected* and *valid* flags, in a fixed order. It
  reads preselected filters from the page address. It exports the shown
  rows as CSV.
- **The editor page** (`editor.js`) keeps an array of records,
  `currentData`, that is edited in place. Rows are added, inserted and
  deleted, and fields are updated. Saving checks the project name and the
  row names, then writes every row with a fixed set of keys.

The modules follow the program:

| module | models |
|---|---|
| `Records` | cells (`undefined`, a string, an array of strings) and records |
| `JsString` | `trim`, `toLowerCase`, `split`, `includes`, `startsWith`, and string order |
| `SeqUtil`, `Sorting` | `filter`, `new Set` de-duplication, `join`, and a stable sort |
| `FilterEngine` | `applyFilters` and the picker options |
| `Columns` | `reorderPrimaryFirst`, `deriveColumns`, `updateVisibleColumns`, column toggle |
| `Loader` | `findCategory`, the file-name category token, per-file injection, concat and sort |
| `Query` | `parseFiltersFromQuery` |
| `Csv` | the CSV export |
| `TableState` | class `Table`: the page's module-level variables and the handlers that reassign them |
| `Editor` | class `EditorState`: `currentData`, the project field, and the row and save operations |

The form of the model follows the code:

- Code that mutates state is a class with methods:
  - `applyFilters`, `deriveColumns`, `updateVisibleColumns` and the column toggle on the table page;
  - `addRow`, `insertRowBelow`, `deleteRow`, `updateData` and the loads in the editor.
  - Every `Table` method keeps `Table.Valid()`: the shown rows are the master rows with some left out, in order. `Table.Export` relies on it.
- Each source loop is a method with a `while` or `for` loop, proved equal to a specification function:
  - the filter-state rebuild;
  - the six primary checks and the `forEach` in `deriveColumns`;
  - the `parseFiltersFromQuery` loop;
  - the CSV line loop;
  - the name validation of `saveFile`.
- Pure expressions are functions:
  - `findCategory`;
  - `reorderPrimaryFirst`;
  - the row predicate;
  - the picker option list;
  - the CSV field expression.

Some behaviours of the code are easy to overlook. The model has them as the code has them:

- An unparsable JSON file makes `Promise.all` reject, so the whole load fails and the table stays reset (`Loader.LoadFilesFails`). No file contributes rows once one of them fails.
- `resetTable` clears the master data, the filtered data and the columns only. The filter state, the search text and the visible columns survive (`TableState.Table.ResetTable`).
- A malformed percent-escape in the page address makes `decodeURIComponent` throw, so the whole query is rejected (`None` in `Query.FiltersOf`). It is not ignored value by value.
- Category injection stores the canonical name as a plain string, not as an array.
- A file whose name resolves to a category but whose content is not an array contributes nothing.
- The remote listing test `endsWith('.json')` is case-sensitive. The category token test `/\.json$/i` is not.

## Model

| member | source | states |
|---|---|---|
| Records.Record.Set | script.js:132 | `{ ...item, Category }` and `row[key] = v`: the key gets the new cell, every other key keeps its cell, an existing key keeps its position, a new key goes last, and well-formedness is preserved |
| Records.CellValues | script.js:311-313 | `Array.isArray(v) ? v : [v]`: an array gives its elements in order, a string gives itself, a missing cell gives `undefined` |
| Records.ColumnValues | script.js:310-314 | a value is a value of the column iff some row has it in that column's cell |
| JsString.TrimSpec | script.js:89 | `trim` returns the slice of the string between the leading and the trailing white space, and that slice neither starts nor ends with white space |
| JsString.TrimIdempotent | script.js:89 | trimming a trimmed string changes nothing |
| JsString.TrimKeepsAbsent | editor.js:123 | trimming adds no character: a character absent from the string is absent from its trim |
| JsString.ToLowerIdempotent | script.js:89 | lower-casing twice is the same as lower-casing once |
| JsString.StrLeTotal | script.js:344 | the string order used for `localeCompare` is total |
| JsString.StrLeAntisymmetric | script.js:344 | two strings ordered both ways are equal |
| JsString.StrLeTransitive | script.js:344 | the string order is transitive |
| JsString.Split | script.js:763 | `split(',')` returns at least one piece, and no piece contains the separator |
| JsString.JoinSplit | script.js:763 | joining the pieces of a split with the separator gives back the string |
| JsString.SplitJoin | script.js:763 | splitting the join of separator-free pieces gives back the pieces |
| Sorting.SortSorted | script.js:151 | the stable sort yields a list sorted by a total, transitive comparator |
| Sorting.SortStable | script.js:151 | among elements tied with any given one, the sort keeps their input order |
| FilterEngine.RebuildFilterState | script.js:485-496 | the loop over the header dropdowns yields the left fold `FilterStateOf`, which never maps a column to an empty list |
| FilterEngine.FilterStateKeys | script.js:489-494 | a column is a key of the new state iff one of its dropdowns has a checked box |
| FilterEngine.FilterStateNeverEmpty | script.js:490 | no column of the state is mapped to an empty list |
| FilterEngine.FilterStateValues | script.js:489-494 | with one dropdown per column, a checked dropdown's column maps to exactly its checked values |
| FilterEngine.FilteredRowsSpec | script.js:498-517 | the shown rows are a subsequence of the master data, in order; each row is kept as often as it occurs iff it satisfies every filter and the search, and is dropped otherwise |
| FilterEngine.NoFiltersShowAll | script.js:498-517 | with no filter and no search text, every master row is shown |
| FilterEngine.EmptySelectionRejectsAll | script.js:499-505 | a column mapped to an empty list would reject every row, which the rebuild prevents |
| FilterEngine.MoreValuesShowMore | script.js:499-505 | accepting more values in a column never hides a shown row (OR within a column) |
| FilterEngine.MoreColumnsShowLess | script.js:499-505 | filtering one more column never shows a hidden row (AND across columns) |
| FilterEngine.MakeItems | script.js:334-338 | one option per candidate value, in order, with its selected and valid flags |
| FilterEngine.ItemLeIsTotalOrder | script.js:341-345 | the option comparator (selected, then valid, then text) is total and transitive |
| FilterEngine.ValidValuesSpec | script.js:320-331 | a value is valid iff some row satisfying the other columns' filters has it in the column |
| FilterEngine.OptionsWithSpec | script.js:310-345 | the option list, for any selection test, lists every column value exactly once, with its flags, in the comparator's order |
| FilterEngine.PickerListsEveryValueOnce | script.js:310-338 | every value of the column is listed exactly once; a selected value is listed and checked even when it is not valid |
| FilterEngine.PickerFlags | script.js:317-367 | selected iff its checkbox value is in the column's filter; valid iff a row satisfying the other filters (search ignored) has it; disabled iff neither |
| FilterEngine.PickerOrder | script.js:341-345 | selected options come before unselected ones, valid before invalid among equals, then text order |
| FilterEngine.SelectionAgreesWithFilter | script.js:499-505 | a cell passes a column's filter iff one of its values has its checkbox selected |
| FilterEngine.UndefinedNeverSelectedAsWritten | script.js:317-336 | as written, the option for rows lacking the column, whose checkbox value is "undefined", is never marked selected |
| FilterEngine.UndefinedOptionExample | script.js:317-338 | concrete rows where the filter "undefined" shows a row, yet the as-written option list leaves the undefined option unchecked; the corrected list checks it |
| Columns.ReorderShape | script.js:881-888 | the present primaries come first, as a subsequence of the fixed order; every other name follows in its original order |
| Columns.ReorderPermutation | script.js:881-888 | reordering distinct names is a permutation with no repeats |
| Columns.ReorderIdempotent | script.js:881-888 | reordering a reordered list changes nothing |
| Columns.DeriveOrder | script.js:915-927 | the six primary checks and the `forEach` compute `reorderPrimaryFirst` of the first record's keys |
| Columns.PresentPrimaries | script.js:918-923 | the six `if (raw.includes(...)) ordered.push(...)` lines keep the present primaries in order |
| Columns.PushOthers | script.js:924-926 | the `forEach` appends every name outside the priority list, in its original order, after what was already pushed |
| Columns.VisibleColumnsOrder | script.js:900-912 | the visible columns keep the order of the columns |
| Columns.VisibleColumnsMember | script.js:900-912 | a column is visible iff it is a column, is a default column in default mode, and is not URL when Name is a column |
| Columns.AllColumnsShowsEverything | script.js:904-911 | in all-columns mode, unless both Name and URL exist, every column is visible |
| Columns.ToggleColumnSpec | script.js:944-949 | after the toggle the column is visible iff checked; other columns' visibility is unchanged; distinctness is kept; the other columns keep their order |
| Columns.ToggleOnOff | script.js:944-949 | checking a hidden column and unchecking it again restores the list |
| Loader.FirstMatchSpec | script.js:78-85 | the first category whose name or alias equals the string case-insensitively, and its canonical name |
| Loader.FindCategorySpec | script.js:78-85 | the empty string resolves to nothing; otherwise the result is the first case-insensitive name or alias match |
| Loader.FindCategoryIgnoresCase | script.js:81-82 | resolution does not depend on the letter case of the string |
| Loader.AfterLastDot | script.js:127-128 | the segment after the last dot is dot-free and is a suffix of the string |
| Loader.CategoryTokenOf | script.js:127-128 | for `prefix.token.json` with a dot-free token, the category token is `token` |
| Loader.InjectCategory | script.js:130-133 | the record count is kept; every record gets Category set to the canonical name; other fields are unchanged |
| Loader.LoadFileSpec | script.js:124-140 | fewer than two dots pass the array through; an unresolved token skips the file; a resolved one stamps every record; a non-array contributes nothing; only an unparsable file fails |
| Loader.LoadFilesFails | script.js:118-148 | the load fails iff some file is unparsable; otherwise each file contributes what `LoadFile` gives |
| Loader.NameLeIsPreorder | script.js:151 | comparing `String(Name ?? '')` is total and transitive |
| Loader.LoadAllSpec | script.js:150-151 | the master data is sorted by Name, holds each loaded record as often as the files do, and keeps rows with the same Name in file order |
| Loader.ConcatLength | script.js:150 | `flat()` yields as many records as the files hold together |
| Loader.JsonFilesSpec | script.js:169 | the listing keeps exactly the `file` entries whose name ends with `.json`, in listing order |
| Query.StripFilterPrefix | script.js:761-762 | a key starting with `filter_` loses exactly that prefix; any other key is the column itself |
| Query.StripOnce | script.js:762 | only one `filter_` is removed |
| Query.DecodeAll | script.js:763 | decoding succeeds iff every piece decodes, and gives each piece's decoding in order |
| Query.ParseFiltersFromQuery | script.js:756-769 | the loop over the parameters yields `FiltersOf`, or fails when a piece does not decode |
| Query.FiltersOfKeys | script.js:759-767 | a column is a key iff some parameter names it, with or without `filter_` |
| Query.FiltersOfLastWins | script.js:759-767 | a column's values are the tokens of the last parameter naming it |
| Query.FiltersOfTrimmed | script.js:761-765 | every stored value is trimmed and non-empty |
| Query.TokensTrimmedNonEmpty | script.js:763 | the tokens of one parameter value are trimmed and non-empty |
| Query.EmptyValueNoTokens | script.js:763 | an empty parameter value stores an empty list |
| Query.ValueTokensRoundTrip | script.js:763 | clean comma-free values joined by commas parse back to themselves |
| Csv.EscapeQuotesSpec | script.js:701 | escaping doubles every `"` and keeps every other character in its order: the length grows by the number of quotes, the quotes double in number, and the text without quotes is unchanged |
| Csv.UnescapeEscape | script.js:701 | reading `""` as `"` recovers the original text from the escaped text |
| Csv.UnquoteQuote | script.js:701 | a quoted field reads back as exactly the text it quotes |
| Csv.QuotedWordExample | script.js:701 | `a"b"` becomes `"a""b"""` for quote-free a and b, the shape of `He said "hi"` |
| Csv.FieldText | script.js:701 | `(r[c] \|\| '').toString()` is the cell's display text: "" when missing, the comma-joined items for an array |
| Csv.RowFields | script.js:701 | one quoted field per visible column, in column order |
| Csv.CsvLines | script.js:698-702 | the header line of visible columns joined by `,`, then one line per shown row |
| Csv.BuildLines | script.js:698-702 | the `forEach` that pushes one line per row yields `CsvLines` |
| Csv.ExportCsv | script.js:697-703 | no file when no row is shown; otherwise the lines joined with CRLF |
| Csv.RowFieldsReadBack | script.js:701 | every field of a line reads back as the cell's display text |
| TableState.FetchedFiles | script.js:172-176 | one fetched file per listed `.json` file, in listing order |
| TableState.Table.constructor | script.js:43-50 | initially everything is empty and the view is the default one |
| TableState.Table.ResetTable | script.js:210-218 | the master data, the filtered data and the columns are cleared; the filters, the search text, the visible columns and the view are kept |
| TableState.Table.ApplyFilters | script.js:483-517 | the filter state is rebuilt from the dropdowns, and the shown rows are those it and the search text let through; nothing else changes |
| TableState.Table.SetSearchText | script.js:88-91 | the search text becomes the trimmed, lower-cased input, then the filters are applied again |
| TableState.Table.UpdateVisibleColumns | script.js:900-912 | the visible columns become those of the view; nothing else changes |
| TableState.Table.DeriveColumns | script.js:915-929 | the columns become the reordered keys of the first record, and the visible columns those of the view |
| TableState.Table.SetColumns | script.js:927-928 | the columns become the derived list and the visible columns those of the current view; nothing else changes |
| TableState.Table.SetViewMode | script.js:891-897 | the view changes, then the visible columns are recomputed |
| TableState.Table.ToggleVisibleColumn | script.js:944-949 | the visible columns change as `ToggleColumn` says; nothing else changes |
| TableState.Table.LoadLocal | script.js:110-158 | with no file chosen nothing changes; otherwise the table is reset, then on success all loaded rows are shown and the columns and visible columns derived, and on failure the table stays reset with its visible columns kept |
| TableState.Table.LoadFiles | script.js:114-153 | reset, then on success all loaded rows are shown and the columns and visible columns derived; on failure the table stays reset |
| TableState.Table.ShowLoaded | script.js:150-153 | the loaded rows become the master data and are all shown, the columns are derived from them; filters, search text and view are unchanged; the table invariant holds |
| TableState.Table.LoadRemote | script.js:165-205 | the listed `.json` files, fetched and loaded as `LoadFiles` loads them: on success the sorted rows all shown with the columns and visible columns derived, on failure an empty table with the visible columns kept |
| TableState.Table.Export | script.js:696-703 | the export of the shown rows under the visible columns, or no file when none is shown; every exported row is a master row, so an export implies loaded data |
| TableState.LoadedTableShowsAll | script.js:150-153 | after a load with no filter and no search, every loaded row is shown, and the columns rearrange the first row's keys |
| Editor.CommaTokensClean | editor.js:122-123 | every stored token of `WI`, `Partners` or `Category` is non-empty, trimmed and comma-free |
| Editor.CommaTokensRoundTrip | editor.js:122-123 | an array cell shown as its items joined by `, ` and edited unchanged stores the same items |
| Editor.CommaTokensEmpty | editor.js:122-123 | an emptied array field stores no items |
| Editor.ValidateNames | editor.js:138-155 | the loop with `seenNames` yields the first name error, `FirstNameError` |
| Editor.FirstNameErrorSpec | editor.js:138-155 | validation passes iff all trimmed names are non-empty and pairwise distinct; otherwise it reports the first offending row |
| Editor.NormalizeRow | editor.js:157-171 | a saved row has exactly the output keys, `Project` first; `Project` is the project name; each other key keeps a truthy value, else `[]` for `WI`, `Partners` and `Category` and `''` for the rest |
| Editor.NormalizeRows | editor.js:160-172 | one saved row per row, in order |
| Editor.SaveResultSpec | editor.js:129-173 | a blank trimmed project name rejects the save; otherwise saving succeeds iff the names are valid, stopping at the first offending row, and writes `<project>.json` with one row per row |
| Editor.NormalizeRowIdempotent | editor.js:157-171 | normalising a saved row again changes nothing |
| Editor.NormalizeKeepsNames | editor.js:157-171 | a saved row has the same name text as the row it came from |
| Editor.NormalizedNamesValid | editor.js:157-171 | rows whose names passed validation still pass it once saved |
| Editor.NormalizeRowsIdempotent | editor.js:160-172 | normalising saved rows again with the same project changes nothing |
| Editor.SaveLoadSave | editor.js:129-173 | loading a saved file sets the project field to its project, and saving it again writes the same file |
| Editor.SavedProject | editor.js:322-324 | loading saved rows sets the project field to their project, and leaves it as it was when there are no rows |
| Editor.EditorState.constructor | editor.js:30 | the editor starts with no rows and an empty project field |
| Editor.EditorState.CreateNewFile | editor.js:90-97 | exactly one empty row and an empty project name |
| Editor.EditorState.AddRow | editor.js:99-102 | one empty row is appended; earlier rows are unchanged |
| Editor.EditorState.InsertRowBelow | editor.js:104-107 | an empty row at index i+1, earlier rows unchanged and later ones shifted; past the end, it is appended |
| Editor.EditorState.DeleteRow | editor.js:109-118 | with one row, the row is cleared; otherwise the row at the index is removed; deletion never empties the array |
| Editor.EditorState.UpdateData | editor.js:120-127 | only that key of that row changes, to the comma tokens for the array keys and the verbatim value otherwise; an index past the end changes nothing |
| Editor.EditorState.LoadLocal | editor.js:317-333 | a non-array value is wrapped in a one-element array; a truthy first Project becomes the project name; unparsable text changes nothing |
| Editor.EditorState.LoadRemote | editor.js:72-87 | the fetched array replaces the data; the project field becomes the first row's Project, or is cleared |
| Editor.EditorState.SaveFile | editor.js:129-173 | the outcome is `SaveResult` of the data and the project field, and nothing changes |

## Findings

| source | as written | input that shows it | evidently intended | confidence | as-written member | corrected member |
|---|---|---|---|---|---|---|
| script.js:317-336 | `selectedValues.has(val)` (repeated at script.js:542-559) compares the option value `undefined` with the string `"undefined"`, the checkbox value that `applyFilters` stores for it. So the undefined option is never marked selected: it is not ticked, and it is disabled when invalid, while the filter keeps showing rows that lack the column | rows `{Name:"a", Status:"x"}` and `{Name:"b"}`, filter state `{Status: ["undefined"]}`: row b is shown, but the Status picker shows its undefined option unchecked | an option is selected exactly when its checkbox value is in the column's filter | not executed | FilterEngine.UndefinedNeverSelectedAsWritten, FilterEngine.UndefinedOptionExample (on FilterEngine.PickerOptionsAsWritten) | FilterEngine.PickerOptions, with FilterEngine.PickerFlags and FilterEngine.SelectionAgreesWithFilter |

## Left out

- The DOM, event wiring, the portal dropdowns, rendering, the settings panel, column resizing and `aria` attributes are UI and not modelled. Checkbox state enters as the `Dropdown` values; input text enters as a parameter.
- `fetch`, `FileReader`, Blob downloads and `JSON.parse` are I/O. A parsed file is a `Parsed` value (unparsable, not an array, or an array of records). A fetched remote file is the result of a `fetch` function parameter.
- Only the outcome of `Promise.all` is modelled: the load fails iff some file fails. The order in which rejections arrive and the status messages are not modelled.
- `loadAllowedCategories` and `loadProjectsData` are I/O; the category list is a parameter.
- A failing GitHub listing request (`!resp.ok`) is not modelled; the listing is a parameter.
- `isValidUrl` wraps the browser's `URL` constructor and only decides rendering, so it is not modelled.
- The `postMessage` listener, the `setTimeout` seeding and `setInitialFilterSelections` only tick DOM checkboxes before `applyFilters`, so they are not modelled.
- The picker's label search box (script.js:405-410, 607-608) only hides labels, so it is not modelled.
- `decodeURIComponent` is a parameter `string -> Option<string>`; `None` stands for the URIError it throws.
- `Array.prototype.sort` sorts in place. `masterData.sort`, `items.sort` and the default `.sort()` of the picker values are modelled as a stable insertion sort on sequences (`Sorting.Sort`), so the in-place update is not captured.
- JsString.StrLe: `localeCompare` and the default sort are both modelled as code-point lexicographic order. Locale collation and UTF-16 code-unit order for characters outside the Basic Multilingual Plane are not captured.
- JsString.LowerChar: `toLowerCase` is modelled on ASCII letters only.
- JSON `null`, numbers and booleans are not modelled separately. A cell is missing, a string, or an array of strings, and array elements are taken to be strings. Every element of a loaded array is taken to be an object.
- In the editor, only a parsed record or array of records is modelled for a local load and a remote load. A remote file that is not an array (where `currentData.length` is undefined) is not modelled.
- Editor.EditorState.DeleteRow: with a single row and an index other than 0 the source creates a sparse array. The model requires index 0 in that case; the rendered rows only ever pass their own index.
- Editor.NameText: a `Name` that is an array has no `trim`, so the save throws a TypeError. The model reports this as the error `NameNotText`.
- The alerts, focus changes, button enabling and the JSON text layout of the download (`JSON.stringify(..., null, 2)`) are not modelled. The saved rows and the file name are.
- The CSV header is written without quoting, as the source does. A column name holding a comma or a quote is not escaped.
- Csv.QuotedWordExample: the `He said "hi"` example is proved in a general form, for any quote-free `a` and `b` in `a"b"`, rather than for that literal string.
- `scripts/validate_ips.py` wraps a JSON-schema library and globs files, so it is not part of this model.
