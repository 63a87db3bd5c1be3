/**
 * The module-level state of the table page (script.js:43-50) and the
 * handlers that update it: loading the master data, rebuilding the
 * filters, the search box, the derived and visible columns, the view
 * switch, the column toggle and the CSV export.
 */
module TableState {
  import opened Wrappers
  import opened SeqUtil
  import opened JsString
  import opened Records
  import opened FilterEngine
  import opened Columns
  import opened Loader
  import opened Csv

  /** `Object.keys(masterData[0] || {})`. */
  function RawColumns(master: seq<Record>): seq<string> {
    if master == [] then [] else master[0].keys
  }

  /** The listed remote JSON files, each paired with what fetching and parsing it gave. */
  function FetchedFiles(items: seq<Listing>, fetch: Listing -> Parsed): (r: seq<(string, Parsed)>)
    ensures |r| == |JsonFiles(items)|
    ensures forall i :: 0 <= i < |r| ==> r[i] == (JsonFiles(items)[i].name, fetch(JsonFiles(items)[i]))
  {
    var json := JsonFiles(items);
    seq(|json|, i requires 0 <= i < |json| => (json[i].name, fetch(json[i])))
  }

  class Table {
    var masterData: seq<Record>
    var filteredData: seq<Record>
    var columns: seq<string>
    var searchText: string
    var filterState: FilterState
    var visibleColumns: seq<string>
    var viewMode: ViewMode

    /** The shown rows are always the master rows with some deleted, in order. */
    ghost predicate Valid()
      reads this`masterData, this`filteredData
    {
      Subseq(filteredData, masterData)
    }

    constructor()
      ensures Valid()
      ensures masterData == [] && filteredData == [] && columns == [] && visibleColumns == []
      ensures searchText == "" && filterState == map[] && viewMode == DefaultView
    {
      masterData := [];
      filteredData := [];
      columns := [];
      searchText := "";
      filterState := map[];
      visibleColumns := [];
      viewMode := DefaultView;
    }

    /** `resetTable`: the data and the columns are cleared; the filters, the search text and the visible columns are kept. */
    method ResetTable()
      modifies this
      ensures Valid()
      ensures masterData == [] && filteredData == [] && columns == []
      ensures searchText == old(searchText) && filterState == old(filterState)
      ensures visibleColumns == old(visibleColumns) && viewMode == old(viewMode)
    {
      masterData := [];
      filteredData := [];
      columns := [];
    }

    /** `applyFilters`: the filter state from the checked boxes, then the rows it and the search text let through. */
    method ApplyFilters(dropdowns: seq<Dropdown>)
      modifies this
      ensures Valid()
      ensures filterState == FilterStateOf(dropdowns)
      ensures filteredData == FilteredRows(masterData, filterState, columns, searchText)
      ensures masterData == old(masterData) && columns == old(columns) && searchText == old(searchText)
      ensures visibleColumns == old(visibleColumns) && viewMode == old(viewMode)
    {
      filterState := RebuildFilterState(dropdowns);
      filteredData := FilteredRows(masterData, filterState, columns, searchText);
      FilteredRowsSpec(masterData, filterState, columns, searchText);
    }

    /** The search box's input handler: the trimmed, lower-cased text, then the filters applied again. */
    method SetSearchText(input: string, dropdowns: seq<Dropdown>)
      modifies this
      ensures Valid()
      ensures searchText == SearchTextOf(input)
      ensures filterState == FilterStateOf(dropdowns)
      ensures filteredData == FilteredRows(masterData, filterState, columns, searchText)
      ensures masterData == old(masterData) && columns == old(columns)
      ensures visibleColumns == old(visibleColumns) && viewMode == old(viewMode)
    {
      searchText := ToLower(Trim(input));
      ApplyFilters(dropdowns);
    }

    /** `updateVisibleColumns`. */
    method UpdateVisibleColumns()
      requires Valid()
      modifies this
      ensures Valid()
      ensures visibleColumns == VisibleColumnsFor(columns, viewMode)
      ensures masterData == old(masterData) && filteredData == old(filteredData) && columns == old(columns)
      ensures searchText == old(searchText) && filterState == old(filterState) && viewMode == old(viewMode)
    {
      if viewMode == DefaultView {
        visibleColumns := Filter(columns, c => c in DefaultColumns);
      } else {
        visibleColumns := columns;
      }
      if "Name" in columns && "URL" in columns {
        visibleColumns := Filter(visibleColumns, c => c != "URL");
      }
    }

    /** `deriveColumns`: the first record's keys, primaries first, then the visible columns of the view. */
    method DeriveColumns()
      requires Valid()
      modifies this
      ensures Valid()
      ensures columns == ReorderPrimaryFirst(RawColumns(masterData))
      ensures visibleColumns == VisibleColumnsFor(columns, viewMode)
      ensures masterData == old(masterData) && filteredData == old(filteredData)
      ensures searchText == old(searchText) && filterState == old(filterState) && viewMode == old(viewMode)
    {
      var ordered := DeriveOrder(RawColumns(masterData));
      SetColumns(ordered);
    }

    /** `columns = ordered; updateVisibleColumns()` at the end of deriveColumns. */
    method SetColumns(ordered: seq<string>)
      requires Valid()
      modifies this
      ensures Valid()
      ensures columns == ordered && visibleColumns == VisibleColumnsFor(ordered, viewMode)
      ensures masterData == old(masterData) && filteredData == old(filteredData)
      ensures searchText == old(searchText) && filterState == old(filterState) && viewMode == old(viewMode)
    {
      columns := ordered;
      UpdateVisibleColumns();
    }

    /** The view switch: the new mode, then the visible columns of it. */
    method SetViewMode(mode: ViewMode)
      requires Valid()
      modifies this
      ensures Valid()
      ensures viewMode == mode
      ensures visibleColumns == VisibleColumnsFor(columns, mode)
      ensures masterData == old(masterData) && filteredData == old(filteredData) && columns == old(columns)
      ensures searchText == old(searchText) && filterState == old(filterState)
    {
      viewMode := mode;
      UpdateVisibleColumns();
    }

    /** A column checkbox of the toggle menu changed. */
    method ToggleVisibleColumn(col: string, checked: bool)
      requires Valid()
      modifies this
      ensures Valid()
      ensures visibleColumns == ToggleColumn(old(visibleColumns), col, checked)
      ensures masterData == old(masterData) && filteredData == old(filteredData) && columns == old(columns)
      ensures searchText == old(searchText) && filterState == old(filterState) && viewMode == old(viewMode)
    {
      if checked {
        if col !in visibleColumns {
          visibleColumns := visibleColumns + [col];
        }
      } else {
        visibleColumns := Filter(visibleColumns, c => c != col);
      }
    }

    /**
     * The file input's change handler: with no file chosen nothing
     * happens; otherwise the chosen files are loaded as `LoadFiles` loads
     * them.
     */
    method LoadLocal(cats: seq<Category>, files: seq<(string, Parsed)>)
      modifies this
      requires Valid()
      ensures Valid()
      ensures files == [] ==>
        && masterData == old(masterData) && filteredData == old(filteredData) && columns == old(columns)
        && visibleColumns == old(visibleColumns)
      ensures files != [] && LoadAll(cats, files).Some? ==>
        && masterData == LoadAll(cats, files).value
        && filteredData == masterData
        && columns == ReorderPrimaryFirst(RawColumns(masterData))
        && visibleColumns == VisibleColumnsFor(columns, viewMode)
      ensures files != [] && LoadAll(cats, files).None? ==>
        && masterData == [] && filteredData == [] && columns == []
        && visibleColumns == old(visibleColumns)
      ensures searchText == old(searchText) && filterState == old(filterState) && viewMode == old(viewMode)
    {
      if files == [] {
        return;
      }
      LoadFiles(cats, files);
    }

    /**
     * Loading a set of parsed files (a non-empty local selection, and the
     * remote load once its files are fetched): the table is reset, then on
     * success the master data is the sorted concatenation, every row is
     * shown and the columns are derived; a failed file leaves it reset.
     */
    method LoadFiles(cats: seq<Category>, files: seq<(string, Parsed)>)
      modifies this
      ensures Valid()
      ensures LoadAll(cats, files).Some? ==>
        && masterData == LoadAll(cats, files).value
        && filteredData == masterData
        && columns == ReorderPrimaryFirst(RawColumns(masterData))
        && visibleColumns == VisibleColumnsFor(columns, viewMode)
      ensures LoadAll(cats, files).None? ==>
        && masterData == [] && filteredData == [] && columns == []
        && visibleColumns == old(visibleColumns)
      ensures searchText == old(searchText) && filterState == old(filterState) && viewMode == old(viewMode)
    {
      ResetTable();
      var loaded := LoadAll(cats, files);
      if loaded.Some? {
        ShowLoaded(loaded.value);
      }
    }

    /** The end of a successful load: the new master data, all of it shown, and the columns derived from it. */
    method ShowLoaded(master: seq<Record>)
      modifies this
      ensures Valid()
      ensures masterData == master && filteredData == master
      ensures columns == ReorderPrimaryFirst(RawColumns(master))
      ensures visibleColumns == VisibleColumnsFor(columns, viewMode)
      ensures searchText == old(searchText) && filterState == old(filterState) && viewMode == old(viewMode)
    {
      masterData := master;
      filteredData := master;
      SubseqReflexive(master);
      DeriveColumns();
    }

    /** `loadFromGitHub` after `resetTable`: the `.json` files of the listing, fetched, then loaded. */
    method LoadRemote(cats: seq<Category>, items: seq<Listing>, fetch: Listing -> Parsed)
      modifies this
      ensures Valid()
      ensures LoadAll(cats, FetchedFiles(items, fetch)).Some? ==>
        && masterData == LoadAll(cats, FetchedFiles(items, fetch)).value
        && filteredData == masterData
        && columns == ReorderPrimaryFirst(RawColumns(masterData))
        && visibleColumns == VisibleColumnsFor(columns, viewMode)
      ensures LoadAll(cats, FetchedFiles(items, fetch)).None? ==>
        && masterData == [] && filteredData == [] && columns == []
        && visibleColumns == old(visibleColumns)
      ensures searchText == old(searchText) && filterState == old(filterState) && viewMode == old(viewMode)
    {
      LoadFiles(cats, FetchedFiles(items, fetch));
    }

    /** The export button: no file when no row is shown, otherwise the CSV of the shown rows and visible columns. */
    method Export() returns (csv: Option<string>)
      requires Valid()
      ensures csv == ExportCsv(filteredData, visibleColumns)
      ensures csv.Some? ==> masterData != [] && |filteredData| <= |masterData|
      ensures forall r :: r in filteredData ==> r in masterData
    {
      SubseqMembers(filteredData, masterData);
      if filteredData == [] {
        return None;
      }
      SubseqLength(filteredData, masterData);
      var lines := BuildLines(filteredData, visibleColumns);
      csv := Some(Join(lines, "\r\n"));
    }

    /**
     * The option list of a column's value picker for the current data and
     * filters. This is the corrected picker, `PickerOptions`, which marks
     * the option of rows lacking the column as selected when its checkbox
     * value is in the filter; the picker as the code builds it is
     * `PickerOptionsAsWritten`.
     */
    function PickerFor(col: string): seq<PickerItem>
      reads this
    {
      PickerOptions(masterData, filterState, col)
    }
  }

  /** After a successful load with no filter and no search every loaded row is shown, and the columns are a rearrangement of the first row's keys. */
  lemma LoadedTableShowsAll(cats: seq<Category>, files: seq<(string, Parsed)>, master: seq<Record>)
    requires LoadAll(cats, files) == Some(master)
    requires master != [] ==> Distinct(master[0].keys)
    ensures FilteredRows(master, map[], ReorderPrimaryFirst(RawColumns(master)), "") == master
    ensures multiset(ReorderPrimaryFirst(RawColumns(master))) == multiset(RawColumns(master))
  {
    NoFiltersShowAll(master, ReorderPrimaryFirst(RawColumns(master)));
    if master != [] {
      ReorderPermutation(master[0].keys);
    } else {
      assert RawColumns(master) == [];
    }
  }
}
