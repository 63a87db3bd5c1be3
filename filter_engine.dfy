/**
 * The filter engine of the table page (script.js): the per-column filter
 * state rebuilt from the checked boxes, the row predicate that combines
 * the filters (OR within a column, AND across columns) with the free-text
 * search, and the option list of a column's value picker.
 */
module FilterEngine {
  import opened SeqUtil
  import opened JsString
  import opened Records
  import opened Sorting

  /** `filterState`: column name to the values accepted for it. */
  type FilterState = map<string, seq<string>>

  /** One header dropdown: its column and the values of its checked boxes, in document order. */
  datatype Dropdown = Dropdown(column: string, checked: seq<string>)

  // ---------------------------------------------------------------------
  // Rebuilding the filter state (applyFilters, script.js:485-496)
  // ---------------------------------------------------------------------

  /** The state obtained by visiting the dropdowns in order and recording each one that has a checked box. */
  function FilterStateOf(dropdowns: seq<Dropdown>): FilterState {
    if dropdowns == [] then map[]
    else
      var prev := FilterStateOf(dropdowns[..|dropdowns| - 1]);
      var d := dropdowns[|dropdowns| - 1];
      if |d.checked| > 0 then prev[d.column := d.checked] else prev
  }

  /** The loop of applyFilters that fills `newFilterState`. */
  method RebuildFilterState(dropdowns: seq<Dropdown>) returns (state: FilterState)
    ensures state == FilterStateOf(dropdowns)
    ensures forall col :: col in state ==> state[col] != []
  {
    state := map[];
    var i := 0;
    while i < |dropdowns|
      invariant 0 <= i <= |dropdowns|
      invariant state == FilterStateOf(dropdowns[..i])
    {
      var d := dropdowns[i];
      if |d.checked| > 0 {
        state := state[d.column := d.checked];
      }
      assert dropdowns[..i + 1][..i] == dropdowns[..i];
      i := i + 1;
    }
    assert dropdowns[..i] == dropdowns;
    FilterStateNeverEmpty(dropdowns);
  }

  /** A column is filtered exactly when one of its dropdowns has a checked box. */
  lemma {:induction false} FilterStateKeys(dropdowns: seq<Dropdown>, col: string)
    ensures col in FilterStateOf(dropdowns)
        <==> exists i :: 0 <= i < |dropdowns| && dropdowns[i].column == col && |dropdowns[i].checked| > 0
  {
    if dropdowns != [] {
      var n := |dropdowns| - 1;
      var init := dropdowns[..n];
      FilterStateKeys(init, col);
      forall i | 0 <= i < n ensures init[i] == dropdowns[i] { }
      if col in FilterStateOf(init) {
        var i :| 0 <= i < n && init[i].column == col && |init[i].checked| > 0;
        assert dropdowns[i] == init[i];
      }
    }
  }

  /** The rebuilt state never maps a column to an empty list (which would reject every row). */
  lemma {:induction false} FilterStateNeverEmpty(dropdowns: seq<Dropdown>)
    ensures forall col :: col in FilterStateOf(dropdowns) ==> FilterStateOf(dropdowns)[col] != []
  {
    if dropdowns != [] {
      FilterStateNeverEmpty(dropdowns[..|dropdowns| - 1]);
    }
  }

  /** With one dropdown per column, each checked dropdown contributes exactly its checked values. */
  lemma {:induction false} FilterStateValues(dropdowns: seq<Dropdown>, i: nat)
    requires i < |dropdowns| && |dropdowns[i].checked| > 0
    requires forall a, b :: 0 <= a < b < |dropdowns| ==> dropdowns[a].column != dropdowns[b].column
    ensures dropdowns[i].column in FilterStateOf(dropdowns)
    ensures FilterStateOf(dropdowns)[dropdowns[i].column] == dropdowns[i].checked
  {
    var n := |dropdowns| - 1;
    var init := dropdowns[..n];
    if i < n {
      assert init[i] == dropdowns[i];
      FilterStateValues(init, i);
    }
  }

  // ---------------------------------------------------------------------
  // The row predicate (applyFilters, script.js:498-517)
  // ---------------------------------------------------------------------

  /** One column's constraint: an array cell shares a value with vals, any other cell's String() is in vals. */
  predicate CellMatches(c: Cell, vals: seq<string>) {
    match c
    case Multi(items) => exists v :: v in items && v in vals
    case Scalar(t) => t in vals
    case Missing => "undefined" in vals
  }

  /** Every filtered column is satisfied. */
  predicate RowMatchesFilters(row: Record, state: FilterState) {
    forall col :: col in state ==> CellMatches(row.Get(col), state[col])
  }

  /** A cell contains the (already lower-cased) search text, ignoring case; undefined never does. */
  predicate CellContains(c: Cell, needle: string) {
    match c
    case Missing => false
    case Scalar(t) => Contains(ToLower(t), needle)
    case Multi(items) => exists v :: v in items && Contains(ToLower(v), needle)
  }

  /** An empty search accepts every row; otherwise some column's cell must contain it. */
  predicate RowMatchesSearch(row: Record, columns: seq<string>, searchText: string) {
    searchText == "" || exists col :: col in columns && CellContains(row.Get(col), searchText)
  }

  predicate RowShown(row: Record, state: FilterState, columns: seq<string>, searchText: string) {
    RowMatchesFilters(row, state) && RowMatchesSearch(row, columns, searchText)
  }

  /** `filteredData = masterData.filter(...)`. */
  function FilteredRows(master: seq<Record>, state: FilterState, columns: seq<string>, searchText: string): seq<Record> {
    Filter(master, row => RowShown(row, state, columns, searchText))
  }

  /** `searchText = e.target.value.trim().toLowerCase()` (script.js:89). */
  function SearchTextOf(input: string): string {
    ToLower(Trim(input))
  }

  /**
   * The filtered data is the master data with the rejected rows deleted:
   * in the same order, and each row kept exactly as often as it occurs
   * when it is shown, not at all when it is not.
   */
  lemma FilteredRowsSpec(master: seq<Record>, state: FilterState, columns: seq<string>, searchText: string)
    ensures var r := FilteredRows(master, state, columns, searchText);
      && Subseq(r, master)
      && (forall row :: multiset(r)[row] == if RowShown(row, state, columns, searchText) then multiset(master)[row] else 0)
      && (forall row :: row in r <==> row in master && RowShown(row, state, columns, searchText))
  {
    var p := row => RowShown(row, state, columns, searchText);
    FilterSubseq(master, p);
    forall row ensures multiset(Filter(master, p))[row] == if p(row) then multiset(master)[row] else 0 {
      FilterMultiset(master, p, row);
    }
    forall row ensures row in Filter(master, p) <==> row in master && p(row) {
      FilterMember(master, p, row);
    }
  }

  /** With no filtered column and no search text every row is shown. */
  lemma NoFiltersShowAll(master: seq<Record>, columns: seq<string>)
    ensures FilteredRows(master, map[], columns, "") == master
  {
    FilterAll(master, row => RowShown(row, map[], columns, ""));
  }

  /** A column mapped to an empty list would reject every row: the reason the state never holds one. */
  lemma EmptySelectionRejectsAll(master: seq<Record>, state: FilterState, columns: seq<string>, searchText: string, col: string)
    requires col in state && state[col] == []
    ensures FilteredRows(master, state, columns, searchText) == []
  {
    FilterNone(master, row => RowShown(row, state, columns, searchText));
  }

  /** Checking one more value of a column (OR within the column) never hides a row that was shown. */
  lemma MoreValuesShowMore(row: Record, state: FilterState, columns: seq<string>, searchText: string, col: string, extra: seq<string>)
    requires col in state
    requires RowShown(row, state, columns, searchText)
    ensures RowShown(row, state[col := state[col] + extra], columns, searchText)
  {
    var state' := state[col := state[col] + extra];
    forall c | c in state' ensures CellMatches(row.Get(c), state'[c]) {
      assert CellMatches(row.Get(c), state[c]);
      match row.Get(c)
      case Multi(items) => {
        var v :| v in items && v in state[c];
        assert v in state'[c];
      }
      case Scalar(t) => {}
      case Missing => {}
    }
  }

  /** Filtering one more column (AND across columns) never shows a row that was hidden. */
  lemma MoreColumnsShowLess(row: Record, state: FilterState, columns: seq<string>, searchText: string, col: string, vals: seq<string>)
    requires col !in state
    requires RowShown(row, state[col := vals], columns, searchText)
    ensures RowShown(row, state, columns, searchText)
  {
    forall c | c in state ensures CellMatches(row.Get(c), state[c]) {
      assert state[col := vals][c] == state[c];
    }
  }

  // ---------------------------------------------------------------------
  // Value picker options (script.js:310-345, duplicated at 536-567)
  // ---------------------------------------------------------------------

  /** One option of a picker: its value and its two flags. */
  datatype PickerItem = PickerItem(value: Value, isSelected: bool, isValid: bool)

  /** `cb.disabled = !item.isValid && !item.isSelected` (script.js:363, 598). */
  predicate Disabled(item: PickerItem) {
    !item.isValid && !item.isSelected
  }

  /** The checkbox value an option gets: `cb.value = item.value` turns undefined into "undefined". */
  function CheckboxValue(v: Value): string {
    match v
    case Undef => "undefined"
    case Str(s) => s
  }

  /** `String(a.value ?? '')`: the text the option sort compares. */
  function SortText(v: Value): string {
    match v
    case Undef => ""
    case Str(s) => s
  }

  /** `filterState[col] || []`. */
  function SelectedValues(state: FilterState, col: string): seq<string> {
    if col in state then state[col] else []
  }

  /** `selectedValues.has(val)`: a Set of strings never holds undefined. */
  predicate IsSelectedAsWritten(sel: seq<string>, v: Value) {
    v.Str? && v.s in sel
  }

  /** An option is selected when its checkbox value is one of the selected values. */
  predicate IsSelected(sel: seq<string>, v: Value) {
    CheckboxValue(v) in sel
  }

  /** `otherFilters`: the filter state without the open column. */
  function OtherFilters(state: FilterState, col: string): FilterState {
    state - {col}
  }

  /** `partiallyFilteredData`: the rows that satisfy the other columns' filters (search text ignored). */
  function PartialRows(master: seq<Record>, state: FilterState, col: string): seq<Record> {
    Filter(master, row => RowMatchesFilters(row, OtherFilters(state, col)))
  }

  /**
   * The order of the value sort and the option sort together: text order,
   * and the empty string before undefined (the default sort puts undefined
   * last and the stable option sort keeps that order among equal texts).
   */
  predicate ValueLe(a: Value, b: Value) {
    StrLe(SortText(a), SortText(b)) && (SortText(a) == SortText(b) && a.Undef? ==> b.Undef?)
  }

  /** The option comparator: selected first, then valid, then by value. */
  predicate ItemLe(a: PickerItem, b: PickerItem) {
    if a.isSelected != b.isSelected then a.isSelected
    else if a.isValid != b.isValid then a.isValid
    else ValueLe(a.value, b.value)
  }

  /** `allPossibleValues.map(val => ({ value, isSelected, isValid }))`. */
  function MakeItems(values: seq<Value>, selected: Value -> bool, valid: seq<Value>): (r: seq<PickerItem>)
    ensures |r| == |values|
    ensures forall i :: 0 <= i < |r| ==> r[i] == PickerItem(values[i], selected(values[i]), values[i] in valid)
  {
    seq(|values|, i requires 0 <= i < |values| => PickerItem(values[i], selected(values[i]), values[i] in valid))
  }

  /** The option list for an open column, for a given selection test. */
  function OptionsWith(master: seq<Record>, state: FilterState, col: string, selected: Value -> bool): seq<PickerItem> {
    var allValues := Dedup(ColumnValues(master, col));
    var validValues := ColumnValues(PartialRows(master, state, col), col);
    Sort(MakeItems(allValues, selected, validValues), ItemLe)
  }

  /** The options as script.js computes them, with `selectedValues.has(val)`. */
  function PickerOptionsAsWritten(master: seq<Record>, state: FilterState, col: string): seq<PickerItem> {
    OptionsWith(master, state, col, v => IsSelectedAsWritten(SelectedValues(state, col), v))
  }

  /** The options with the selection test that agrees with the checkbox values. */
  function PickerOptions(master: seq<Record>, state: FilterState, col: string): seq<PickerItem> {
    OptionsWith(master, state, col, v => IsSelected(SelectedValues(state, col), v))
  }

  lemma ItemLeIsTotalOrder()
    ensures Total(ItemLe) && Transitive(ItemLe)
  {
    forall a, b ensures ItemLe(a, b) || ItemLe(b, a) {
      StrLeTotal(SortText(a.value), SortText(b.value));
      if StrLe(SortText(a.value), SortText(b.value)) && StrLe(SortText(b.value), SortText(a.value)) {
        StrLeAntisymmetric(SortText(a.value), SortText(b.value));
      }
    }
    forall a, b, c | ItemLe(a, b) && ItemLe(b, c) ensures ItemLe(a, c) {
      if a.isSelected == b.isSelected == c.isSelected && a.isValid == b.isValid == c.isValid {
        var x, y, z := SortText(a.value), SortText(b.value), SortText(c.value);
        StrLeTransitive(x, y, z);
        if x == z {
          StrLeAntisymmetric(x, y);
        }
      }
    }
  }

  /** A value is valid for the open column iff some row satisfying the other filters has it. */
  lemma ValidValuesSpec(master: seq<Record>, state: FilterState, col: string, v: Value)
    ensures v in ColumnValues(PartialRows(master, state, col), col)
        <==> exists row :: row in master && RowMatchesFilters(row, OtherFilters(state, col)) && v in CellValues(row.Get(col))
  {
    var p := row => RowMatchesFilters(row, OtherFilters(state, col));
    if v in ColumnValues(PartialRows(master, state, col), col) {
      var row :| row in PartialRows(master, state, col) && v in CellValues(row.Get(col));
      FilterMember(master, p, row);
    }
    if exists row :: row in master && RowMatchesFilters(row, OtherFilters(state, col)) && v in CellValues(row.Get(col)) {
      var row :| row in master && RowMatchesFilters(row, OtherFilters(state, col)) && v in CellValues(row.Get(col));
      FilterMember(master, p, row);
    }
  }

  /** A rearrangement of the made items holds an item iff it is the item made for one of the values. */
  lemma RearrangedItems(items: seq<PickerItem>, values: seq<Value>, selected: Value -> bool, valid: seq<Value>)
    requires multiset(items) == multiset(MakeItems(values, selected, valid))
    ensures forall it :: it in items <==> it.value in values && it == PickerItem(it.value, selected(it.value), it.value in valid)
  {
    var made := MakeItems(values, selected, valid);
    forall it ensures it in items <==> it.value in values && it == PickerItem(it.value, selected(it.value), it.value in valid) {
      assert it in items <==> it in multiset(items);
      assert it in made <==> it in multiset(made);
      if it in made {
        var k :| 0 <= k < |made| && made[k] == it;
        assert values[k] == it.value;
      }
      if it.value in values && it == PickerItem(it.value, selected(it.value), it.value in valid) {
        var k :| 0 <= k < |values| && values[k] == it.value;
        assert made[k] == it;
      }
    }
  }

  /** Items made from distinct values, rearranged, still carry distinct values. */
  lemma RearrangedValuesDistinct(items: seq<PickerItem>, values: seq<Value>, selected: Value -> bool, valid: seq<Value>)
    requires Distinct(values)
    requires multiset(items) == multiset(MakeItems(values, selected, valid))
    ensures forall i, j :: 0 <= i < j < |items| ==> items[i].value != items[j].value
  {
    var made := MakeItems(values, selected, valid);
    assert Distinct(made) by {
      forall a, b | 0 <= a < b < |made| ensures made[a] != made[b] {
        assert values[a] != values[b];
      }
    }
    PermutationDistinct(items, made);
    RearrangedItems(items, values, selected, valid);
    forall i, j | 0 <= i < j < |items| ensures items[i].value != items[j].value {
      assert items[i] in items && items[j] in items;
    }
  }

  /** A rearrangement of the made items carries exactly the given values. */
  lemma RearrangedValues(items: seq<PickerItem>, values: seq<Value>, selected: Value -> bool, valid: seq<Value>, v: Value)
    requires multiset(items) == multiset(MakeItems(values, selected, valid))
    ensures (exists i :: 0 <= i < |items| && items[i].value == v) <==> v in values
  {
    RearrangedItems(items, values, selected, valid);
    if exists i :: 0 <= i < |items| && items[i].value == v {
      var i :| 0 <= i < |items| && items[i].value == v;
      assert items[i] in items;
    }
    if v in values {
      var it := PickerItem(v, selected(v), v in valid);
      assert it in items;
      var i :| 0 <= i < |items| && items[i] == it;
    }
  }

  /** The options carry exactly the values of the column. */
  lemma OptionsValues(master: seq<Record>, state: FilterState, col: string, selected: Value -> bool, v: Value)
    ensures var items := OptionsWith(master, state, col, selected);
      (exists i :: 0 <= i < |items| && items[i].value == v) <==> v in ColumnValues(master, col)
  {
    var column := ColumnValues(master, col);
    var allValues := Dedup(column);
    var validValues := ColumnValues(PartialRows(master, state, col), col);
    var items := Sort(MakeItems(allValues, selected, validValues), ItemLe);
    RearrangedValues(items, allValues, selected, validValues, v);
    assert items == OptionsWith(master, state, col, selected);
    assert v in allValues <==> v in column by {
      if v in allValues {
        var k :| 0 <= k < |allValues| && allValues[k] == v;
      }
      if v in column {
        var k :| 0 <= k < |column| && column[k] == v;
      }
    }
  }

  /** Each option's flags: the selection test, and validity under the other columns' filters. */
  lemma OptionFlags(master: seq<Record>, state: FilterState, col: string, selected: Value -> bool, i: nat)
    requires i < |OptionsWith(master, state, col, selected)|
    ensures var item := OptionsWith(master, state, col, selected)[i];
      && item.isSelected == selected(item.value)
      && (item.isValid <==> exists row :: row in master && RowMatchesFilters(row, OtherFilters(state, col))
                                          && item.value in CellValues(row.Get(col)))
  {
    var allValues := Dedup(ColumnValues(master, col));
    var validValues := ColumnValues(PartialRows(master, state, col), col);
    var items := Sort(MakeItems(allValues, selected, validValues), ItemLe);
    assert items == OptionsWith(master, state, col, selected);
    RearrangedItems(items, allValues, selected, validValues);
    assert items[i] in items;
    ValidValuesSpec(master, state, col, items[i].value);
  }

  /** What every option list satisfies, whichever selection test it uses. */
  lemma OptionsWithSpec(master: seq<Record>, state: FilterState, col: string, selected: Value -> bool)
    ensures var items := OptionsWith(master, state, col, selected);
      && (forall v :: (exists i :: 0 <= i < |items| && items[i].value == v) <==> v in ColumnValues(master, col))
      && (forall i, j :: 0 <= i < j < |items| ==> items[i].value != items[j].value)
      && (forall i :: 0 <= i < |items| ==> items[i].isSelected == selected(items[i].value))
      && (forall i :: 0 <= i < |items| ==>
            (items[i].isValid <==> exists row :: row in master && RowMatchesFilters(row, OtherFilters(state, col))
                                                && items[i].value in CellValues(row.Get(col))))
      && Sorted(items, ItemLe)
  {
    var allValues := Dedup(ColumnValues(master, col));
    var validValues := ColumnValues(PartialRows(master, state, col), col);
    var made := MakeItems(allValues, selected, validValues);
    var items := Sort(made, ItemLe);
    assert items == OptionsWith(master, state, col, selected);
    ItemLeIsTotalOrder();
    SortSorted(made, ItemLe);
    RearrangedValuesDistinct(items, allValues, selected, validValues);
    forall v ensures (exists i :: 0 <= i < |items| && items[i].value == v) <==> v in ColumnValues(master, col) {
      OptionsValues(master, state, col, selected, v);
    }
    forall i | 0 <= i < |items|
      ensures items[i].isSelected == selected(items[i].value)
      ensures items[i].isValid <==> exists row :: row in master && RowMatchesFilters(row, OtherFilters(state, col))
                                                 && items[i].value in CellValues(row.Get(col))
    {
      OptionFlags(master, state, col, selected, i);
    }
  }

  /**
   * The picker lists every value of the column exactly once, whatever the
   * filters: a selected value stays listed (and checked) even when no row
   * satisfying the other filters has it.
   */
  lemma PickerListsEveryValueOnce(master: seq<Record>, state: FilterState, col: string)
    ensures var items := PickerOptions(master, state, col);
      && (forall v :: (exists i :: 0 <= i < |items| && items[i].value == v) <==> v in ColumnValues(master, col))
      && (forall i, j :: 0 <= i < j < |items| ==> items[i].value != items[j].value)
      && (forall v :: v in ColumnValues(master, col) && IsSelected(SelectedValues(state, col), v) ==>
            exists i :: 0 <= i < |items| && items[i].value == v && items[i].isSelected)
  {
    var sel := v => IsSelected(SelectedValues(state, col), v);
    var items := PickerOptions(master, state, col);
    assert items == OptionsWith(master, state, col, sel);
    OptionsWithSpec(master, state, col, sel);
    forall v | v in ColumnValues(master, col) && IsSelected(SelectedValues(state, col), v)
      ensures exists i :: 0 <= i < |items| && items[i].value == v && items[i].isSelected
    {
      var i :| 0 <= i < |items| && items[i].value == v;
      assert items[i].isSelected == sel(v);
    }
  }

  /**
   * An option is selected iff its value is among the column's filter
   * values, and valid iff some row satisfying the other columns' filters
   * (the open column's own filter removed, search text ignored) has it;
   * it is disabled iff it is neither.
   */
  lemma PickerFlags(master: seq<Record>, state: FilterState, col: string, i: nat)
    requires i < |PickerOptions(master, state, col)|
    ensures var item := PickerOptions(master, state, col)[i];
      && (item.isSelected <==> CheckboxValue(item.value) in SelectedValues(state, col))
      && (item.isValid <==> exists row :: row in master && RowMatchesFilters(row, OtherFilters(state, col))
                                         && item.value in CellValues(row.Get(col)))
      && (Disabled(item) <==> CheckboxValue(item.value) !in SelectedValues(state, col)
                              && forall row :: row in master && RowMatchesFilters(row, OtherFilters(state, col))
                                               ==> item.value !in CellValues(row.Get(col)))
  {
    OptionsWithSpec(master, state, col, v => IsSelected(SelectedValues(state, col), v));
  }

  /**
   * The option order: all selected options before the unselected ones,
   * within each group the valid before the invalid, and options with the
   * same flags in text order.
   */
  lemma PickerOrder(master: seq<Record>, state: FilterState, col: string, i: nat, j: nat)
    requires i < j < |PickerOptions(master, state, col)|
    ensures var a, b := PickerOptions(master, state, col)[i], PickerOptions(master, state, col)[j];
      && (b.isSelected ==> a.isSelected)
      && (a.isSelected == b.isSelected && b.isValid ==> a.isValid)
      && (a.isSelected == b.isSelected && a.isValid == b.isValid ==> StrLe(SortText(a.value), SortText(b.value)))
  {
    OptionsWithSpec(master, state, col, v => IsSelected(SelectedValues(state, col), v));
  }

  /**
   * The selection the picker shows agrees with the filter: a cell satisfies
   * a column's filter iff one of its values is shown as selected.
   */
  lemma SelectionAgreesWithFilter(c: Cell, vals: seq<string>)
    ensures CellMatches(c, vals) <==> exists v :: v in CellValues(c) && IsSelected(vals, v)
  {
    match c
    case Missing => {
      if "undefined" in vals {
        assert Undef in CellValues(c) && IsSelected(vals, Undef);
      }
    }
    case Scalar(t) => {
      if t in vals {
        assert Str(t) in CellValues(c) && IsSelected(vals, Str(t));
      }
    }
    case Multi(items) => {
      if CellMatches(c, vals) {
        var s :| s in items && s in vals;
        var k :| 0 <= k < |items| && items[k] == s;
        assert CellValues(c)[k] == Str(s) && IsSelected(vals, Str(s));
      }
      if exists v :: v in CellValues(c) && IsSelected(vals, v) {
        var v :| v in CellValues(c) && IsSelected(vals, v);
        var k :| 0 <= k < |CellValues(c)| && CellValues(c)[k] == v;
        assert CheckboxValue(v) == items[k] && items[k] in items;
      }
    }
  }

  /** As written, the option for rows that lack the column (the value undefined) is never shown as selected. */
  lemma UndefinedNeverSelectedAsWritten(master: seq<Record>, state: FilterState, col: string, i: nat)
    requires i < |PickerOptionsAsWritten(master, state, col)|
    requires PickerOptionsAsWritten(master, state, col)[i].value == Undef
    ensures !PickerOptionsAsWritten(master, state, col)[i].isSelected
  {
    OptionsWithSpec(master, state, col, v => IsSelectedAsWritten(SelectedValues(state, col), v));
  }

  /**
   * A concrete case: two rows, the second without a Status, and the
   * Status filter holding "undefined" (the value of that row's checkbox).
   * The filter shows the second row, yet the option list as written shows
   * the undefined option unchecked; the corrected list shows it checked.
   */
  lemma UndefinedOptionExample()
    ensures var master, state := [ExampleRowA, ExampleRowB], ExampleState;
      && FilteredRows(master, state, ["Name", "Status"], "") == [ExampleRowB]
      && (exists i :: 0 <= i < |PickerOptionsAsWritten(master, state, "Status")|
            && PickerOptionsAsWritten(master, state, "Status")[i].value == Undef
            && !PickerOptionsAsWritten(master, state, "Status")[i].isSelected)
      && (exists i :: 0 <= i < |PickerOptions(master, state, "Status")|
            && PickerOptions(master, state, "Status")[i].value == Undef
            && PickerOptions(master, state, "Status")[i].isSelected)
  {
    ExampleShown();
    ExampleAsWritten();
    ExampleCorrected();
  }

  /** The example rows: one with a Status, one without. */
  const ExampleRowA: Record := Record(["Name", "Status"], map["Name" := Scalar("a"), "Status" := Scalar("x")])
  const ExampleRowB: Record := Record(["Name"], map["Name" := Scalar("b")])
  /** The Status filter holding the checkbox value of a missing Status. */
  const ExampleState: FilterState := map["Status" := ["undefined"]]

  lemma ExampleShown()
    ensures FilteredRows([ExampleRowA, ExampleRowB], ExampleState, ["Name", "Status"], "") == [ExampleRowB]
  {
    var a, b, state, columns := ExampleRowA, ExampleRowB, ExampleState, ["Name", "Status"];
    assert !RowShown(a, state, columns, "") by {
      assert a.Get("Status") == Scalar("x");
      assert "x" != "undefined";
    }
    assert RowShown(b, state, columns, "") by {
      assert b.Get("Status") == Missing;
    }
    var shown := row => RowShown(row, state, columns, "");
    FilterCons(a, [b], shown);
    FilterCons(b, [], shown);
    assert [a, b] == [a] + [b] && [b] == [b] + [];
  }

  lemma ExampleUndefListed()
    ensures Undef in ColumnValues([ExampleRowA, ExampleRowB], "Status")
  {
    assert Undef in CellValues(ExampleRowB.Get("Status"));
  }

  lemma ExampleAsWritten()
    ensures var master, state := [ExampleRowA, ExampleRowB], ExampleState;
      exists i :: 0 <= i < |PickerOptionsAsWritten(master, state, "Status")|
        && PickerOptionsAsWritten(master, state, "Status")[i].value == Undef
        && !PickerOptionsAsWritten(master, state, "Status")[i].isSelected
  {
    var master, state := [ExampleRowA, ExampleRowB], ExampleState;
    ExampleUndefListed();
    OptionsValues(master, state, "Status", v => IsSelectedAsWritten(SelectedValues(state, "Status"), v), Undef);
    var i :| 0 <= i < |PickerOptionsAsWritten(master, state, "Status")|
          && PickerOptionsAsWritten(master, state, "Status")[i].value == Undef;
    UndefinedNeverSelectedAsWritten(master, state, "Status", i);
  }

  lemma ExampleCorrected()
    ensures var master, state := [ExampleRowA, ExampleRowB], ExampleState;
      exists i :: 0 <= i < |PickerOptions(master, state, "Status")|
        && PickerOptions(master, state, "Status")[i].value == Undef
        && PickerOptions(master, state, "Status")[i].isSelected
  {
    var master, state := [ExampleRowA, ExampleRowB], ExampleState;
    ExampleUndefListed();
    OptionsValues(master, state, "Status", v => IsSelected(SelectedValues(state, "Status"), v), Undef);
    var j :| 0 <= j < |PickerOptions(master, state, "Status")| && PickerOptions(master, state, "Status")[j].value == Undef;
    PickerFlags(master, state, "Status", j);
  }
}
