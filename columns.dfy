/**
 * Column logic of the table page (script.js): the primary-first ordering
 * of column names, the visible columns of a view, and the column toggle.
 */
module Columns {
  import opened SeqUtil

  /** The columns that always come first, in this order. */
  const Primaries: seq<string> := ["Name", "Category", "Project", "License", "Status", "Description"]

  /** `defaultColumns`: the columns the default view shows. */
  const DefaultColumns: seq<string> := ["Name", "Category", "Project", "URL", "License", "Status", "Description"]

  predicate IsPrimary(c: string) {
    c in Primaries
  }

  /** `reorderPrimaryFirst`: the primaries that occur, in their fixed order, then the other names in their order. */
  function ReorderPrimaryFirst(arr: seq<string>): seq<string> {
    PriorityFirst(Primaries, arr)
  }

  /** The elements of prio that occur in arr, in prio's order, then the rest of arr in its order. */
  function PriorityFirst<T(==)>(prio: seq<T>, arr: seq<T>): seq<T> {
    Filter(prio, p => p in arr) + Filter(arr, c => c !in prio)
  }

  lemma PrimariesDistinct()
    ensures Distinct(Primaries)
  {
  }

  /** The number of primary names among the columns. */
  function PrimaryCount(arr: seq<string>): nat {
    |Filter(Primaries, p => p in arr)|
  }

  lemma {:induction false} PriorityFirstShape<T>(prio: seq<T>, arr: seq<T>)
    ensures var r, k := PriorityFirst(prio, arr), |Filter(prio, p => p in arr)|;
      && k <= |r|
      && (forall i :: 0 <= i < k ==> r[i] in prio && r[i] in arr)
      && (forall i :: k <= i < |r| ==> r[i] !in prio)
      && Subseq(r[..k], prio)
      && Subseq(r[k..], arr)
  {
    var head := Filter(prio, p => p in arr);
    var tail := Filter(arr, c => c !in prio);
    var r := head + tail;
    assert r[..|head|] == head && r[|head|..] == tail;
    FilterSubseq(prio, p => p in arr);
    FilterSubseq(arr, c => c !in prio);
  }

  /**
   * The present primaries come first, as a subsequence of the fixed
   * order, and every other name follows, in the order it had.
   */
  lemma ReorderShape(arr: seq<string>)
    ensures var r, k := ReorderPrimaryFirst(arr), PrimaryCount(arr);
      && k <= |r|
      && (forall i :: 0 <= i < k ==> IsPrimary(r[i]) && r[i] in arr)
      && (forall i :: k <= i < |r| ==> !IsPrimary(r[i]))
      && Subseq(r[..k], Primaries)
      && Subseq(r[k..], arr)
  {
    PriorityFirstShape(Primaries, arr);
  }

  lemma PriorityFirstPermutation<T>(prio: seq<T>, arr: seq<T>)
    requires Distinct(prio) && Distinct(arr)
    ensures multiset(PriorityFirst(prio, arr)) == multiset(arr)
  {
    DistinctMultiset(prio);
    DistinctMultiset(arr);
    PriorityFirstCounts(prio, arr);
  }

  /** With no element repeated, each element occurs as often in the reordered list as in arr. */
  lemma PriorityFirstCounts<T>(prio: seq<T>, arr: seq<T>)
    requires forall x :: multiset(prio)[x] <= 1
    requires forall x :: multiset(arr)[x] <= 1
    ensures multiset(PriorityFirst(prio, arr)) == multiset(arr)
  {
    var head := Filter(prio, p => p in arr);
    var tail := Filter(arr, c => c !in prio);
    forall x ensures multiset(head + tail)[x] == multiset(arr)[x] {
      PriorityFirstCount(prio, arr, x);
      assert multiset(head + tail) == multiset(head) + multiset(tail);
    }
    MultisetFromCounts(multiset(head + tail), multiset(arr));
  }

  lemma MultisetFromCounts<T>(a: multiset<T>, b: multiset<T>)
    requires forall x :: a[x] == b[x]
    ensures a == b
  {
  }

  /** The count of one element in the reordered list of distinct elements. */
  lemma PriorityFirstCount<T>(prio: seq<T>, arr: seq<T>, x: T)
    requires multiset(prio)[x] <= 1 && multiset(arr)[x] <= 1
    ensures multiset(Filter(prio, p => p in arr))[x] + multiset(Filter(arr, c => c !in prio))[x] == multiset(arr)[x]
  {
    FilterMultiset(prio, p => p in arr, x);
    FilterMultiset(arr, c => c !in prio, x);
    if x in prio {
      assert multiset(prio)[x] == 1;
      assert x in arr <==> multiset(arr)[x] == 1;
    }
  }

  /** Reordering a list of distinct names rearranges it: nothing is lost, added or repeated. */
  lemma ReorderPermutation(arr: seq<string>)
    requires Distinct(arr)
    ensures multiset(ReorderPrimaryFirst(arr)) == multiset(arr)
    ensures Distinct(ReorderPrimaryFirst(arr))
  {
    PrimariesDistinct();
    PriorityFirstPermutation(Primaries, arr);
    PermutationDistinct(ReorderPrimaryFirst(arr), arr);
  }

  lemma PriorityFirstIdempotent<T>(prio: seq<T>, arr: seq<T>)
    ensures PriorityFirst(prio, PriorityFirst(prio, arr)) == PriorityFirst(prio, arr)
  {
    var head := Filter(prio, p => p in arr);
    var tail := Filter(arr, c => c !in prio);
    PresentPrioritiesAgain(prio, arr);
    OthersAgain(prio, arr);
    assert PriorityFirst(prio, head + tail) == head + tail;
  }

  /** The reordered list holds the same elements of prio as arr. */
  lemma PresentPrioritiesAgain<T>(prio: seq<T>, arr: seq<T>)
    ensures Filter(prio, p => p in PriorityFirst(prio, arr)) == Filter(prio, p => p in arr)
  {
    var r := PriorityFirst(prio, arr);
    forall x | x in prio ensures (x in r) == (x in arr) {
      FilterMember(prio, p => p in arr, x);
      FilterMember(arr, c => c !in prio, x);
    }
    FilterCongruent(prio, p => p in r, p => p in arr);
  }

  /** The elements outside prio of the reordered list are those of arr, in order. */
  lemma OthersAgain<T>(prio: seq<T>, arr: seq<T>)
    ensures Filter(PriorityFirst(prio, arr), c => c !in prio) == Filter(arr, c => c !in prio)
  {
    var other := c => c !in prio;
    var head := Filter(prio, p => p in arr);
    var tail := Filter(arr, other);
    FilterConcat(head, tail, other);
    FilterNone(head, other);
    FilterFilter(arr, other, other);
    FilterCongruent(arr, x => other(x) && other(x), other);
    assert Filter(head + tail, other) == tail;
  }

  /** Reordering an already reordered list changes nothing. */
  lemma ReorderIdempotent(arr: seq<string>)
    ensures ReorderPrimaryFirst(ReorderPrimaryFirst(arr)) == ReorderPrimaryFirst(arr)
  {
    PriorityFirstIdempotent(Primaries, arr);
  }

  /**
   * `deriveColumns`: the six primaries that occur among the first
   * record's keys, then the other keys in their order.
   */
  method DeriveOrder(raw: seq<string>) returns (ordered: seq<string>)
    ensures ordered == ReorderPrimaryFirst(raw)
  {
    var head := PresentPrimaries(raw);
    ordered := PushOthers(head, raw, Primaries);
  }

  /** The `forEach` of deriveColumns: every element of raw outside prio pushed onto ordered, in order. */
  method PushOthers<T(==)>(ordered0: seq<T>, raw: seq<T>, prio: seq<T>) returns (ordered: seq<T>)
    ensures ordered == ordered0 + Filter(raw, c => c !in prio)
  {
    ordered := ordered0;
    var i := 0;
    while i < |raw|
      invariant 0 <= i <= |raw|
      invariant ordered == ordered0 + Filter(raw[..i], c => c !in prio)
    {
      var c := raw[i];
      FilterSnoc(raw, i, c => c !in prio);
      if c !in prio {
        ordered := ordered + [c];
      }
      i := i + 1;
    }
    assert raw[..i] == raw;
  }

  /** The six tests at the start of deriveColumns, one per primary in the fixed order: the primaries that occur. */
  method PresentPrimaries(raw: seq<string>) returns (ordered: seq<string>)
    ensures ordered == Filter(Primaries, p => p in raw)
  {
    ordered := [];
    for k := 0 to |Primaries|
      invariant ordered == Filter(Primaries[..k], p => p in raw)
    {
      PresentPrimaryStep(raw, k);
      if Primaries[k] in raw {
        ordered := ordered + [Primaries[k]];
      }
    }
    assert Primaries[..|Primaries|] == Primaries;
  }

  /** The present primaries among the first k + 1 are those among the first k, then the next one if present. */
  lemma PresentPrimaryStep(raw: seq<string>, k: nat)
    requires k < |Primaries|
    ensures Filter(Primaries[..k + 1], p => p in raw)
         == Filter(Primaries[..k], p => p in raw) + (if Primaries[k] in raw then [Primaries[k]] else [])
  {
    assert Primaries[..k + 1] == Primaries[..k] + [Primaries[k]];
    FilterConcat(Primaries[..k], [Primaries[k]], p => p in raw);
  }

  datatype ViewMode = DefaultView | AllColumns

  /** `updateVisibleColumns`: the columns of the view, without URL when Name and URL are both columns. */
  function VisibleColumnsFor(columns: seq<string>, mode: ViewMode): seq<string> {
    var base := if mode == DefaultView then Filter(columns, c => c in DefaultColumns) else columns;
    if "Name" in columns && "URL" in columns then Filter(base, c => c != "URL") else base
  }

  /** The visible columns keep the order of the columns. */
  lemma VisibleColumnsOrder(columns: seq<string>, mode: ViewMode)
    ensures Subseq(VisibleColumnsFor(columns, mode), columns)
  {
    var inDefault := c => c in DefaultColumns;
    var notUrl := c => c != "URL";
    var both := "Name" in columns && "URL" in columns;
    if mode == DefaultView {
      if both {
        FilterFilterSubseq(columns, inDefault, notUrl);
      } else {
        FilterSubseq(columns, inDefault);
      }
    } else if both {
      FilterSubseq(columns, notUrl);
    } else {
      SubseqReflexive(columns);
    }
  }

  /**
   * A column is visible iff the view shows it: in default mode only the
   * default ones, and never URL when Name and URL are both columns.
   */
  lemma VisibleColumnsMember(columns: seq<string>, mode: ViewMode, c: string)
    ensures c in VisibleColumnsFor(columns, mode)
        <==> c in columns && (mode == DefaultView ==> c in DefaultColumns) && !(c == "URL" && "Name" in columns)
  {
    var inDefault := c => c in DefaultColumns;
    var notUrl := c => c != "URL";
    var both := "Name" in columns && "URL" in columns;
    if mode == DefaultView {
      FilterMember(columns, inDefault, c);
      if both {
        FilterMember(Filter(columns, inDefault), notUrl, c);
      }
    } else if both {
      FilterMember(columns, notUrl, c);
    }
  }

  /** In all-columns mode, with Name or URL absent, every column is visible. */
  lemma AllColumnsShowsEverything(columns: seq<string>)
    requires !("Name" in columns && "URL" in columns)
    ensures VisibleColumnsFor(columns, AllColumns) == columns
  {
  }

  /** The column-toggle handler: a checked column is appended if absent, an unchecked one removed. */
  function ToggleColumn(visible: seq<string>, col: string, checked: bool): seq<string> {
    if checked then (if col in visible then visible else visible + [col])
    else Filter(visible, c => c != col)
  }

  /** After the toggle the column is visible iff its box is checked; the other columns stay as they were. */
  lemma ToggleColumnSpec(visible: seq<string>, col: string, checked: bool)
    ensures var r := ToggleColumn(visible, col, checked);
      && (col in r <==> checked)
      && (forall c :: c != col ==> (c in r <==> c in visible))
      && (Distinct(visible) ==> Distinct(r))
      && Subseq(Filter(visible, c => c != col), r)
  {
    var notCol := c => c != col;
    var r := ToggleColumn(visible, col, checked);
    forall c ensures c in Filter(visible, notCol) <==> c in visible && c != col {
      FilterMember(visible, notCol, c);
    }
    if checked {
      if col !in visible {
        assert Distinct(visible) ==> Distinct(r) by {
          if Distinct(visible) {
            forall i, j | 0 <= i < j < |r| ensures r[i] != r[j] {
              if j == |visible| {
                assert r[i] == visible[i];
              }
            }
          }
        }
        FilterSubseq(visible, notCol);
        SubseqAppend(Filter(visible, notCol), visible, [col]);
      } else {
        FilterSubseq(visible, notCol);
      }
    } else {
      FilterSubseq(visible, notCol);
      if Distinct(visible) {
        SubseqDistinct(r, visible);
      }
      SubseqReflexive(r);
    }
  }

  /** Checking a column that was not visible and unchecking it again restores the visible list. */
  lemma ToggleOnOff(visible: seq<string>, col: string)
    requires col !in visible
    ensures ToggleColumn(ToggleColumn(visible, col, true), col, false) == visible
  {
    var notCol := c => c != col;
    FilterConcat(visible, [col], notCol);
    FilterAll(visible, notCol);
  }
}
