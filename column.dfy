/** One wheel of the picker (js/time-picker.js, createColumn, adjustSelection
    and snapToClosestItem): a list of items, each with an optional value, a
    label and a `selected` flag, plus the column's scroll offset. The DOM
    element becomes a sequence of items; layout measurements (`offsetTop`,
    `offsetHeight`) are passed in as a `Layout`. */
module Columns {
  import opened Wrappers
  import opened Formats

  /** Empty items before and after the values, so that the first and the
      last value can scroll to the middle of the column. */
  const LEADING_PADDING := 3
  const TRAILING_PADDING := 4

  /** A `.time-picker-column-item`: its `data-value` (padding items have
      none) and whether it carries the `selected` class. Its text is not
      stored: it is `ItemText` of the column's unit and the value, which is
      what `createColumn` writes and nothing rewrites. */
  datatype Item = Item(value: Option<int>, selected: bool)

  const PADDING_ITEM := Item(None, false)

  /** The `textContent` of an item in a column of unit `kind`: empty for
      padding, `formatColumnValue` of the value otherwise. */
  function ItemText(kind: Kind, item: Item): string {
    if item.value.Some? then FormatColumnValue(kind, item.value.value) else ""
  }

  /** How many values `for (let i = start; i <= end; i++)` visits. */
  function Count(first: int, last: int): (n: nat)
    ensures n == 0 <==> first > last
    ensures first <= last ==> first + n - 1 == last
  {
    if first <= last then last - first + 1 else 0
  }

  /** The item for value `v`; it is selected when `v === selectedValue`. */
  function Entry(kind: Kind, v: int, selectedValue: Option<int>): Item {
    Item(Some(v), selectedValue == Some(v))
  }

  /** `n` padding items. */
  function Padding(n: nat): (s: seq<Item>)
    ensures |s| == n && forall i :: 0 <= i < n ==> s[i] == PADDING_ITEM
  {
    if n == 0 then [] else Padding(n - 1) + [PADDING_ITEM]
  }

  /** The items for the `n` values from `first` on, in order. */
  function Entries(kind: Kind, first: int, n: nat, selectedValue: Option<int>): (s: seq<Item>)
    ensures |s| == n
  {
    if n == 0 then [] else Entries(kind, first, n - 1, selectedValue) + [Entry(kind, first + n - 1, selectedValue)]
  }

  /** Entry `j` is the item for value `first + j`. */
  lemma {:induction false} EntriesAt(kind: Kind, first: int, n: nat, selectedValue: Option<int>, j: nat)
    requires j < n
    ensures Entries(kind, first, n, selectedValue)[j] == Entry(kind, first + j, selectedValue)
  {
    if j < n - 1 {
      EntriesAt(kind, first, n - 1, selectedValue, j);
    }
  }

  /** The items `createColumn(kind, first, last, selectedValue)` builds. An
      unreadable selected value (`NaN`) is `None` and selects nothing. */
  function ColumnItems(kind: Kind, first: int, last: int, selectedValue: Option<int>): (items: seq<Item>)
    ensures |items| == LEADING_PADDING + Count(first, last) + TRAILING_PADDING
  {
    Padding(LEADING_PADDING) + Entries(kind, first, Count(first, last), selectedValue) + Padding(TRAILING_PADDING)
  }

  /** Item `i` of a fresh column: padding before `LEADING_PADDING` and after
      the values, otherwise the entry for value `first + i - LEADING_PADDING`. */
  lemma ColumnItemAt(kind: Kind, first: int, last: int, selectedValue: Option<int>, i: nat)
    requires i < LEADING_PADDING + Count(first, last) + TRAILING_PADDING
    ensures ColumnItems(kind, first, last, selectedValue)[i] ==
      if LEADING_PADDING <= i < LEADING_PADDING + Count(first, last)
      then Entry(kind, first + i - LEADING_PADDING, selectedValue)
      else PADDING_ITEM
  {
    var n := Count(first, last);
    var entries := Entries(kind, first, n, selectedValue);
    ConcatAt(Padding(LEADING_PADDING), entries, Padding(TRAILING_PADDING), i);
    if LEADING_PADDING <= i < LEADING_PADDING + n {
      EntriesAt(kind, first, n, selectedValue, i - LEADING_PADDING);
    }
  }

  /** Indexing into three sequences laid end to end. */
  lemma ConcatAt<T>(a: seq<T>, b: seq<T>, c: seq<T>, i: nat)
    requires i < |a| + |b| + |c|
    ensures (a + b + c)[i] == if i < |a| then a[i] else if i < |a| + |b| then b[i - |a|] else c[i - |a| - |b|]
  {
  }

  /** The shape `createColumn` promises: padding at both ends, the values
      `first..last` in ascending order between, and the item for the selected
      value (and only it) marked, when that value is in range. */
  lemma ColumnShape(kind: Kind, first: int, last: int, selectedValue: Option<int>)
    ensures var items := ColumnItems(kind, first, last, selectedValue);
      && (forall i :: 0 <= i < |items| ==>
            (items[i].value.None? <==> i < LEADING_PADDING || i >= LEADING_PADDING + Count(first, last)))
      && (forall i :: 0 <= i < |items| && items[i].value.None? ==> items[i] == PADDING_ITEM)
      && (forall i :: LEADING_PADDING <= i < LEADING_PADDING + Count(first, last) ==>
            items[i].value == Some(first + i - LEADING_PADDING) &&
            ItemText(kind, items[i]) == FormatColumnValue(kind, first + i - LEADING_PADDING))
      && (forall i :: 0 <= i < |items| ==>
            (items[i].selected <==>
              selectedValue.Some? && first <= selectedValue.value <= last &&
              i == LEADING_PADDING + selectedValue.value - first))
  {
    var items := ColumnItems(kind, first, last, selectedValue);
    var n := Count(first, last);
    forall i | 0 <= i < |items|
      ensures items[i].value.None? <==> i < LEADING_PADDING || i >= LEADING_PADDING + n
      ensures items[i].value.None? ==> items[i] == PADDING_ITEM
      ensures LEADING_PADDING <= i < LEADING_PADDING + n ==>
        items[i].value == Some(first + i - LEADING_PADDING)
      ensures items[i].selected <==>
        selectedValue.Some? && first <= selectedValue.value <= last &&
        i == LEADING_PADDING + selectedValue.value - first
    {
      ColumnItemAt(kind, first, last, selectedValue, i);
    }
  }

  lemma AppendAssoc<T>(a: seq<T>, b: seq<T>, x: T)
    ensures (a + b) + [x] == a + (b + [x])
  {
  }

  /** One more value appended to the leading padding and the entries so far
      gives the entries up to that value. */
  lemma EntriesStep(kind: Kind, first: int, v: int, selectedValue: Option<int>, built: seq<Item>)
    requires first <= v
    requires built == Padding(LEADING_PADDING) + Entries(kind, first, v - first, selectedValue)
    ensures built + [Entry(kind, v, selectedValue)] == Padding(LEADING_PADDING) + Entries(kind, first, v + 1 - first, selectedValue)
  {
    var entries := Entries(kind, first, v - first, selectedValue);
    assert Entries(kind, first, v + 1 - first, selectedValue) == entries + [Entry(kind, v, selectedValue)];
    AppendAssoc(Padding(LEADING_PADDING), entries, Entry(kind, v, selectedValue));
  }

  lemma PaddingStep(body: seq<Item>, i: nat)
    ensures (body + Padding(i)) + [PADDING_ITEM] == body + Padding(i + 1)
  {
    AppendAssoc(body, Padding(i), PADDING_ITEM);
  }

  /** What every column keeps: only valued items are selected, and at most
      one item is. */
  predicate WellMarked(items: seq<Item>) {
    && (forall i :: 0 <= i < |items| && items[i].selected ==> items[i].value.Some?)
    && (forall i, j :: 0 <= i < j < |items| && items[i].selected ==> !items[j].selected)
  }

  predicate HasValue(items: seq<Item>) {
    exists i :: 0 <= i < |items| && items[i].value.Some?
  }

  predicate NoneSelectedBefore(items: seq<Item>, i: nat)
    requires i <= |items|
  {
    forall j :: 0 <= j < i ==> !items[j].selected
  }

  /** `parseInt(column.querySelector('.selected').dataset.value)`: the value of
      the first selected item; `None` when no item is selected. */
  function SelectedValue(items: seq<Item>): Option<int> {
    if items == [] then None
    else if items[0].selected then items[0].value
    else SelectedValue(items[1..])
  }

  /** `SelectedValue` reads the first selected item, and nothing when no item
      is selected. */
  lemma {:induction false} SelectedValueReads(items: seq<Item>)
    ensures (forall i :: 0 <= i < |items| ==> !items[i].selected) ==> SelectedValue(items) == None
    ensures forall i :: 0 <= i < |items| && items[i].selected && NoneSelectedBefore(items, i) ==>
      SelectedValue(items) == items[i].value
  {
    if items != [] && !items[0].selected {
      SelectedValueReads(items[1..]);
      assert forall i :: 1 <= i < |items| ==> items[i] == items[1..][i - 1];
    }
  }

  /** The `data-value` of the last item that has one, 0 when none has:
      `updateDayColumn`'s `currentMaxDay`. */
  function LastValue(items: seq<Item>): (v: int)
    ensures (forall i :: 0 <= i < |items| ==> items[i].value.None?) ==> v == 0
  {
    if items == [] then 0
    else if items[|items| - 1].value.Some? then items[|items| - 1].value.value
    else LastValue(items[..|items| - 1])
  }

  /** When some item has a value, `LastValue` is the value of the last such
      item: item `k` holds it and every item after `k` is without a value. */
  lemma {:induction false} LastValued(items: seq<Item>) returns (k: nat)
    requires exists i :: 0 <= i < |items| && items[i].value.Some?
    ensures k < |items| && items[k].value == Some(LastValue(items))
    ensures forall j :: k < j < |items| ==> items[j].value.None?
  {
    var n := |items|;
    if items[n - 1].value.Some? {
      k := n - 1;
    } else {
      var front := items[..n - 1];
      var i :| 0 <= i < n && items[i].value.Some?;
      assert front[i] == items[i];
      k := LastValued(front);
      assert forall j :: k < j < n - 1 ==> items[j] == front[j];
    }
  }

  /** `LastValue` looks only at the values, not at the selection flags. */
  lemma {:induction false} LastValueOfSameValues(a: seq<Item>, b: seq<Item>)
    requires |a| == |b| && forall i :: 0 <= i < |a| ==> a[i].value == b[i].value
    ensures LastValue(a) == LastValue(b)
  {
    if a != [] {
      var n := |a|;
      assert forall i :: 0 <= i < n - 1 ==> a[..n - 1][i] == a[i] && b[..n - 1][i] == b[i];
      LastValueOfSameValues(a[..n - 1], b[..n - 1]);
    }
  }

  /** Moving the selection does not change the last value `updateDayColumn`
      reads. */
  lemma LastValueAfterSelect(items: seq<Item>, k: nat)
    ensures LastValue(SelectOnly(items, k)) == LastValue(items)
  {
    LastValueOfSameValues(SelectOnly(items, k), items);
  }

  /** A fresh column is well marked. */
  lemma CreatedWellMarked(kind: Kind, first: int, last: int, selectedValue: Option<int>)
    ensures WellMarked(ColumnItems(kind, first, last, selectedValue))
  {
    ColumnShape(kind, first, last, selectedValue);
  }

  /** Reading a fresh column's selection gives the selected value exactly
      when that value lies in the column's range. */
  lemma CreatedSelection(kind: Kind, first: int, last: int, selectedValue: Option<int>)
    ensures SelectedValue(ColumnItems(kind, first, last, selectedValue)) ==
      if selectedValue.Some? && first <= selectedValue.value <= last then selectedValue else None
  {
    var items := ColumnItems(kind, first, last, selectedValue);
    ColumnShape(kind, first, last, selectedValue);
    SelectedValueReads(items);
    if selectedValue.Some? && first <= selectedValue.value <= last {
      var k := LEADING_PADDING + selectedValue.value - first;
      assert items[k].selected && NoneSelectedBefore(items, k);
    }
  }

  /** The last value of a fresh column is its range's end, or 0 when the
      range is empty. */
  lemma {:induction false} CreatedLastValue(kind: Kind, first: int, last: int, selectedValue: Option<int>)
    ensures LastValue(ColumnItems(kind, first, last, selectedValue)) == if first <= last then last else 0
  {
    var items := ColumnItems(kind, first, last, selectedValue);
    var n := Count(first, last);
    var valued := items[..LEADING_PADDING + n];
    assert LastValue(items) == LastValue(valued) by {
      TrailingPaddingSkipped(valued, TRAILING_PADDING);
      assert items == valued + Padding(TRAILING_PADDING);
    }
    if n == 0 {
      assert forall i :: 0 <= i < |valued| ==> valued[i].value.None?;
    }
  }

  lemma {:induction false} TrailingPaddingSkipped(items: seq<Item>, n: nat)
    ensures LastValue(items + Padding(n)) == LastValue(items)
  {
    if n > 0 {
      var longer := items + Padding(n);
      assert longer == (items + Padding(n - 1)) + [PADDING_ITEM];
      assert longer[..|longer| - 1] == items + Padding(n - 1);
      TrailingPaddingSkipped(items, n - 1);
    } else {
      assert items + Padding(n) == items;
    }
  }

  // ---------------------------------------------------------------------
  // Choosing the item nearest the middle

  /** Where the items sit: each item's `offsetTop`, the height of the first
      item and the column's `offsetHeight`. */
  datatype Layout = Layout(tops: seq<real>, itemHeight: real, containerHeight: real)

  function Abs(x: real): real {
    if x < 0.0 then -x else x
  }

  /** `Math.abs(itemCenter - middlePosition)` for item `k`. */
  function Distance(layout: Layout, k: nat, middle: real): real
    requires k < |layout.tops|
  {
    Abs(layout.tops[k] + layout.itemHeight / 2.0 - middle)
  }

  /** `scrollTop + containerHeight / 2`. */
  function Middle(layout: Layout, scrollTop: real): real {
    scrollTop + layout.containerHeight / 2.0
  }

  /** Item `k` is the one the search settles on: it has a value, no valued
      item is nearer, and every valued item before it is strictly farther
      (the search replaces its candidate only on a strict `<`). */
  predicate IsClosest(items: seq<Item>, layout: Layout, middle: real, k: nat)
    requires |layout.tops| == |items|
  {
    && k < |items| && items[k].value.Some?
    && (forall j :: 0 <= j < |items| && items[j].value.Some? ==>
          Distance(layout, k, middle) <= Distance(layout, j, middle))
    && (forall j :: 0 <= j < k && items[j].value.Some? ==>
          Distance(layout, k, middle) < Distance(layout, j, middle))
  }

  /** There is never more than one closest item. */
  lemma ClosestUnique(items: seq<Item>, layout: Layout, middle: real, k1: nat, k2: nat)
    requires |layout.tops| == |items|
    requires IsClosest(items, layout, middle, k1) && IsClosest(items, layout, middle, k2)
    ensures k1 == k2
  {
  }

  /** The `items.forEach` search of `adjustSelection` and
      `snapToClosestItem`: padding is skipped, `minDistance` starts at
      `Infinity` (no candidate yet). */
  method FindClosest(items: seq<Item>, layout: Layout, middle: real) returns (closest: Option<nat>)
    requires |layout.tops| == |items|
    ensures closest.None? <==> !HasValue(items)
    ensures closest.Some? ==> IsClosest(items, layout, middle, closest.value)
  {
    closest := None;
    var minDistance := 0.0;
    for k := 0 to |items|
      invariant closest.None? <==> forall j :: 0 <= j < k ==> items[j].value.None?
      invariant closest.Some? ==> closest.value < k && items[closest.value].value.Some?
      invariant closest.Some? ==> minDistance == Distance(layout, closest.value, middle)
      invariant closest.Some? ==> forall j :: 0 <= j < k && items[j].value.Some? ==>
        minDistance <= Distance(layout, j, middle)
      invariant closest.Some? ==> forall j :: 0 <= j < closest.value && items[j].value.Some? ==>
        minDistance < Distance(layout, j, middle)
    {
      if items[k].value.Some? {
        var distance := Distance(layout, k, middle);
        if closest.None? || distance < minDistance {
          minDistance := distance;
          closest := Some(k);
        }
      }
    }
  }

  /** The flags after the update loop: item `k` selected, all others not. */
  function SelectOnly(items: seq<Item>, k: nat): (r: seq<Item>)
    ensures |r| == |items|
    ensures forall i :: 0 <= i < |r| ==>
      r[i].value == items[i].value && (r[i].selected <==> i == k)
  {
    seq(|items|, i requires 0 <= i < |items| => items[i].(selected := i == k))
  }

  /** Selecting a valued item leaves a well-marked column whose selection
      reads as that item's value. */
  lemma SelectOnlyReads(items: seq<Item>, k: nat)
    requires k < |items| && items[k].value.Some?
    ensures WellMarked(SelectOnly(items, k))
    ensures SelectedValue(SelectOnly(items, k)) == items[k].value
  {
    var r := SelectOnly(items, k);
    assert r[k].selected;
    SelectedValueReads(r);
  }

  /** `closestItem.offsetTop - (containerHeight - itemHeight) / 2`: the
      scroll offset that brings item `k`'s centre to the column's middle. */
  function SnapTarget(layout: Layout, k: nat): (top: real)
    requires k < |layout.tops|
    ensures Middle(layout, top) == layout.tops[k] + layout.itemHeight / 2.0
  {
    layout.tops[k] - (layout.containerHeight - layout.itemHeight) / 2.0
  }

  predicate Ascending(tops: seq<real>) {
    forall i, j :: 0 <= i < j < |tops| ==> tops[i] < tops[j]
  }

  /** Once the column has snapped to an item, that item is the closest one
      at the new offset, so a later search picks it again. */
  lemma SnapIsStable(items: seq<Item>, layout: Layout, k: nat)
    requires |layout.tops| == |items| && Ascending(layout.tops)
    requires k < |items| && items[k].value.Some?
    ensures IsClosest(items, layout, Middle(layout, SnapTarget(layout, k)), k)
  {
    var middle := Middle(layout, SnapTarget(layout, k));
    assert Distance(layout, k, middle) == 0.0;
    forall j | 0 <= j < k && items[j].value.Some?
      ensures Distance(layout, k, middle) < Distance(layout, j, middle)
    {
      assert layout.tops[j] < layout.tops[k];
    }
  }

  /** The three loops of `createColumn`: three padding items, one item per
      value from `first` to `last`, four padding items. */
  method CreateItems(kind: Kind, first: int, last: int, selectedValue: Option<int>) returns (built: seq<Item>)
    ensures built == ColumnItems(kind, first, last, selectedValue)
  {
    built := [];
    for i := 0 to LEADING_PADDING
      invariant built == Padding(i)
    {
      built := built + [PADDING_ITEM];
    }
    var v := first;
    while v <= last
      invariant first <= last ==> first <= v <= last + 1
      invariant first > last ==> v == first
      invariant built == Padding(LEADING_PADDING) + Entries(kind, first, v - first, selectedValue)
      decreases last - v
    {
      EntriesStep(kind, first, v, selectedValue, built);
      built := built + [Entry(kind, v, selectedValue)];
      v := v + 1;
    }
    var body := built;
    assert v - first == Count(first, last);
    for i := 0 to TRAILING_PADDING
      invariant built == body + Padding(i)
    {
      PaddingStep(body, i);
      built := built + [PADDING_ITEM];
    }
  }

  // ---------------------------------------------------------------------
  // The column object

  class Column {
    /** `data-type`. */
    const kind: Kind
    var items: seq<Item>
    var scrollTop: real

    predicate Valid()
      reads this
    {
      WellMarked(items)
    }

    /** The value of the selected item, as `confirmSelection` and
        `updateDayColumn` read it. */
    function Selected(): (v: Option<int>)
      reads this
      requires Valid()
      ensures v.Some? <==> exists i :: 0 <= i < |items| && items[i].selected
      ensures forall i :: 0 <= i < |items| && items[i].selected ==> v == items[i].value
    {
      SelectedValueReads(items);
      SelectedValue(items)
    }

    /** `createColumn`: the items `CreateItems` builds, and a column that
        starts unscrolled. */
    constructor (kind: Kind, first: int, last: int, selectedValue: Option<int>)
      ensures this.kind == kind && items == ColumnItems(kind, first, last, selectedValue)
      ensures scrollTop == 0.0
      ensures Valid()
    {
      this.kind := kind;
      var built := CreateItems(kind, first, last, selectedValue);
      items := built;
      scrollTop := 0.0;
      CreatedWellMarked(kind, first, last, selectedValue);
    }

    /** The update loop: `selected` on item `k` and off everywhere else. */
    method Mark(k: nat)
      modifies this
      ensures items == SelectOnly(old(items), k)
      ensures scrollTop == old(scrollTop)
    {
      for i := 0 to |items|
        invariant |items| == |old(items)| && scrollTop == old(scrollTop)
        invariant forall j :: 0 <= j < i ==> items[j] == old(items)[j].(selected := j == k)
        invariant forall j :: i <= j < |items| ==> items[j] == old(items)[j]
      {
        items := items[i := items[i].(selected := i == k)];
      }
    }

    /** `adjustSelection`: select exactly the valued item nearest the middle
        of the column; with no valued item nothing changes. */
    method AdjustSelection(layout: Layout)
      requires |layout.tops| == |items|
      modifies this
      ensures scrollTop == old(scrollTop)
      ensures !HasValue(old(items)) ==> items == old(items)
      ensures HasValue(old(items)) ==> exists k ::
        IsClosest(old(items), layout, Middle(layout, old(scrollTop)), k) && items == SelectOnly(old(items), k)
      ensures HasValue(old(items)) ==> Valid()
    {
      if |items| == 0 {
        return;
      }
      var closest := FindClosest(items, layout, Middle(layout, scrollTop));
      if closest.Some? {
        SelectOnlyReads(items, closest.value);
        Mark(closest.value);
      }
    }

    /** `snapToClosestItem`: the same choice as `adjustSelection`, then the
        column scrolls so that the chosen item's centre is at its middle. */
    method SnapToClosestItem(layout: Layout)
      requires |layout.tops| == |items|
      modifies this
      ensures !HasValue(old(items)) ==> items == old(items) && scrollTop == old(scrollTop)
      ensures HasValue(old(items)) ==> exists k ::
        && IsClosest(old(items), layout, Middle(layout, old(scrollTop)), k)
        && items == SelectOnly(old(items), k)
        && scrollTop == SnapTarget(layout, k)
      ensures HasValue(old(items)) ==> Valid()
    {
      if |items| == 0 {
        return;
      }
      var closest := FindClosest(items, layout, Middle(layout, scrollTop));
      if closest.Some? {
        SelectOnlyReads(items, closest.value);
        Mark(closest.value);
        scrollTop := SnapTarget(layout, closest.value);
      }
    }
  }
}
