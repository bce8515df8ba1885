/** The picker object (js/time-picker.js, class TimePicker): its options,
    the parsed bounds, the selected moment and the columns on show, with the
    operations that read and change them. Drawing, events and timers are
    not modelled; the clock (`new Date()`) is a parameter. */
module TimePickers {
  import opened Wrappers
  import opened Calendar
  import opened Bounds
  import opened Formats
  import opened Columns
  import opened DayColumns

  /** The arguments of one `createColumn` call. */
  datatype ColumnSpec = ColumnSpec(kind: Kind, first: int, last: int, selectedValue: Option<int>)

  /** What a `Date` getter returns for the unit of `kind`: `getFullYear()`,
      `getMonth() + 1`, `getDate()`, `getHours()`, `getMinutes()`; `None` is
      the `NaN` of an invalid date. */
  function FieldOf(m: Moment, kind: Kind): (v: Option<int>)
    ensures v.Some? <==> m.At?
  {
    match m
    case InvalidDate => None
    case At(year, month, day, hour, minute) =>
      Some(match kind
           case YearColumn => year
           case MonthColumn => month
           case DayColumn => day
           case HourColumn => hour
           case MinuteColumn => minute)
  }

  /** The year column: the bounds' years cut to `currentYear ± 50`; when a
      bound's year is `NaN`, the range is empty (1 to 0). */
  function YearSpec(minDate: DateBound, maxDate: DateBound, selected: Moment, currentYear: int): (spec: ColumnSpec)
    ensures spec.kind == YearColumn && spec.selectedValue == FieldOf(selected, YearColumn)
    ensures minDate.year.Some? && maxDate.year.Some? ==> forall y ::
      Within(y, spec.first, spec.last) <==>
        Within(y, minDate.year.value, maxDate.year.value) &&
        Within(y, currentYear - YEAR_WINDOW, currentYear + YEAR_WINDOW)
    ensures minDate.year.None? || maxDate.year.None? ==> spec.first > spec.last
  {
    var span := YearSpan(minDate.year, maxDate.year, currentYear);
    if span.Some? then ColumnSpec(YearColumn, span.value.0, span.value.1, FieldOf(selected, YearColumn))
    else ColumnSpec(YearColumn, 1, 0, FieldOf(selected, YearColumn))
  }

  /** The day column: 1 to the length of the selected month (an empty range
      for an invalid date, whose month length is `NaN`). */
  function DaySpec(selected: Moment): (spec: ColumnSpec)
    ensures spec.kind == DayColumn && spec.first == 1 && spec.selectedValue == FieldOf(selected, DayColumn)
    ensures selected.At? ==> spec.last == GetDaysInMonth(selected.year, selected.month - 1) && 28 <= spec.last <= 31
    ensures selected == InvalidDate ==> spec.last < spec.first
  {
    if selected.At? then ColumnSpec(DayColumn, 1, GetDaysInMonth(selected.year, selected.month - 1), Some(selected.day))
    else ColumnSpec(DayColumn, 1, 0, None)
  }

  function MonthSpec(selected: Moment): ColumnSpec {
    ColumnSpec(MonthColumn, 1, MONTHS_IN_YEAR, FieldOf(selected, MonthColumn))
  }

  function HourSpec(selected: Moment): ColumnSpec {
    ColumnSpec(HourColumn, 0, 23, FieldOf(selected, HourColumn))
  }

  function MinuteSpec(selected: Moment): ColumnSpec {
    ColumnSpec(MinuteColumn, 0, 59, FieldOf(selected, MinuteColumn))
  }

  /** The units each mode shows, left to right. */
  function Units(mode: Mode): (kinds: seq<Kind>)
    ensures forall k :: k in Required(mode) ==> k in kinds
  {
    match mode
    case DateTime => [YearColumn, MonthColumn, DayColumn, HourColumn, MinuteColumn]
    case Date => [YearColumn, MonthColumn, DayColumn]
    case YearMonth => [YearColumn, MonthColumn]
    case Year => [YearColumn]
    case Time => [HourColumn, MinuteColumn]
  }

  /** The columns `renderDateTimeColumns`, `renderDateColumns`,
      `renderYearMonthColumns`, `renderYearColumns` and `renderTimeColumns`
      create, in order. */
  function ColumnPlan(mode: Mode, minDate: DateBound, maxDate: DateBound, selected: Moment, currentYear: int)
    : (plan: seq<ColumnSpec>)
    ensures |plan| == |Units(mode)|
    ensures forall i :: 0 <= i < |plan| ==> plan[i].kind == Units(mode)[i]
    ensures forall i :: 0 <= i < |plan| ==> plan[i].selectedValue == FieldOf(selected, plan[i].kind)
    ensures forall i :: 0 <= i < |plan| && plan[i].kind == MonthColumn ==> plan[i].first == 1 && plan[i].last == 12
    ensures forall i :: 0 <= i < |plan| && plan[i].kind == HourColumn ==> plan[i].first == 0 && plan[i].last == 23
    ensures forall i :: 0 <= i < |plan| && plan[i].kind == MinuteColumn ==> plan[i].first == 0 && plan[i].last == 59
    ensures forall i :: 0 <= i < |plan| && plan[i].kind == DayColumn ==> plan[i] == DaySpec(selected)
    ensures forall i :: 0 <= i < |plan| && plan[i].kind == YearColumn ==>
      plan[i] == YearSpec(minDate, maxDate, selected, currentYear)
  {
    var year := YearSpec(minDate, maxDate, selected, currentYear);
    match mode
    case DateTime => [year, MonthSpec(selected), DaySpec(selected), HourSpec(selected), MinuteSpec(selected)]
    case Date => [year, MonthSpec(selected), DaySpec(selected)]
    case YearMonth => [year, MonthSpec(selected)]
    case Year => [year]
    case Time => [HourSpec(selected), MinuteSpec(selected)]
  }

  /** What `confirmSelection` sees of a column: its unit and its items. */
  datatype ColumnState = ColumnState(kind: Kind, items: seq<Item>)

  /** The state of a freshly created column. */
  function Created(spec: ColumnSpec): ColumnState {
    ColumnState(spec.kind, ColumnItems(spec.kind, spec.first, spec.last, spec.selectedValue))
  }

  function CreatedAll(plan: seq<ColumnSpec>): (states: seq<ColumnState>)
    ensures |states| == |plan| && forall i :: 0 <= i < |plan| ==> states[i] == Created(plan[i])
  {
    if plan == [] then [] else CreatedAll(plan[..|plan| - 1]) + [Created(plan[|plan| - 1])]
  }

  /** `selectedValues`: the selected value of each column by unit, columns
      further right overwriting those to their left; a column without a
      selected item adds nothing. */
  function Selections(states: seq<ColumnState>): (values: map<Kind, int>)
    ensures forall k :: k in values ==> exists i :: 0 <= i < |states| && states[i].kind == k
  {
    if states == [] then map[]
    else
      var last := states[|states| - 1];
      var values := Selections(states[..|states| - 1]);
      var v := SelectedValue(last.items);
      if v.Some? then values[last.kind := v.value] else values
  }

  /** Column `i` has unit `k` and a selected item. */
  predicate Provides(states: seq<ColumnState>, i: int, k: Kind) {
    0 <= i < |states| && states[i].kind == k && SelectedValue(states[i].items).Some?
  }

  /** What `selectedValues` holds: a unit exactly when some column of that
      unit has a selected item, and then the value selected in the last such
      column, since later columns overwrite earlier ones. */
  lemma SelectionsMeaning(states: seq<ColumnState>, k: Kind)
    ensures k in Selections(states) <==> exists i :: Provides(states, i, k)
    ensures k in Selections(states) ==> exists i ::
      && Provides(states, i, k) && SelectedValue(states[i].items) == Some(Selections(states)[k])
      && forall j :: i < j < |states| ==> !Provides(states, j, k)
  {
    if k in Selections(states) {
      var i := SelectionSource(states, k);
    } else if exists i :: Provides(states, i, k) {
      var i :| Provides(states, i, k);
      SelectionPresent(states, k, i);
    }
  }

  /** A last column that does not provide `k` leaves its value as the
      columns before it set it. */
  lemma SelectionsSkip(states: seq<ColumnState>, k: Kind)
    requires states != [] && !Provides(states, |states| - 1, k)
    ensures var front := states[..|states| - 1];
      && (k in Selections(states) <==> k in Selections(front))
      && (k in Selections(states) ==> Selections(states)[k] == Selections(front)[k])
  {
  }

  lemma FrontProvides(states: seq<ColumnState>, j: int, k: Kind)
    requires 0 <= j < |states| - 1
    ensures Provides(states[..|states| - 1], j, k) <==> Provides(states, j, k)
  {
    assert states[..|states| - 1][j] == states[j];
  }

  /** A unit some column provides is in `selectedValues`. */
  lemma {:induction false} SelectionPresent(states: seq<ColumnState>, k: Kind, i: int)
    requires Provides(states, i, k)
    ensures k in Selections(states)
  {
    var n := |states|;
    if i < n - 1 {
      FrontProvides(states, i, k);
      SelectionPresent(states[..n - 1], k, i);
      SelectionsKeep(states, k);
    }
  }

  /** A later column never removes a unit from `selectedValues`. */
  lemma SelectionsKeep(states: seq<ColumnState>, k: Kind)
    requires states != [] && k in Selections(states[..|states| - 1])
    ensures k in Selections(states)
  {
  }

  /** The column a unit's value in `selectedValues` comes from: the last
      one of that unit with a selected item. */
  lemma {:induction false} SelectionSource(states: seq<ColumnState>, k: Kind) returns (i: int)
    requires k in Selections(states)
    ensures Provides(states, i, k) && SelectedValue(states[i].items) == Some(Selections(states)[k])
    ensures forall j :: i < j < |states| ==> !Provides(states, j, k)
  {
    var n := |states|;
    if Provides(states, n - 1, k) {
      i := n - 1;
    } else {
      var front := states[..n - 1];
      SelectionsSkip(states, k);
      i := SelectionSource(front, k);
      FrontProvides(states, i, k);
      forall j | i < j < n ensures !Provides(states, j, k) {
        if j < n - 1 {
          FrontProvides(states, j, k);
        }
      }
    }
  }

  /** The values the specs ask their columns to select, by unit. */
  function PlannedValues(plan: seq<ColumnSpec>): map<Kind, int>
    requires forall i :: 0 <= i < |plan| ==> plan[i].selectedValue.Some?
  {
    if plan == [] then map[]
    else PlannedValues(plan[..|plan| - 1])[plan[|plan| - 1].kind := plan[|plan| - 1].selectedValue.value]
  }

  /** Fresh columns that can show their selected values give those values
      back to `confirmSelection`. */
  lemma {:induction false} SelectionsOfCreated(plan: seq<ColumnSpec>)
    requires forall i :: 0 <= i < |plan| ==>
        plan[i].selectedValue.Some? && plan[i].first <= plan[i].selectedValue.value <= plan[i].last
    ensures Selections(CreatedAll(plan)) == PlannedValues(plan)
  {
    if plan != [] {
      var n := |plan|;
      var last := plan[n - 1];
      assert CreatedAll(plan)[..n - 1] == CreatedAll(plan[..n - 1]);
      SelectionsOfCreated(plan[..n - 1]);
      CreatedSelection(last.kind, last.first, last.last, last.selectedValue);
    }
  }

  /** The values a render asks its columns to select are the fields of the
      selected moment that the mode prints. */
  lemma PlannedFields(mode: Mode, minDate: DateBound, maxDate: DateBound, selected: Moment, currentYear: int)
    requires selected.At?
    ensures var plan := ColumnPlan(mode, minDate, maxDate, selected, currentYear);
      && (forall i :: 0 <= i < |plan| ==> plan[i].selectedValue.Some?)
      && PlannedValues(plan) == FieldsOf(mode, selected.year, selected.month, selected.day, selected.hour, selected.minute)
  {
    var plan := ColumnPlan(mode, minDate, maxDate, selected, currentYear);
    assert forall i :: 0 <= i < |plan| ==> plan[i].selectedValue.Some?;
    var y, mo, d, h, mi := selected.year, selected.month, selected.day, selected.hour, selected.minute;
    match mode {
      case DateTime =>
        assert PlannedValues(plan[..1]) == map[YearColumn := y];
        assert PlannedValues(plan[..2]) == map[YearColumn := y, MonthColumn := mo];
        assert plan[..3][..2] == plan[..2];
        assert PlannedValues(plan[..3]) == map[YearColumn := y, MonthColumn := mo, DayColumn := d];
        assert plan[..4][..3] == plan[..3];
        assert PlannedValues(plan[..4]) == map[YearColumn := y, MonthColumn := mo, DayColumn := d, HourColumn := h];
        assert plan[..5] == plan && plan[..5][..4] == plan[..4];
      case Date =>
        assert PlannedValues(plan[..1]) == map[YearColumn := y];
        assert PlannedValues(plan[..2]) == map[YearColumn := y, MonthColumn := mo];
        assert plan[..3] == plan;
      case YearMonth =>
        assert PlannedValues(plan[..1]) == map[YearColumn := y];
        assert plan[..2] == plan;
      case Year =>
        assert plan[..0] == [];
      case Time =>
        assert PlannedValues(plan[..1]) == map[HourColumn := h];
        assert plan[..2] == plan;
    }
  }

  /** Showing a selection every column can display and confirming at once
      gives the selection back: the text `confirmSelection` hands on is the
      selected moment printed in the mode's format. */
  lemma ShownThenConfirmed(mode: Mode, minDate: DateBound, maxDate: DateBound, selected: Moment, currentYear: int)
    requires selected.At?
    requires var plan := ColumnPlan(mode, minDate, maxDate, selected, currentYear);
      forall i :: 0 <= i < |plan| ==>
        plan[i].selectedValue.Some? && plan[i].first <= plan[i].selectedValue.value <= plan[i].last
    ensures Selections(CreatedAll(ColumnPlan(mode, minDate, maxDate, selected, currentYear)))
         == FieldsOf(mode, selected.year, selected.month, selected.day, selected.hour, selected.minute)
  {
    SelectionsOfCreated(ColumnPlan(mode, minDate, maxDate, selected, currentYear));
    PlannedFields(mode, minDate, maxDate, selected, currentYear);
  }

  /** A confirmed value given back as `defaultValue` (four-digit year) is
      shown selected and, confirmed again, gives the same text, provided the
      columns can show it (the year within the year column's range, the day
      within the month). */
  lemma DefaultValueConfirmsAgain(mode: Mode, minDate: DateBound, maxDate: DateBound,
                                  year: int, month: nat, day: nat, hour: nat, minute: nat,
                                  now: Moment, currentYear: int)
    requires now.At?
    requires mode in {DateTime, Date, YearMonth} ==> 1000 <= year <= 9999
    requires month < 100 && day < 100 && hour < 100 && minute < 100
    requires var selected := Restored(mode, year, month, day, hour, minute, now);
      var plan := ColumnPlan(mode, minDate, maxDate, selected, currentYear);
      forall i :: 0 <= i < |plan| ==>
        plan[i].selectedValue.Some? && plan[i].first <= plan[i].selectedValue.value <= plan[i].last
    ensures var text := ConfirmText(mode, FieldsOf(mode, year, month, day, hour, minute));
      var selected := ParseDefaultValue(mode, text.value, now, now);
      && text.Some?
      && ConfirmText(mode, Selections(CreatedAll(ColumnPlan(mode, minDate, maxDate, selected, currentYear)))) == text
  {
    ConfirmThenParse(mode, year, month, day, hour, minute, now, now);
    var selected := Restored(mode, year, month, day, hour, minute, now);
    ShownThenConfirmed(mode, minDate, maxDate, selected, currentYear);
    assert FieldsOf(mode, selected.year, selected.month, selected.day, selected.hour, selected.minute)
        == FieldsOf(mode, year, month, day, hour, minute);
  }

  class TimePicker {
    /** The `type` option. */
    const mode: Mode
    /** The `minDate`, `maxDate` and `defaultValue` options. */
    const minDateOption: string
    const maxDateOption: string
    const defaultValue: Option<string>

    var minDate: DateBound
    var maxDate: DateBound
    /** `selectedDateTime`. */
    var selected: Moment
    /** The columns in the container, left to right. */
    var columns: seq<Column>

    /** `constructor` and `init` without the DOM: the options (an absent
        `minDate` or `maxDate` takes its default), `selectedDateTime` set to
        the clock, the bounds parsed and, when `defaultValue` is a non-empty
        string, the default value parsed. */
    constructor (mode: Mode, minDateOption: Option<string>, maxDateOption: Option<string>,
                 defaultValue: Option<string>, now: Moment)
      requires now.At?
      ensures this.mode == mode && this.defaultValue == defaultValue
      ensures this.minDateOption == minDateOption.GetOr(DEFAULT_MIN_DATE)
      ensures this.maxDateOption == maxDateOption.GetOr(DEFAULT_MAX_DATE)
      ensures minDate == ParseMinDate(this.minDateOption) && maxDate == ParseMaxDate(this.maxDateOption)
      ensures selected == if defaultValue.Some? && defaultValue.value != []
                          then Formats.ParseDefaultValue(mode, defaultValue.value, now, now)
                          else now
      ensures columns == []
    {
      this.mode := mode;
      this.minDateOption := minDateOption.GetOr(DEFAULT_MIN_DATE);
      this.maxDateOption := maxDateOption.GetOr(DEFAULT_MAX_DATE);
      this.defaultValue := defaultValue;
      minDate := ParseMinDate(minDateOption.GetOr(DEFAULT_MIN_DATE));
      maxDate := ParseMaxDate(maxDateOption.GetOr(DEFAULT_MAX_DATE));
      selected := now;
      columns := [];
      new;
      ParseMinMaxDates();
      if defaultValue.Some? && defaultValue.value != [] {
        ParseDefaultValue(now);
      }
    }

    /** `parseMinMaxDates`. */
    method ParseMinMaxDates()
      modifies this
      ensures minDate == ParseMinDate(minDateOption) && maxDate == ParseMaxDate(maxDateOption)
      ensures selected == old(selected) && columns == old(columns)
    {
      minDate := ParseMinDate(minDateOption);
      maxDate := ParseMaxDate(maxDateOption);
    }

    /** `parseDefaultValue`, called only with a `defaultValue`; `now` is the
        clock the `time` mode reads. */
    method ParseDefaultValue(now: Moment)
      requires defaultValue.Some? && now.At?
      modifies this
      ensures selected == Formats.ParseDefaultValue(mode, defaultValue.value, old(selected), now)
      ensures minDate == old(minDate) && maxDate == old(maxDate) && columns == old(columns)
    {
      selected := Formats.ParseDefaultValue(mode, defaultValue.value, selected, now);
    }

    /** What the columns on show look like. */
    function States(): (states: seq<ColumnState>)
      reads this, columns
      ensures |states| == |columns|
      ensures forall i :: 0 <= i < |columns| ==> states[i] == ColumnState(columns[i].kind, columns[i].items)
    {
      StatesOf(columns)
    }

    /** `renderColumns` for the mode: one fresh column per unit, as
        `ColumnPlan` lays them out; `currentYear` is the clock's year. */
    method RenderColumns(currentYear: int)
      modifies this
      ensures minDate == old(minDate) && maxDate == old(maxDate) && selected == old(selected)
      ensures var plan := ColumnPlan(mode, minDate, maxDate, selected, currentYear);
        |columns| == |plan| && forall i :: 0 <= i < |columns| ==> fresh(columns[i]) && Shows(columns[i], plan[i])
      ensures forall i, j :: 0 <= i < j < |columns| ==> columns[i] != columns[j]
    {
      var plan := ColumnPlan(mode, minDate, maxDate, selected, currentYear);
      var built: seq<Column>;
      match mode {
        case DateTime => built := RenderDateTimeColumns(plan);
        case Date => built := RenderDateColumns(plan);
        case YearMonth => built := RenderYearMonthColumns(plan);
        case Year => built := RenderYearColumns(plan);
        case Time => built := RenderTimeColumns(plan);
      }
      columns := built;
    }

    /** The index of the first column of unit `kind`, as
        `querySelector('.time-picker-column[data-type=…]')` finds it. */
    function ColumnOf(kind: Kind): (i: Option<nat>)
      reads this
      ensures i.Some? ==> i.value < |columns| && columns[i.value].kind == kind
      ensures i.Some? ==> forall j :: 0 <= j < i.value ==> columns[j].kind != kind
      ensures i.None? ==> forall j :: 0 <= j < |columns| ==> columns[j].kind != kind
    {
      FirstOfKind(columns, kind)
    }

    /** What `updateDayColumn` would do now: `None` when there is no year,
        month or day column or the decision is to keep the day column. */
    function DayUpdate(): Option<DayRebuild>
      reads this, columns
    {
      var y, m, d := ColumnOf(YearColumn), ColumnOf(MonthColumn), ColumnOf(DayColumn);
      if y.None? || m.None? || d.None? then None
      else
        var dayColumn := columns[d.value];
        PlanDayColumn(mode, SelectedValue(columns[y.value].items), SelectedValue(columns[m.value].items),
                      SelectedValue(dayColumn.items), LastValue(dayColumn.items), dayColumn.scrollTop)
    }

    /** `updateDayColumn`: when the day count of the selected month differs
        from the day column's, the day column is replaced by a fresh one for
        the new month, selecting the clamped day and scrolled to the clamped
        offset; nothing else changes. */
    method UpdateDayColumn()
      modifies this
      ensures minDate == old(minDate) && maxDate == old(maxDate) && selected == old(selected)
      ensures old(DayUpdate()).None? ==> columns == old(columns)
      ensures old(DayUpdate()).Some? ==>
        var d := old(ColumnOf(DayColumn)).value;
        var rebuild := old(DayUpdate()).value;
        && |columns| == |old(columns)|
        && (forall i :: 0 <= i < |columns| && i != d ==> columns[i] == old(columns)[i])
        && fresh(columns[d]) && columns[d].kind == DayColumn && columns[d].Valid()
        && columns[d].items == RebuiltItems(rebuild)
        && columns[d].scrollTop == rebuild.scrollTop
    {
      var rebuild := DayUpdate();
      if rebuild.Some? {
        var d := ColumnOf(DayColumn).value;
        var day := new Column(DayColumn, 1, rebuild.value.daysInMonth, Some(rebuild.value.selectedDay));
        day.scrollTop := rebuild.value.scrollTop;
        columns := columns[d := day];
      }
    }

    /** `confirmSelection`: the text handed to `onConfirm`, built from the
        selected value of every column; `None` when the source throws
        because a unit the mode prints has no selection. */
    method ConfirmSelection() returns (value: Option<string>)
      ensures value == ConfirmText(mode, Selections(States()))
    {
      var values: map<Kind, int> := map[];
      for i := 0 to |columns|
        invariant values == Selections(StatesOf(columns[..i]))
      {
        var column := columns[i];
        var v := SelectedValue(column.items);
        assert columns[..i + 1][..i] == columns[..i];
        if v.Some? {
          values := values[column.kind := v.value];
        }
      }
      assert columns[..|columns|] == columns;
      value := ConfirmText(mode, values);
    }
  }

  /** The five render methods: one `createColumn` call per unit, in order. */
  method RenderDateTimeColumns(plan: seq<ColumnSpec>) returns (built: seq<Column>)
    requires |plan| == 5
    ensures |built| == |plan| && forall i :: 0 <= i < |built| ==> fresh(built[i]) && Shows(built[i], plan[i])
    ensures forall i, j :: 0 <= i < j < |built| ==> built[i] != built[j]
  {
    var year := CreateColumn(plan[0]);
    var month := CreateColumn(plan[1]);
    var day := CreateColumn(plan[2]);
    var hour := CreateColumn(plan[3]);
    var minute := CreateColumn(plan[4]);
    built := [year, month, day, hour, minute];
  }

  method RenderDateColumns(plan: seq<ColumnSpec>) returns (built: seq<Column>)
    requires |plan| == 3
    ensures |built| == |plan| && forall i :: 0 <= i < |built| ==> fresh(built[i]) && Shows(built[i], plan[i])
    ensures forall i, j :: 0 <= i < j < |built| ==> built[i] != built[j]
  {
    var year := CreateColumn(plan[0]);
    var month := CreateColumn(plan[1]);
    var day := CreateColumn(plan[2]);
    built := [year, month, day];
  }

  method RenderYearMonthColumns(plan: seq<ColumnSpec>) returns (built: seq<Column>)
    requires |plan| == 2
    ensures |built| == |plan| && forall i :: 0 <= i < |built| ==> fresh(built[i]) && Shows(built[i], plan[i])
    ensures forall i, j :: 0 <= i < j < |built| ==> built[i] != built[j]
  {
    var year := CreateColumn(plan[0]);
    var month := CreateColumn(plan[1]);
    built := [year, month];
  }

  method RenderYearColumns(plan: seq<ColumnSpec>) returns (built: seq<Column>)
    requires |plan| == 1
    ensures |built| == |plan| && forall i :: 0 <= i < |built| ==> fresh(built[i]) && Shows(built[i], plan[i])
  {
    var year := CreateColumn(plan[0]);
    built := [year];
  }

  method RenderTimeColumns(plan: seq<ColumnSpec>) returns (built: seq<Column>)
    requires |plan| == 2
    ensures |built| == |plan| && forall i :: 0 <= i < |built| ==> fresh(built[i]) && Shows(built[i], plan[i])
    ensures forall i, j :: 0 <= i < j < |built| ==> built[i] != built[j]
  {
    var hour := CreateColumn(plan[0]);
    var minute := CreateColumn(plan[1]);
    built := [hour, minute];
  }

  /** `createColumn(spec.kind, spec.first, spec.last, spec.selectedValue)`. */
  method CreateColumn(spec: ColumnSpec) returns (column: Column)
    ensures fresh(column) && Shows(column, spec)
  {
    column := new Column(spec.kind, spec.first, spec.last, spec.selectedValue);
  }

  /** Column `column` is what `createColumn` made of `spec`. */
  predicate Shows(column: Column, spec: ColumnSpec)
    reads column
  {
    && column.kind == spec.kind
    && column.items == ColumnItems(spec.kind, spec.first, spec.last, spec.selectedValue)
  }

  function StatesOf(columns: seq<Column>): (states: seq<ColumnState>)
    reads set i | 0 <= i < |columns| :: columns[i]
    ensures |states| == |columns|
    ensures forall i :: 0 <= i < |columns| ==> states[i] == ColumnState(columns[i].kind, columns[i].items)
  {
    if columns == [] then []
    else StatesOf(columns[..|columns| - 1]) + [ColumnState(columns[|columns| - 1].kind, columns[|columns| - 1].items)]
  }

  /** Columns that show a plan look, to `confirmSelection`, like the plan's
      fresh columns; with `RenderColumns` and `ConfirmSelection` this carries
      `ShownThenConfirmed` over to the picker object. */
  lemma StatesOfShown(columns: seq<Column>, plan: seq<ColumnSpec>)
    requires |columns| == |plan| && forall i :: 0 <= i < |columns| ==> Shows(columns[i], plan[i])
    ensures StatesOf(columns) == CreatedAll(plan)
  {
  }

  /** The first index of a column of unit `kind`. */
  function FirstOfKind(columns: seq<Column>, kind: Kind): (i: Option<nat>)
    ensures i.Some? ==> i.value < |columns| && columns[i.value].kind == kind
    ensures i.Some? ==> forall j :: 0 <= j < i.value ==> columns[j].kind != kind
    ensures i.None? ==> forall j :: 0 <= j < |columns| ==> columns[j].kind != kind
  {
    if columns == [] then None
    else if columns[0].kind == kind then Some(0)
    else
      var rest := FirstOfKind(columns[1..], kind);
      if rest.Some? then Some(rest.value + 1) else None
  }
}
