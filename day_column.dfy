/** What `updateDayColumn` decides when the year or the month changes
    (js/time-picker.js:234-276): whether the day column is rebuilt, for how
    many days, which day it selects and where it scrolls. The rebuilding
    itself is `TimePickers.TimePicker.UpdateDayColumn`. */
module DayColumns {
  import opened Wrappers
  import opened Calendar
  import opened Formats
  import opened Columns

  /** The height the source assumes for one item, in pixels. */
  const ITEM_HEIGHT := 44.0

  /** `Math.min(selectedDay, daysInMonth)`, where a day column without a
      selected item counts as day 1. */
  function ClampDay(selectedDay: Option<int>, daysInMonth: int): (day: int)
    ensures day <= daysInMonth && day <= selectedDay.GetOr(1)
    ensures day == daysInMonth || day == selectedDay.GetOr(1)
    ensures 1 <= selectedDay.GetOr(1) && 1 <= daysInMonth ==> 1 <= day
  {
    var wanted := selectedDay.GetOr(1);
    if wanted < daysInMonth then wanted else daysInMonth
  }

  /** `Math.min(currentScrollTop, (daysInMonth - 1) * itemHeight)`: the old
      offset, but never past the last day's item. */
  function RestoredScrollTop(scrollTop: real, daysInMonth: int): (top: real)
    ensures top <= scrollTop && top <= (daysInMonth - 1) as real * ITEM_HEIGHT
    ensures top == scrollTop || top == (daysInMonth - 1) as real * ITEM_HEIGHT
  {
    var limit := (daysInMonth - 1) as real * ITEM_HEIGHT;
    if scrollTop < limit then scrollTop else limit
  }

  /** A rebuilt day column: days 1 to `daysInMonth`, `selectedDay` selected,
      scrolled to `scrollTop`. */
  datatype DayRebuild = DayRebuild(daysInMonth: int, selectedDay: int, scrollTop: real)

  predicate HasDayColumn(mode: Mode) {
    mode == DateTime || mode == Date
  }

  /** The decision of `updateDayColumn`. `year`, `month` and `day` are the
      selections of the three columns (`None`: no item selected; for the year
      and the month the source then throws, so nothing changes);
      `currentMaxDay` is the last value in the day column and `scrollTop` its
      offset. `None` means the day column is left as it is. */
  function PlanDayColumn(mode: Mode, year: Option<int>, month: Option<int>, day: Option<int>,
                         currentMaxDay: int, scrollTop: real): (plan: Option<DayRebuild>)
    ensures plan.Some? <==>
      && HasDayColumn(mode) && year.Some? && month.Some?
      && currentMaxDay != GetDaysInMonth(year.value, month.value - 1)
    ensures plan.Some? ==>
      && plan.value.daysInMonth == GetDaysInMonth(year.value, month.value - 1)
      && 28 <= plan.value.daysInMonth <= 31
      && plan.value.selectedDay == ClampDay(day, plan.value.daysInMonth)
      && plan.value.scrollTop == RestoredScrollTop(scrollTop, plan.value.daysInMonth)
    ensures plan.Some? && 1 <= day.GetOr(1) ==> 1 <= plan.value.selectedDay <= plan.value.daysInMonth
  {
    if !HasDayColumn(mode) || year.None? || month.None? then None
    else
      var daysInMonth := GetDaysInMonth(year.value, month.value - 1);
      if currentMaxDay == daysInMonth then None
      else Some(DayRebuild(daysInMonth, ClampDay(day, daysInMonth),
                           RestoredScrollTop(scrollTop, daysInMonth)))
  }

  /** The items of the rebuilt column. */
  function RebuiltItems(rebuild: DayRebuild): (items: seq<Item>)
    ensures |items| == LEADING_PADDING + Count(1, rebuild.daysInMonth) + TRAILING_PADDING
  {
    ColumnItems(DayColumn, 1, rebuild.daysInMonth, Some(rebuild.selectedDay))
  }

  /** A rebuilt column reads back as the day it selects and ends at the
      month's last day. */
  lemma RebuiltColumnReads(rebuild: DayRebuild)
    requires 1 <= rebuild.selectedDay <= rebuild.daysInMonth
    ensures SelectedValue(RebuiltItems(rebuild)) == Some(rebuild.selectedDay)
    ensures LastValue(RebuiltItems(rebuild)) == rebuild.daysInMonth
  {
    CreatedSelection(DayColumn, 1, rebuild.daysInMonth, Some(rebuild.selectedDay));
    CreatedLastValue(DayColumn, 1, rebuild.daysInMonth, Some(rebuild.selectedDay));
  }

  /** After a rebuild the day column selects the clamped day and ends at the
      month's last day, so the next update for the same year and month
      leaves it alone: the update settles after one rebuild. (`PlanDayColumn`
      promises the requirements here of every rebuild it plans.) */
  lemma RebuildSettles(mode: Mode, year: int, month: int, rebuild: DayRebuild, laterScrollTop: real)
    requires rebuild.daysInMonth == GetDaysInMonth(year, month - 1)
    requires 1 <= rebuild.selectedDay <= rebuild.daysInMonth
    ensures PlanDayColumn(mode, Some(year), Some(month), SelectedValue(RebuiltItems(rebuild)),
                          LastValue(RebuiltItems(rebuild)), laterScrollTop) == None
  {
    var items := RebuiltItems(rebuild);
    RebuiltColumnReads(rebuild);
    assert LastValue(items) == GetDaysInMonth(year, month - 1);
    NoRebuildAtMonthEnd(mode, year, month, SelectedValue(items), laterScrollTop);
  }

  /** A day column that already ends at the month's last day is kept. */
  lemma NoRebuildAtMonthEnd(mode: Mode, year: int, month: int, day: Option<int>, scrollTop: real)
    ensures PlanDayColumn(mode, Some(year), Some(month), day, GetDaysInMonth(year, month - 1), scrollTop) == None
  {
  }
}
