# Mobile time picker — a Dafny model

`js/time-picker.js` is a wheel-style time picker for mobile pages. It shows
one scrolling column per unit: year, month, day, hour and minute. The `type`
option chooses which columns appear: `datetime`, `date`, `year-month`, `year`
or `time`. The value is confirmed as a text such as `2024-03-15 09:30`.

This project models the picker's logic without the page:

- how the `minDate` and `maxDate` options are read, with their fallbacks (`Bounds`);
- how `defaultValue` is read in each mode (`Formats.ParseDefaultValue`, `Formats.DefaultValueShape`);
- how long a month is (`Calendar`);
- which columns a render creates, and over which ranges (`TimePickers.ColumnPlan`);
- the items of one column (`Columns.ColumnItems` and the `Columns.Column` constructor);
- the choice of the item nearest the column's middle (`Columns.FindClosest`);
- the rebuilding of the day column after the year or the month changes (`DayColumns`);
- the text `confirmSelection` hands on (`Formats.ConfirmText`).

The picker object and its columns are classes. `TimePickers.TimePicker` holds
the options, the parsed bounds, the selected moment and the columns.
`Columns.Column` holds a column's items and its scroll offset. Everything
else is pure functions and lemmas.

JavaScript's `parseInt` is modelled as a decimal parse. It skips leading
white space, takes an optional sign and reads the longest run of digits.
`NaN` becomes `None` (`Text.ParseInt`). A `Date` is a `Formats.Moment`: five
integer fields, or `InvalidDate`. The clock (`new Date()`) is a parameter.
So are the element measurements (`offsetTop`, `offsetHeight`), passed as a
`Columns.Layout`. The month and day of `minDate` and `maxDate` are parsed
but, as in the source, only their years bound anything.

Files, one module each: `wrappers.dfy` (Option), `text.dfy` (numerals,
`parseInt`, `split`), `calendar.dfy`, `bounds.dfy`, `formats.dfy`,
`column.dfy`, `day_column.dfy`, `picker.dfy`.

## Model

| member | source | states |
|---|---|---|
| Text.ParseIntOfNumeral | js/time-picker.js:544-546 | `parseInt` reads back the decimal numeral of any integer, whatever non-digit text follows it |
| Text.ParseIntOfDigits | js/time-picker.js:46-54 | a run of digits followed by a non-digit parses to the digits' value |
| Text.ParseIntOfNegativeDigits | js/time-picker.js:46-54 | a minus sign before a run of digits gives the negated value |
| Text.ParseIntOfMinus | js/time-picker.js:46-54 | after a leading minus sign, `parseInt` gives the negated value of the digits that follow, or `NaN` when none do |
| Text.ParseIntWithoutDigits | js/time-picker.js:46-54 | a text without a digit parses to `NaN` (`None`) |
| Text.TakeDigitsPrefix | js/time-picker.js:46-54 | the digits `parseInt` reads are a prefix of the text, all digits, and stop at the first non-digit |
| Text.TrimStartSuffix | js/time-picker.js:46-54 | the leading white space `parseInt` skips is a prefix, and what is left does not start with white space |
| Text.Split | js/time-picker.js:42-43 | `split('-')` always gives at least one field |
| Text.SplitFieldsFree | js/time-picker.js:42-43 | no field of a split contains the separator |
| Text.IndexOf | js/time-picker.js:42-43 | the position a split cuts at holds the separator |
| Text.IndexOfNoEarlier | js/time-picker.js:42-43 | no separator comes before that position |
| Text.IndexOfFirst | js/time-picker.js:42-43 | a position holding the separator with none before it is the one a split cuts at |
| Text.JoinSplit | js/time-picker.js:42-43 | joining the fields of a split with the separator gives the text back |
| Text.SplitJoin | js/time-picker.js:42-43 | splitting a join of separator-free fields gives the fields back |
| Text.NatToStringDigits | js/time-picker.js:554-566 | `toString` of a non-negative number prints only digits |
| Text.IntToStringSign | js/time-picker.js:554-566 | `toString` of a negative number prints `-` and then only digits; of any other number only digits |
| Text.NatToStringValue | js/time-picker.js:563 | the decimal numeral `toString` prints denotes the number |
| Text.NatToStringLength | js/time-picker.js:554-566 | one digit below 10, two below 100, four for 1000..9999 |
| Text.TwoDigitNumeral | js/time-picker.js:429-435 | `padStart(2, '0')` of a number below 100 is two digits denoting that number |
| Text.LeadingZeroValue | js/time-picker.js:429-435 | a leading zero added by `padStart` does not change the value |
| Calendar.DaysInMonth | js/time-picker.js:108-110 | 28 to 31 days; February has 29 exactly in Gregorian leap years; 30 exactly for April, June, September and November; 31 exactly for the other seven months |
| Calendar.GetDaysInMonth | js/time-picker.js:108-110 | `new Date(year, month + 1, 0).getDate()`: 28 to 31 for any month index, and the month's length for indices 0..11 |
| Calendar.GetDaysInMonthNextYear | js/time-picker.js:108-110 | a month index 12 or more rolls over into the following year, as `Date` does |
| Calendar.LastDayIsEveOfNextMonth | js/time-picker.js:108-110 | the result is the day before the 1st of the next month in a day count, so day 0 of the next month is this month's last day (also across December) |
| Calendar.YearLengthStep | js/time-picker.js:108-110 | the day count grows by 365 or 366 from one year to the next, according to the leap-year rule |
| Bounds.ParseBound | js/time-picker.js:41-56 | a bound's month and day are never 0 when their fallbacks are not |
| Bounds.OrFallback | js/time-picker.js:47-48 | `parseInt(x) \|\| fallback`: a non-zero number is kept, and `NaN` or 0 (falsy) gives the fallback |
| Bounds.ParseMinDate | js/time-picker.js:42-49 | `this.minDate` never has month or day 0 |
| Bounds.ParseMaxDate | js/time-picker.js:43-55 | `this.maxDate` never has month or day 0 |
| Bounds.MinDateFields | js/time-picker.js:42-49 | `this.minDate`: the year is `parseInt` of the first `-`-separated field; month and day are the parsed second and third fields, or 1 when missing, zero or `NaN` |
| Bounds.MaxDateFields | js/time-picker.js:43-55 | `this.maxDate`: the same, with 12 and 31 as the fallbacks |
| Bounds.ParseFullBound | js/time-picker.js:41-56 | a full `Y-M-D` bound with non-zero month and day is read exactly |
| Bounds.ParseYearOnlyBound | js/time-picker.js:41-56 | a bound that is only a year takes both fallbacks (`"2030"` as `maxDate` is 31 December 2030) |
| Bounds.YearSpan | js/time-picker.js:299-301 | the year column's range is exactly the years within both the bounds and `currentYear ± 50`; there is no range when a bound's year is `NaN` |
| Formats.Match | js/time-picker.js:62-93 | a pattern that matches yields exactly as many groups as it captures |
| Formats.PatternsDelimited | js/time-picker.js:62-93 | in each of the four regular expressions every `\d{n,m}` group is followed by a non-digit or the end |
| Formats.AcceptedHead | js/time-picker.js:62-93 | a text the rest of a pattern accepts after a group starts with a non-digit, or is empty |
| Formats.MatchGroups | js/time-picker.js:62-93 | whatever `Match` reads, the regular expression accepts (`Conforms`: `\d{least,most}` any digit run of that length, `\s` any white space, literals themselves, `$` the end) with the same group values |
| Formats.ConformingMatches | js/time-picker.js:62-93 | whatever such a regular expression accepts, `Match` reads with the same group values |
| Formats.MatchMeaning | js/time-picker.js:62-93 | both directions at once: `Match` gives `v` exactly when some groups the regular expression accepts have the values `v` |
| Formats.DefaultValueFields | js/time-picker.js:58-105 | outside `year` mode, a text the mode's regular expression accepts selects exactly the numbers written in it (`datetime`: year, month, day, hour, minute; `date`: year, month, day; `year-month`: year, month; `time`: hour, minute), and a text it rejects keeps the current selection |
| Formats.DefaultValueMatches | js/time-picker.js:58-105 | the same in terms of `Match`: a match selects the values read, no match keeps the current selection |
| Formats.DefaultValueShape | js/time-picker.js:58-105 | `year` mode: an invalid date exactly when `parseInt` fails, else 1 January of that year. Other modes: any change is to a valid moment. `time` keeps the clock's date; `year-month` sets day 1 at 00:00; `date` sets 00:00 |
| Formats.ConfirmText | js/time-picker.js:550-568 | a text is confirmed exactly when every unit the mode prints with `.toString()` has a selection; otherwise the source throws |
| Formats.MatchFill | js/time-picker.js:62-93 | a text laid out as a pattern asks (digit groups of allowed widths, literal separators) is matched, and its groups are the numbers written |
| Formats.FitsAllDigits | js/time-picker.js:62-93 | groups a pattern accepts are all digits |
| Formats.DateTimeFill | js/time-picker.js:62 | five numerals of the right widths joined as `Y-M-D h:m` fit the `datetime` pattern |
| Formats.DateFill | js/time-picker.js:73 | three numerals joined as `Y-M-D` fit the `date` pattern |
| Formats.YearMonthFill | js/time-picker.js:82 | two numerals joined as `Y-M` fit the `year-month` pattern |
| Formats.TimeFill | js/time-picker.js:93 | two numerals joined as `h:m` fit the `time` pattern |
| Formats.TwoDigitGroup | js/time-picker.js:554-566 | a padded field below 100 is a one- or two-digit group denoting the field |
| Formats.FourDigitGroup | js/time-picker.js:554-560 | a year of four digits prints as a four-digit group denoting the year |
| Formats.DateTimeText | js/time-picker.js:553-554 | a `datetime` confirmation prints the year, then month, day, hour and minute padded to two digits, with `-`, ` ` and `:` between |
| Formats.DateTimeRoundTrip | js/time-picker.js:553-554 | a confirmed `datetime` text (four-digit year) matches the `datetime` pattern with the confirmed fields as groups |
| Formats.DateText | js/time-picker.js:556-557 | a `date` confirmation prints the year, then month and day padded to two digits, with `-` between |
| Formats.YearMonthText | js/time-picker.js:559-560 | a `year-month` confirmation prints the year, `-` and the month padded to two digits |
| Formats.TimeText | js/time-picker.js:565-566 | a `time` confirmation prints hour and minute padded to two digits, with `:` between |
| Formats.DateRoundTrip | js/time-picker.js:556-557 | the same for `date` |
| Formats.YearMonthRoundTrip | js/time-picker.js:559-560 | the same for `year-month` |
| Formats.TimeRoundTrip | js/time-picker.js:565-566 | the same for `time` |
| Formats.ConfirmThenParse | js/time-picker.js:58-105 | a confirmed text given back as `defaultValue` of the same mode selects the same fields again (`time` keeps today's date), provided the year has four digits where the pattern asks for four |
| Formats.DateTimeExample | js/time-picker.js:553-554 | (2024, 3, 15, 9, 30) confirms as `2024-03-15 09:30` |
| Formats.TimeExample | js/time-picker.js:565-566 | (5, 7) confirms as `05:07` |
| Formats.YearExample | js/time-picker.js:562-563 | 1999 confirms as `1999` |
| Formats.UnitSuffix | js/time-picker.js:424-439 | the unit character after a label is never a digit |
| Formats.LabelReadsBack | js/time-picker.js:424-439 | `parseInt` of the label `formatColumnValue` gives a value returns that value: the suffix and the zero padding lose nothing |
| Formats.TwoDigitLabel | js/time-picker.js:428-435 | month, day, hour and minute labels below 100 are three characters: two digits denoting the value, then the unit's suffix |
| Columns.Count | js/time-picker.js:394 | `for (i = start; i <= end; i++)` visits no value exactly when `start > end`, and otherwise ends at `end` |
| Columns.Padding | js/time-picker.js:386-392 | `n` empty items without a value |
| Columns.Entries | js/time-picker.js:394-405 | one item per value |
| Columns.EntriesAt | js/time-picker.js:394-405 | item `j` has value `first + j` and is selected exactly when its value is `selectedValue` |
| Columns.ColumnItems | js/time-picker.js:380-422 | 3 padding items, one item per value, 4 padding items |
| Columns.ColumnItemAt | js/time-picker.js:380-422 | item `i` is padding before position 3 and after the values, and otherwise the entry for value `first + i - 3` |
| Columns.ColumnShape | js/time-picker.js:380-422 | exactly the padding items lack a value; the values run from `first` to `last`, each labelled by `formatColumnValue`; an item is selected exactly when it holds an in-range `selectedValue` |
| Columns.CreatedWellMarked | js/time-picker.js:394-405 | a fresh column selects only valued items, and at most one |
| Columns.CreatedSelection | js/time-picker.js:394-405 | a fresh column's selection reads as `selectedValue` when that lies in `first..last`, and as nothing otherwise |
| Columns.CreatedLastValue | js/time-picker.js:256-258 | the last `data-value` of a fresh column is `last`, or 0 when the range is empty |
| Columns.TrailingPaddingSkipped | js/time-picker.js:256-258 | padding after the values does not change the last `data-value` |
| Columns.SelectedValueReads | js/time-picker.js:244-247 | `querySelector('.selected')` finds the first selected item: no selected item gives nothing; otherwise the first one's value |
| Columns.LastValue | js/time-picker.js:256-258 | a column without valued items gives 0 |
| Columns.LastValued | js/time-picker.js:256-258 | when some item has a value, `LastValue` is the value of an item after which no item has a value: the last `[data-value]` item |
| Columns.LastValueOfSameValues | js/time-picker.js:256-258 | the last value depends only on the items' values, not on which is selected |
| Columns.LastValueAfterSelect | js/time-picker.js:256-258 | moving the selection (`SelectOnly`) leaves the last value `updateDayColumn` reads unchanged |
| Columns.ClosestUnique | js/time-picker.js:466-476 | at most one item satisfies the search's choice |
| Columns.FindClosest | js/time-picker.js:463-477 | no item is chosen exactly when no item has a value. Otherwise the chosen item is valued and as near the middle as any valued item; the strict `<` means every earlier valued item is strictly farther, so ties go to the first |
| Columns.SelectOnly | js/time-picker.js:479-487 | the chosen item is selected and every other item is not; the values are unchanged |
| Columns.SelectOnlyReads | js/time-picker.js:479-487 | after the update loop the column is well marked and its selection reads as the chosen item's value |
| Columns.SnapTarget | js/time-picker.js:530 | the target offset puts the chosen item's centre at the column's middle |
| Columns.SnapIsStable | js/time-picker.js:491-536 | with items in ascending order, the snapped item is the one the next search chooses again |
| Columns.Column.Selected | js/time-picker.js:544-546 | in a well-marked column, a value is read exactly when some item is selected, and it is that item's value |
| Columns.CreateItems | js/time-picker.js:386-414 | the three loops of `createColumn` append exactly `ColumnItems`: 3 padding items, one item per value, 4 padding items |
| Columns.Column.constructor | js/time-picker.js:380-422 | a new column holds the unit and the items `createColumn` builds; it is well marked and unscrolled |
| Columns.Column.Mark | js/time-picker.js:481-487 | the `forEach` over the items leaves exactly item `k` selected and nothing else changed |
| Columns.Column.AdjustSelection | js/time-picker.js:451-489 | with no valued item nothing changes; otherwise exactly the closest item (by `IsClosest`) is selected, and the offset is kept |
| Columns.Column.SnapToClosestItem | js/time-picker.js:491-536 | the same selection as `adjustSelection`, and the offset becomes the snap target of the chosen item |
| DayColumns.ClampDay | js/time-picker.js:246-253 | `Math.min(selectedDay, daysInMonth)`, with a missing day counting as 1: the smaller of the two, and at least 1 when both are |
| DayColumns.RestoredScrollTop | js/time-picker.js:271-276 | `Math.min(currentScrollTop, (daysInMonth - 1) * 44)`: the smaller of the two |
| DayColumns.PlanDayColumn | js/time-picker.js:234-276 | the day column is rebuilt exactly in `datetime` and `date` mode, with a year and a month selected, when the day column's last value differs from the month's length. The rebuild has that many days (28 to 31), selects the clamped day, which is within the month, and scrolls to the clamped offset |
| DayColumns.RebuiltItems | js/time-picker.js:267 | the rebuilt column has one item per day of the month between the padding |
| DayColumns.RebuiltColumnReads | js/time-picker.js:267-268 | the rebuilt column reads as the clamped day and ends at the month's last day |
| DayColumns.RebuildSettles | js/time-picker.js:256-261 | after a rebuild, the next update for the same year and month leaves the day column alone |
| DayColumns.NoRebuildAtMonthEnd | js/time-picker.js:261 | a day column that already ends at the month's length is kept |
| TimePickers.FieldOf | js/time-picker.js:302-320 | a `Date` getter gives a number exactly for a valid date |
| TimePickers.YearSpec | js/time-picker.js:299-303 | the year column covers exactly the years within the bounds and `currentYear ± 50`, and is empty when a bound's year is `NaN`; it selects the selected year |
| TimePickers.DaySpec | js/time-picker.js:311-312 | the day column runs from 1 to the selected month's length (28 to 31) and selects the selected day; an invalid date gives an empty range |
| TimePickers.Units | js/time-picker.js:179-198 | every unit `confirmSelection` requires in a mode has a column in that mode |
| TimePickers.ColumnPlan | js/time-picker.js:296-378 | one column per unit of the mode, in order: year as in `YearSpec`, month 1..12, day as in `DaySpec`, hour 0..23, minute 0..59, each selecting its field of the selected moment |
| TimePickers.CreatedAll | js/time-picker.js:296-378 | one state per planned column, in order, each holding what `createColumn` builds for it |
| TimePickers.Selections | js/time-picker.js:539-548 | `selectedValues` only has units that some column has |
| TimePickers.SelectionsMeaning | js/time-picker.js:539-548 | a unit is in `selectedValues` exactly when some column of that unit has a selected item, and its value is the one selected in the last such column |
| TimePickers.SelectionPresent | js/time-picker.js:539-548 | a unit that some column with a selected item has is in `selectedValues` |
| TimePickers.SelectionSource | js/time-picker.js:539-548 | a unit's value in `selectedValues` is the selection of a column of that unit, and no later column of that unit has a selection: later columns overwrite earlier ones |
| TimePickers.SelectionsKeep | js/time-picker.js:542-547 | a later column never removes a unit from `selectedValues` |
| TimePickers.SelectionsSkip | js/time-picker.js:542-547 | a last column of another unit, or without a selection, leaves a unit's entry as the earlier columns set it |
| TimePickers.SelectionsOfCreated | js/time-picker.js:539-548 | fresh columns whose selected values are in range give exactly those values to `confirmSelection` |
| TimePickers.PlannedFields | js/time-picker.js:296-378 | the values a render asks its columns to select are the fields of the selected moment that the mode prints |
| TimePickers.ShownThenConfirmed | js/time-picker.js:538-568 | rendering a selection every column can show and confirming at once confirms that selection's fields |
| TimePickers.DefaultValueConfirmsAgain | js/time-picker.js:58-105 | a confirmed text (four-digit year) given back as `defaultValue` is rendered and confirmed as the same text, when the columns can show it |
| TimePickers.TimePicker.constructor | js/time-picker.js:10-32 | the options are stored, with an absent `minDate`/`maxDate` taking its default; the bounds are parsed; the selection is the clock, or the parsed `defaultValue` when that is a non-empty string; no columns yet |
| TimePickers.TimePicker.ParseMinMaxDates | js/time-picker.js:41-56 | the bounds become the parsed options, and nothing else changes |
| TimePickers.TimePicker.ParseDefaultValue | js/time-picker.js:58-105 | the selection becomes `Formats.ParseDefaultValue` of the option, and nothing else changes |
| TimePickers.TimePicker.States | js/time-picker.js:539-544 | one state per column on show: its unit and its items |
| TimePickers.TimePicker.RenderColumns | js/time-picker.js:179-198 | the columns are replaced by distinct fresh columns, one per entry of `ColumnPlan`, each showing its entry; bounds and selection are unchanged |
| TimePickers.TimePicker.ColumnOf | js/time-picker.js:238-240 | the first column of a unit, or none when no column has it |
| TimePickers.TimePicker.UpdateDayColumn | js/time-picker.js:234-276 | when `PlanDayColumn` keeps the day column, nothing changes; otherwise only the day column is replaced, by a fresh well-marked column holding the rebuilt items at the clamped offset |
| TimePickers.TimePicker.ConfirmSelection | js/time-picker.js:538-568 | the confirmed text is `ConfirmText` of the selections the columns hold, collected left to right; by `SelectionsMeaning` that is, per unit, the selection of the last column of the unit that has one, whatever scrolling has selected |
| TimePickers.RenderDateTimeColumns | js/time-picker.js:296-322 | five distinct fresh columns, each showing its planned column |
| TimePickers.RenderDateColumns | js/time-picker.js:324-342 | three distinct fresh columns, each showing its planned column |
| TimePickers.RenderYearMonthColumns | js/time-picker.js:344-357 | two distinct fresh columns, each showing its planned column |
| TimePickers.RenderYearColumns | js/time-picker.js:359-368 | one fresh column showing the year column |
| TimePickers.RenderTimeColumns | js/time-picker.js:370-378 | two distinct fresh columns, each showing its planned column |
| TimePickers.CreateColumn | js/time-picker.js:380-422 | a fresh column showing the given unit, range and selected value |
| TimePickers.StatesOf | js/time-picker.js:539-544 | one state per column: its unit and its items |
| TimePickers.StatesOfShown | js/time-picker.js:539-548 | columns that show a plan look to `confirmSelection` like the plan's fresh columns |
| TimePickers.FirstOfKind | js/time-picker.js:238-240 | the index of the first column of a unit; no earlier column has it, and none means no column has it |

## Left out

- The DOM is not modelled: the overlay, the popup, the buttons, `show`, `hide` and `destroy`. Neither are the CSS classes beyond `selected`, or text nodes beyond an item's label.
- Event handlers and timers are not modelled: the debounced `scroll` listeners, the 10/50/100/150 ms `setTimeout`s, and the calls to `onConfirm` and `onCancel`. The model offers the operations those handlers call; in what order they run is left out.
- `scrollToSelected` (js/time-picker.js:441-449) runs from a timer after `createColumn`. It is not a separate operation here. Its offset is the one `Columns.SnapTarget` computes, for the selected item.
- Smooth scrolling is not modelled, and neither is the browser clamping `scrollTop` to the scrollable range. `SnapToClosestItem` sets the target offset at once.
- Layout is not computed: `offsetTop`, `offsetHeight` and the item height come in as a `Columns.Layout`. `Columns.SnapIsStable` assumes the items lie in ascending order.
- The rolling over of out-of-range fields by `new Date(...)` is not modelled, and neither is its mapping of years 0–99 to 1900–1999. `Formats.ParseDefaultValue` keeps the parsed fields as written; `defaultValue: "2024-02-31"` selects day 31 of month 2. Only `Calendar.GetDaysInMonth` models the rolling over it relies on.
- Time zones and the clock are not modelled: `new Date()` is the `now` parameter, and the current year is a parameter of `RenderColumns`.
- JavaScript numbers are IEEE doubles, and a `Date` only reaches 8.64e15 ms either side of 1970. The model's integers are unbounded, so the following lose their limits:
- Text.ParseInt: a numeral above 2^53 is not rounded as `parseInt` rounds it.
- Formats.ParseDefaultValue: `new Date(year, …)` with a year beyond ±275760 is an invalid date in the source, whose getters all give `NaN`. The model instead selects that year: in `year` mode 1 January of it, in the other modes the fields written.
- Bounds.ParseBound: bound years are not rounded.
- Bounds.YearSpan: the range is not limited to the years a `Date` can hold.
- Formats.ConfirmText: numbers print as their exact decimal numerals, with no exponent form for huge values.
- Formats.FormatColumnValue: the same holds for the labels.
- `Text.ParseInt` does not model the `0x` prefix, because `parseInt` without a radix reads it as hexadecimal.
- A `type` outside the five modes is not modelled: the source then renders no columns and confirms an empty text.
- `Object.assign` with an option explicitly set to `undefined` or `null` is not modelled: an absent option takes its default, any other is a string.
- Columns.Item does not store its label: `Columns.ItemText` computes it from the unit and the value, as `createColumn` writes it with `formatColumnValue`, and an empty text for padding.
- Columns.SelectedValue: a selected padding item would read as `NaN`, which the model conflates with no selection. No operation of the source selects a padding item.
- TimePickers.TimePicker.UpdateDayColumn: when the year or the month column has no selected item, the source throws a `TypeError`. The model then changes nothing.
- TimePickers.TimePicker.ConfirmSelection: where the source throws because a printed unit has no selection, the model returns `None`. `onConfirm` is then not called in either.
- Formats.ConfirmThenParse: proved only for four-digit years in `datetime`, `date` and `year-month`. Other years print with fewer or more digits, which the `\d{4}` patterns do not accept.
