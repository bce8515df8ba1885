/** The `minDate` and `maxDate` options, "YYYY[-MM[-DD]]" strings, and the
    range of the year column they bound (js/time-picker.js, parseMinMaxDates
    and the render methods). */
module Bounds {
  import opened Wrappers
  import opened Text

  /** The year is `None` when `parseInt` gives `NaN`. */
  datatype DateBound = DateBound(year: Option<int>, month: int, day: int)

  const DEFAULT_MIN_DATE := "1900-01-01"
  const DEFAULT_MAX_DATE := "2099-12-31"

  /** How far the year column reaches on either side of the current year. */
  const YEAR_WINDOW := 50

  /** `parseInt(parts[i])`; a field past the end is `undefined`, which
      `parseInt` turns into `NaN`. */
  function ParseField(parts: seq<string>, i: nat): (r: Option<int>)
    ensures i >= |parts| ==> r == None
  {
    if i < |parts| then ParseInt(parts[i]) else None
  }

  /** Falsy for `||`: `NaN` and 0. */
  predicate Falsy(parsed: Option<int>) {
    parsed == None || parsed == Some(0)
  }

  /** `parsed || fallback`: `NaN` and 0 are falsy and give the fallback. */
  function OrFallback(parsed: Option<int>, fallback: int): (r: int)
    ensures !Falsy(parsed) ==> Some(r) == parsed
    ensures Falsy(parsed) ==> r == fallback
  {
    if parsed.Some? && parsed.value != 0 then parsed.value else fallback
  }

  /** One bound: split on '-', the year from the first field, month and day
      from the second and third, each replaced by its fallback when missing,
      zero or not a number. */
  function ParseBound(text: string, monthFallback: int, dayFallback: int): (b: DateBound)
    ensures monthFallback != 0 ==> b.month != 0
    ensures dayFallback != 0 ==> b.day != 0
  {
    var parts := Split(text, '-');
    DateBound(ParseInt(parts[0]), OrFallback(ParseField(parts, 1), monthFallback),
              OrFallback(ParseField(parts, 2), dayFallback))
  }

  /** `this.minDate`; month and day are never 0. */
  function ParseMinDate(text: string): (b: DateBound)
    ensures b.month != 0 && b.day != 0
  {
    ParseBound(text, 1, 1)
  }

  /** `this.maxDate`; month and day are never 0. */
  function ParseMaxDate(text: string): (b: DateBound)
    ensures b.month != 0 && b.day != 0
  {
    ParseBound(text, 12, 31)
  }

  /** The year of `minDate` is `parseInt` of its first field; a month or day
      that is missing, zero or not a number becomes 1, any other is kept. */
  lemma MinDateFields(text: string)
    ensures var parts, b := Split(text, '-'), ParseMinDate(text);
      && b.year == ParseInt(parts[0])
      && (Falsy(ParseField(parts, 1)) ==> b.month == 1)
      && (!Falsy(ParseField(parts, 1)) ==> Some(b.month) == ParseField(parts, 1))
      && (Falsy(ParseField(parts, 2)) ==> b.day == 1)
      && (!Falsy(ParseField(parts, 2)) ==> Some(b.day) == ParseField(parts, 2))
  {
  }

  /** The same for `maxDate`, whose fallbacks are month 12 and day 31. */
  lemma MaxDateFields(text: string)
    ensures var parts, b := Split(text, '-'), ParseMaxDate(text);
      && b.year == ParseInt(parts[0])
      && (Falsy(ParseField(parts, 1)) ==> b.month == 12)
      && (!Falsy(ParseField(parts, 1)) ==> Some(b.month) == ParseField(parts, 1))
      && (Falsy(ParseField(parts, 2)) ==> b.day == 31)
      && (!Falsy(ParseField(parts, 2)) ==> Some(b.day) == ParseField(parts, 2))
  {
  }

  /** A full "Y-M-D" bound with a non-negative year and non-zero month and day
      is read exactly; the fallbacks play no part. */
  lemma ParseFullBound(year: nat, month: nat, day: nat, monthFallback: int, dayFallback: int)
    requires month != 0 && day != 0
    ensures ParseBound(NatToString(year) + "-" + NatToString(month) + "-" + NatToString(day),
                       monthFallback, dayFallback)
         == DateBound(Some(year), month, day)
  {
    var y, m, d := NatToString(year), NatToString(month), NatToString(day);
    NatToStringDigits(year);
    NatToStringDigits(month);
    NatToStringDigits(day);
    SplitNumerals(y, m, d);
    ParseNumeral(year);
    ParseNumeral(month);
    ParseNumeral(day);
  }

  lemma SplitNumerals(y: string, m: string, d: string)
    requires AllDigits(y) && AllDigits(m) && AllDigits(d)
    ensures Split(y + "-" + m + "-" + d, '-') == [y, m, d]
  {
    var parts := [y, m, d];
    JoinThree(y, m, d, '-');
    NoDashInDigits(y);
    NoDashInDigits(m);
    NoDashInDigits(d);
    SplitJoin(parts, '-');
  }

  lemma JoinThree(a: string, b: string, c: string, sep: char)
    ensures Join([a, b, c], sep) == a + [sep] + b + [sep] + c
  {
    assert [a, b, c][1..] == [b, c];
    assert [b, c][1..] == [c];
    assert Join([b, c], sep) == b + [sep] + c;
    assert Join([a, b, c], sep) == a + [sep] + (b + [sep] + c);
  }

  lemma NoDashInDigits(s: string)
    requires AllDigits(s)
    ensures '-' !in s
  {
  }

  lemma ParseNumeral(n: nat)
    ensures ParseInt(NatToString(n)) == Some(n as int)
  {
    ParseIntOfNumeral(n, "");
    assert IntToString(n) + "" == NatToString(n);
  }

  /** A bound that is only a year takes both fallbacks: "2030" as `maxDate`
      stands for 31 December 2030. */
  lemma ParseYearOnlyBound(year: nat, monthFallback: int, dayFallback: int)
    ensures ParseBound(NatToString(year), monthFallback, dayFallback)
         == DateBound(Some(year), monthFallback, dayFallback)
  {
    var y := NatToString(year);
    assert '-' !in y by {
      NatToStringDigits(year);
    }
    assert Split(y, '-') == [y];
    ParseNumeral(year);
  }

  predicate Within(y: int, first: int, last: int) {
    first <= y <= last
  }

  /** The year column's first and last year: the configured bounds cut to
      `currentYear ± YEAR_WINDOW` (`Math.max` / `Math.min`). `None` when either
      bound's year is `NaN`: `Math.max` and `Math.min` give `NaN`, and the
      column's loop then runs zero times. */
  function YearSpan(minYear: Option<int>, maxYear: Option<int>, currentYear: int): (span: Option<(int, int)>)
    ensures span.Some? <==> minYear.Some? && maxYear.Some?
    ensures span.Some? ==> forall y ::
      Within(y, span.value.0, span.value.1) <==>
        Within(y, minYear.value, maxYear.value) && Within(y, currentYear - YEAR_WINDOW, currentYear + YEAR_WINDOW)
    ensures span.Some? ==> span.value.0 >= currentYear - YEAR_WINDOW && span.value.1 <= currentYear + YEAR_WINDOW
  {
    if minYear.Some? && maxYear.Some? then
      var first := if minYear.value > currentYear - YEAR_WINDOW then minYear.value else currentYear - YEAR_WINDOW;
      var last := if maxYear.value < currentYear + YEAR_WINDOW then maxYear.value else currentYear + YEAR_WINDOW;
      Some((first, last))
    else
      None
  }
}
