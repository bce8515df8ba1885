/** The picker's five formats: reading the `defaultValue` option
    (parseDefaultValue), writing the confirmed value (confirmSelection) and
    labelling column items (formatColumnValue). */
module Formats {
  import opened Wrappers
  import opened Text

  /** The `type` option. */
  datatype Mode = DateTime | Date | YearMonth | Year | Time

  /** The unit a column shows: its `data-type`. */
  datatype Kind = YearColumn | MonthColumn | DayColumn | HourColumn | MinuteColumn

  /** `selectedDateTime`. The month is 1..12 as the month column shows it (the
      source stores JavaScript's zero-based month and adds one when
      rendering). `InvalidDate` is JavaScript's invalid date, whose getters
      all give `NaN`. */
  datatype Moment = At(year: int, month: int, day: int, hour: int, minute: int) | InvalidDate

  // ---------------------------------------------------------------------
  // The four `defaultValue` regular expressions

  /** An anchored pattern, read left to right: `\d{least,most}` (a captured
      digit group), a literal character, or `\s`, each followed by the rest
      of the pattern; `End` is `$`. */
  datatype Pattern =
    | End
    | Group(least: nat, most: nat, next: Pattern)
    | Lit(c: char, next: Pattern)
    | Blank(next: Pattern)

  /** `^(\d{4})-(\d{1,2})-(\d{1,2})\s(\d{1,2}):(\d{1,2})$` */
  const DATE_TIME_PATTERN :=
    Group(4, 4, Lit('-', Group(1, 2, Lit('-', Group(1, 2, Blank(Group(1, 2, Lit(':', Group(1, 2, End)))))))))
  /** `^(\d{4})-(\d{1,2})-(\d{1,2})$` */
  const DATE_PATTERN := Group(4, 4, Lit('-', Group(1, 2, Lit('-', Group(1, 2, End)))))
  /** `^(\d{4})-(\d{1,2})$` */
  const YEAR_MONTH_PATTERN := Group(4, 4, Lit('-', Group(1, 2, End)))
  /** `^(\d{1,2}):(\d{1,2})$` */
  const TIME_PATTERN := Group(1, 2, Lit(':', Group(1, 2, End)))

  function GroupCount(p: Pattern): nat {
    match p
    case End => 0
    case Group(_, _, next) => 1 + GroupCount(next)
    case Lit(_, next) => GroupCount(next)
    case Blank(next) => GroupCount(next)
  }

  /** Matches the whole of `s` against `p` and gives the values of the
      captured groups, in order. A digit group takes the longest run of
      digits there; in the four patterns each group is followed by a
      non-digit literal, `\s` or the end, where a shorter run can never lead
      to a match, so this is what the regular expression matches. */
  function Match(p: Pattern, s: string): (groups: Option<seq<nat>>)
    ensures groups.Some? ==> |groups.value| == GroupCount(p)
  {
    match p
    case End =>
      if s == [] then Some([]) else None
    case Lit(c, next) =>
      if s != [] && s[0] == c then Match(next, s[1..]) else None
    case Blank(next) =>
      if s != [] && IsSpace(s[0]) then Match(next, s[1..]) else None
    case Group(least, most, next) =>
      var run := TakeDigits(s);
      var rest := Match(next, s[|run|..]);
      if least <= |run| <= most && rest.Some? then Some([DigitsValue(run)] + rest.value) else None
  }

  /** What the regular expression itself accepts: `s` read as `p` with the
      texts `groups` in its digit groups. A `\d{least,most}` group is any run
      of that many digits (not necessarily the longest), a literal is that
      character, `\s` is any white-space character and `$` is the end of
      the text. */
  predicate Accepts(p: Pattern, s: string, groups: seq<string>) {
    match p
    case End => s == [] && groups == []
    case Lit(c, next) => s != [] && s[0] == c && Accepts(next, s[1..], groups)
    case Blank(next) => s != [] && IsSpace(s[0]) && Accepts(next, s[1..], groups)
    case Group(least, most, next) =>
      && groups != [] && AllDigits(groups[0]) && least <= |groups[0]| <= most
      && groups[0] <= s && Accepts(next, s[|groups[0]|..], groups[1..])
  }

  /** `groups` are what the regular expression `p` captures on `s`. */
  predicate Conforms(p: Pattern, s: string, groups: seq<string>) {
    DigitGroups(groups) && Accepts(p, s, groups)
  }

  /** `p` starts with something that never matches a digit. */
  predicate StartsWithNonDigit(p: Pattern) {
    p.End? || p.Blank? || (p.Lit? && !IsDigit(p.c))
  }

  /** Every digit group of `p` is followed by a non-digit or the end, so a
      group can only end where the run of digits ends. */
  predicate Delimited(p: Pattern) {
    match p
    case End => true
    case Lit(_, next) => Delimited(next)
    case Blank(next) => Delimited(next)
    case Group(_, _, next) => StartsWithNonDigit(next) && Delimited(next)
  }

  /** The four `defaultValue` patterns are delimited. */
  lemma PatternsDelimited()
    ensures Delimited(DATE_TIME_PATTERN) && Delimited(DATE_PATTERN)
    ensures Delimited(YEAR_MONTH_PATTERN) && Delimited(TIME_PATTERN)
  {
  }

  /** Text accepted by a pattern that starts with a non-digit is empty or
      starts with a non-digit. */
  lemma AcceptedHead(p: Pattern, s: string, groups: seq<string>)
    requires StartsWithNonDigit(p) && Accepts(p, s, groups)
    ensures s == [] || !IsDigit(s[0])
  {
  }

  /** Whatever `Match` finds, the regular expression accepts with the same
      values in its groups. */
  lemma {:induction false} MatchGroups(p: Pattern, s: string) returns (groups: seq<string>)
    requires Match(p, s).Some?
    ensures Conforms(p, s, groups) && GroupValues(groups) == Match(p, s).value
  {
    match p
    case End =>
      groups := [];
    case Lit(_, next) =>
      groups := MatchGroups(next, s[1..]);
    case Blank(next) =>
      groups := MatchGroups(next, s[1..]);
    case Group(_, _, next) =>
      var run := TakeDigits(s);
      TakeDigitsPrefix(s);
      var rest := MatchGroups(next, s[|run|..]);
      groups := [run] + rest;
      assert groups[0] == run && groups[1..] == rest;
      assert DigitGroups(groups) by {
        forall i | 0 < i < |groups| ensures AllDigits(groups[i]) {
          assert groups[i] == rest[i - 1];
        }
      }
  }

  /** On a delimited pattern, whatever the regular expression accepts is
      what `Match` finds. */
  lemma {:induction false} ConformingMatches(p: Pattern, s: string, groups: seq<string>)
    requires Delimited(p) && Conforms(p, s, groups)
    ensures Match(p, s) == Some(GroupValues(groups))
  {
    match p
    case End =>
    case Lit(_, next) =>
      ConformingMatches(next, s[1..], groups);
    case Blank(next) =>
      ConformingMatches(next, s[1..], groups);
    case Group(_, _, next) =>
      var run, rest := groups[0], s[|groups[0]|..];
      assert s == run + rest;
      AcceptedHead(next, rest, groups[1..]);
      TakeDigitsOfNumeral(run, rest);
      assert DigitGroups(groups[1..]) by {
        forall i | 0 <= i < |groups[1..]| ensures AllDigits(groups[1..][i]) {
          assert groups[1..][i] == groups[i + 1];
        }
      }
      ConformingMatches(next, rest, groups[1..]);
  }

  /** `Match` reads a delimited pattern as the regular expression does, in
      both directions: it gives `v` exactly when some texts the pattern
      accepts in its groups have the values `v`. */
  lemma MatchMeaning(p: Pattern, s: string, v: seq<nat>)
    requires Delimited(p)
    ensures Match(p, s) == Some(v) <==> exists groups :: Conforms(p, s, groups) && GroupValues(groups) == v
  {
    if Match(p, s) == Some(v) {
      var groups := MatchGroups(p, s);
    }
    if exists groups :: Conforms(p, s, groups) && GroupValues(groups) == v {
      var groups :| Conforms(p, s, groups) && GroupValues(groups) == v;
      ConformingMatches(p, s, groups);
    }
  }

  /** `parseDefaultValue`: the selection the `defaultValue` text sets, or
      `current` when the mode's pattern does not match. `now` is the clock
      (`new Date()`), whose date the `time` mode keeps. In `year` mode the
      text goes to `parseInt` unchecked; `NaN` makes an invalid date. The
      fields are returned as written: `Date`'s rolling over of out-of-range
      fields is not modelled. */
  function ParseDefaultValue(mode: Mode, text: string, current: Moment, now: Moment): (m: Moment)
    requires now.At?
  {
    match mode
    case DateTime =>
      var g := Match(DATE_TIME_PATTERN, text);
      if g.Some? then At(g.value[0], g.value[1], g.value[2], g.value[3], g.value[4]) else current
    case Date =>
      var g := Match(DATE_PATTERN, text);
      if g.Some? then At(g.value[0], g.value[1], g.value[2], 0, 0) else current
    case YearMonth =>
      var g := Match(YEAR_MONTH_PATTERN, text);
      if g.Some? then At(g.value[0], g.value[1], 1, 0, 0) else current
    case Year =>
      var y := ParseInt(text);
      if y.Some? then At(y.value, 1, 1, 0, 0) else InvalidDate
    case Time =>
      var g := Match(TIME_PATTERN, text);
      if g.Some? then At(now.year, now.month, now.day, g.value[0], g.value[1]) else current
  }

  /** What each mode can select: `year` gives 1 January of the parsed year,
      or an invalid date exactly when `parseInt` fails; the other modes keep
      the current selection or set a valid moment, `time` on the clock's
      date, `year-month` on day 1 at 00:00 and `date` at 00:00. */
  lemma DefaultValueShape(mode: Mode, text: string, current: Moment, now: Moment)
    requires now.At?
    ensures var m := ParseDefaultValue(mode, text, current, now);
      && (mode == Year ==> (m == InvalidDate <==> ParseInt(text) == None))
      && (mode == Year && m.At? ==> m == At(ParseInt(text).value, 1, 1, 0, 0))
      && (mode != Year && m != current ==> m.At?)
      && (mode == Time && m.At? && m != current ==>
            m.year == now.year && m.month == now.month && m.day == now.day)
      && (mode == YearMonth && m.At? && m != current ==> m.day == 1 && m.hour == 0 && m.minute == 0)
      && (mode == Date && m.At? && m != current ==> m.hour == 0 && m.minute == 0)
  {
  }

  /** The pattern `parseDefaultValue` tries in a mode; `year` mode has none. */
  function PatternOf(mode: Mode): Pattern
    requires mode != Year
  {
    match mode
    case DateTime => DATE_TIME_PATTERN
    case Date => DATE_PATTERN
    case YearMonth => YEAR_MONTH_PATTERN
    case Time => TIME_PATTERN
  }

  /** The fields of `m` that the mode's pattern writes, in the pattern's
      order. */
  function Written(mode: Mode, m: Moment): seq<int>
    requires mode != Year && m.At?
  {
    match mode
    case DateTime => [m.year, m.month, m.day, m.hour, m.minute]
    case Date => [m.year, m.month, m.day]
    case YearMonth => [m.year, m.month]
    case Time => [m.hour, m.minute]
  }

  /** Outside `year` mode, a text the mode's regular expression accepts
      selects exactly the numbers written in it, and a text it rejects keeps
      the current selection. */
  lemma DefaultValueFields(mode: Mode, text: string, current: Moment, now: Moment)
    requires mode != Year && now.At?
    ensures var m := ParseDefaultValue(mode, text, current, now);
      && (forall groups :: Conforms(PatternOf(mode), text, groups) ==>
            m.At? && GroupValues(groups) == Written(mode, m))
      && ((forall groups :: !Conforms(PatternOf(mode), text, groups)) ==> m == current)
  {
    var p := PatternOf(mode);
    var m := ParseDefaultValue(mode, text, current, now);
    PatternsDelimited();
    DefaultValueMatches(mode, text, current, now);
    forall groups | Conforms(p, text, groups)
      ensures m.At? && GroupValues(groups) == Written(mode, m)
    {
      ConformingMatches(p, text, groups);
    }
    if Match(p, text).Some? {
      var groups := MatchGroups(p, text);
    }
  }

  /** The same in terms of `Match`. */
  lemma DefaultValueMatches(mode: Mode, text: string, current: Moment, now: Moment)
    requires mode != Year && now.At?
    ensures var m, g := ParseDefaultValue(mode, text, current, now), Match(PatternOf(mode), text);
      && (g.Some? ==> m.At? && Written(mode, m) == g.value)
      && (g.None? ==> m == current)
  {
    match mode {
      case DateTime => DateTimeDefaultMatches(text, current, now);
      case Date => DateDefaultMatches(text, current, now);
      case YearMonth => YearMonthDefaultMatches(text, current, now);
      case Time => TimeDefaultMatches(text, current, now);
    }
  }

  lemma DateTimeDefaultMatches(text: string, current: Moment, now: Moment)
    requires now.At?
    ensures var m, g := ParseDefaultValue(DateTime, text, current, now), Match(DATE_TIME_PATTERN, text);
      && (g.Some? ==> m.At? && [m.year, m.month, m.day, m.hour, m.minute] == g.value)
      && (g.None? ==> m == current)
  {
    var g := Match(DATE_TIME_PATTERN, text);
    if g.Some? {
      var v := g.value;
      assert |v| == 5;
      assert v == [v[0], v[1], v[2], v[3], v[4]];
    }
  }

  lemma DateDefaultMatches(text: string, current: Moment, now: Moment)
    requires now.At?
    ensures var m, g := ParseDefaultValue(Date, text, current, now), Match(DATE_PATTERN, text);
      && (g.Some? ==> m.At? && [m.year, m.month, m.day] == g.value)
      && (g.None? ==> m == current)
  {
    var g := Match(DATE_PATTERN, text);
    if g.Some? {
      var v := g.value;
      assert |v| == 3;
      assert v == [v[0], v[1], v[2]];
    }
  }

  lemma YearMonthDefaultMatches(text: string, current: Moment, now: Moment)
    requires now.At?
    ensures var m, g := ParseDefaultValue(YearMonth, text, current, now), Match(YEAR_MONTH_PATTERN, text);
      && (g.Some? ==> m.At? && [m.year, m.month] == g.value)
      && (g.None? ==> m == current)
  {
    var g := Match(YEAR_MONTH_PATTERN, text);
    if g.Some? {
      var v := g.value;
      assert |v| == 2;
      assert v == [v[0], v[1]];
    }
  }

  lemma TimeDefaultMatches(text: string, current: Moment, now: Moment)
    requires now.At?
    ensures var m, g := ParseDefaultValue(Time, text, current, now), Match(TIME_PATTERN, text);
      && (g.Some? ==> m.At? && [m.hour, m.minute] == g.value)
      && (g.None? ==> m == current)
  {
    var g := Match(TIME_PATTERN, text);
    if g.Some? {
      var v := g.value;
      assert |v| == 2;
      assert v == [v[0], v[1]];
    }
  }

  // ---------------------------------------------------------------------
  // The confirmed value

  /** `v.toString().padStart(2, '0')` for the field of unit `k`; `None` when
      the column had no selected item, where the source's `.toString()` on
      `undefined` throws and no value is confirmed. */
  function TwoDigits(values: map<Kind, int>, k: Kind): Option<string> {
    if k in values then Some(PadTwo(IntToString(values[k]))) else None
  }

  /** `${selectedValues.year}` in a template: a missing year prints as
      "undefined" instead of throwing. */
  function YearText(values: map<Kind, int>): string {
    if YearColumn in values then IntToString(values[YearColumn]) else "undefined"
  }

  /** The units whose absence makes `confirmSelection` throw. */
  function Required(mode: Mode): set<Kind> {
    match mode
    case DateTime => {MonthColumn, DayColumn, HourColumn, MinuteColumn}
    case Date => {MonthColumn, DayColumn}
    case YearMonth => {MonthColumn}
    case Year => {YearColumn}
    case Time => {HourColumn, MinuteColumn}
  }

  /** The string `confirmSelection` passes to `onConfirm`, from the selected
      value of each column by unit; `None` when it throws instead. */
  function ConfirmText(mode: Mode, values: map<Kind, int>): (r: Option<string>)
    ensures r.Some? <==> Required(mode) <= values.Keys
  {
    match mode
    case DateTime =>
      if Required(mode) <= values.Keys then
        Some(YearText(values) + "-" + TwoDigits(values, MonthColumn).value + "-" + TwoDigits(values, DayColumn).value
             + " " + TwoDigits(values, HourColumn).value + ":" + TwoDigits(values, MinuteColumn).value)
      else None
    case Date =>
      if Required(mode) <= values.Keys then
        Some(YearText(values) + "-" + TwoDigits(values, MonthColumn).value + "-" + TwoDigits(values, DayColumn).value)
      else None
    case YearMonth =>
      if Required(mode) <= values.Keys then
        Some(YearText(values) + "-" + TwoDigits(values, MonthColumn).value)
      else None
    case Year =>
      if YearColumn in values then Some(IntToString(values[YearColumn])) else None
    case Time =>
      if Required(mode) <= values.Keys then
        Some(TwoDigits(values, HourColumn).value + ":" + TwoDigits(values, MinuteColumn).value)
      else None
  }

  /** The selected values of a moment, one per unit of the mode. */
  function FieldsOf(mode: Mode, year: int, month: int, day: int, hour: int, minute: int): map<Kind, int> {
    match mode
    case DateTime =>
      map[YearColumn := year, MonthColumn := month, DayColumn := day, HourColumn := hour, MinuteColumn := minute]
    case Date => map[YearColumn := year, MonthColumn := month, DayColumn := day]
    case YearMonth => map[YearColumn := year, MonthColumn := month]
    case Year => map[YearColumn := year]
    case Time => map[HourColumn := hour, MinuteColumn := minute]
  }

  // ---------------------------------------------------------------------
  // Confirmed text read back as a default value

  /** Whether `g` can fill a `\d{least,most}` group. */
  predicate Numeral(g: string, least: nat, most: nat) {
    AllDigits(g) && least <= |g| <= most
  }

  /** Whether `groups` can fill the digit groups of `p`: numerals of the
      allowed widths, each followed by a literal that is not a digit, by
      `\s` or by the end. */
  predicate Fits(p: Pattern, groups: seq<string>) {
    match p
    case End => groups == []
    case Group(least, most, next) =>
      groups != [] && Numeral(groups[0], least, most) && !next.Group? && Fits(next, groups[1..])
    case Lit(c, next) => !IsDigit(c) && Fits(next, groups)
    case Blank(next) => Fits(next, groups)
  }

  /** The text `p` describes with `groups` in its digit groups and a blank
      for `\s`. */
  function Fill(p: Pattern, groups: seq<string>): string
    requires Fits(p, groups)
  {
    match p
    case End => ""
    case Group(_, _, next) => groups[0] + Fill(next, groups[1..])
    case Lit(c, next) => [c] + Fill(next, groups)
    case Blank(next) => " " + Fill(next, groups)
  }

  predicate DigitGroups(groups: seq<string>) {
    forall i :: 0 <= i < |groups| ==> AllDigits(groups[i])
  }

  function GroupValues(groups: seq<string>): seq<nat>
    requires DigitGroups(groups)
  {
    if groups == [] then [] else [DigitsValue(groups[0])] + GroupValues(groups[1..])
  }

  lemma {:induction false} FitsAllDigits(p: Pattern, groups: seq<string>)
    requires Fits(p, groups)
    ensures forall i :: 0 <= i < |groups| ==> AllDigits(groups[i])
  {
    match p
    case End =>
    case Group(_, _, next) =>
      FitsAllDigits(next, groups[1..]);
      forall i | 0 < i < |groups| ensures AllDigits(groups[i]) {
        assert groups[i] == groups[1..][i - 1];
      }
    case Lit(_, next) => FitsAllDigits(next, groups);
    case Blank(next) => FitsAllDigits(next, groups);
  }

  /** Matching a filled-in pattern recovers the values of the groups. */
  lemma {:induction false} MatchFill(p: Pattern, groups: seq<string>)
    requires Fits(p, groups)
    ensures forall i :: 0 <= i < |groups| ==> AllDigits(groups[i])
    ensures Match(p, Fill(p, groups)) == Some(GroupValues(groups))
  {
    FitsAllDigits(p, groups);
    var s := Fill(p, groups);
    match p
    case End =>
    case Group(_, _, next) =>
      var rest := Fill(next, groups[1..]);
      assert rest == [] || !IsDigit(rest[0]);
      TakeDigitsOfNumeral(groups[0], rest);
      assert s[|groups[0]|..] == rest;
      MatchFill(next, groups[1..]);
    case Lit(_, next) =>
      assert s[1..] == Fill(next, groups);
      MatchFill(next, groups);
    case Blank(next) =>
      assert s[1..] == Fill(next, groups);
      MatchFill(next, groups);
  }

  /** Two-digit fields print as what the `\d{1,2}` groups read. */
  lemma TwoDigitGroup(n: nat)
    requires n < 100
    ensures var g := PadTwo(IntToString(n));
      AllDigits(g) && 1 <= |g| <= 2 && DigitsValue(g) == n
  {
    TwoDigitNumeral(n);
  }

  /** Four-digit years print as what the `\d{4}` group reads. */
  lemma FourDigitGroup(n: nat)
    requires 1000 <= n <= 9999
    ensures var g := IntToString(n);
      AllDigits(g) && |g| == 4 && DigitsValue(g) == n
  {
    NatToStringLength(n);
    NatToStringValue(n);
    NatToStringDigits(n);
  }

  lemma DateTimeFill(y: string, mo: string, d: string, h: string, mi: string)
    requires Numeral(y, 4, 4) && Numeral(mo, 1, 2) && Numeral(d, 1, 2) && Numeral(h, 1, 2) && Numeral(mi, 1, 2)
    ensures Fits(DATE_TIME_PATTERN, [y, mo, d, h, mi])
    ensures Fill(DATE_TIME_PATTERN, [y, mo, d, h, mi]) == y + "-" + mo + "-" + d + " " + h + ":" + mi
  {
    var minutes := Group(1, 2, End);
    var hours := Group(1, 2, Lit(':', minutes));
    var days := Group(1, 2, Blank(hours));
    var months := Group(1, 2, Lit('-', days));
    assert [mi][1..] == [];
    assert Fill(End, []) == "";
    assert Fits(minutes, [mi]);
    assert Fill(minutes, [mi]) == mi + "";
    assert mi + "" == mi;
    assert [h, mi][1..] == [mi];
    assert Fits(hours, [h, mi]) && Fill(hours, [h, mi]) == h + (":" + mi);
    assert [d, h, mi][1..] == [h, mi];
    assert Fits(days, [d, h, mi]) && Fill(days, [d, h, mi]) == d + (" " + (h + (":" + mi)));
    assert [mo, d, h, mi][1..] == [d, h, mi];
    assert Fits(months, [mo, d, h, mi]);
    assert Fill(months, [mo, d, h, mi]) == mo + ("-" + (d + (" " + (h + (":" + mi)))));
    assert [y, mo, d, h, mi][1..] == [mo, d, h, mi];
    assert Fill(DATE_TIME_PATTERN, [y, mo, d, h, mi]) == y + ("-" + (mo + ("-" + (d + (" " + (h + (":" + mi)))))));
    Reassociate(y, "-", mo, "-", d, " ", h, ":", mi);
  }

  lemma Reassociate<T>(a: seq<T>, b: seq<T>, c: seq<T>, d: seq<T>, e: seq<T>, f: seq<T>, g: seq<T>, h: seq<T>, i: seq<T>)
    ensures a + b + c + d + e + f + g + h + i == a + (b + (c + (d + (e + (f + (g + (h + i)))))))
  {
  }

  lemma ReassociateFive<T>(a: seq<T>, b: seq<T>, c: seq<T>, d: seq<T>, e: seq<T>)
    ensures a + b + c + d + e == a + (b + (c + (d + e)))
  {
  }

  lemma DateTimeRoundTrip(year: nat, month: nat, day: nat, hour: nat, minute: nat)
    requires 1000 <= year <= 9999 && month < 100 && day < 100 && hour < 100 && minute < 100
    ensures var text := ConfirmText(DateTime, FieldsOf(DateTime, year, month, day, hour, minute));
      text.Some? && Match(DATE_TIME_PATTERN, text.value) == Some([year, month, day, hour, minute])
  {
    var y, mo, d, h, mi := IntToString(year), PadTwo(IntToString(month)), PadTwo(IntToString(day)),
                           PadTwo(IntToString(hour)), PadTwo(IntToString(minute));
    FourDigitGroup(year);
    TwoDigitGroup(month);
    TwoDigitGroup(day);
    TwoDigitGroup(hour);
    TwoDigitGroup(minute);
    var groups := [y, mo, d, h, mi];
    DateTimeText(year, month, day, hour, minute);
    DateTimeFill(y, mo, d, h, mi);
    MatchFill(DATE_TIME_PATTERN, groups);
    GroupValuesOfFive(y, mo, d, h, mi);
  }

  /** The `datetime` text of five fields. */
  lemma DateTimeText(year: int, month: int, day: int, hour: int, minute: int)
    ensures ConfirmText(DateTime, FieldsOf(DateTime, year, month, day, hour, minute))
         == Some(IntToString(year) + "-" + PadTwo(IntToString(month)) + "-" + PadTwo(IntToString(day))
                 + " " + PadTwo(IntToString(hour)) + ":" + PadTwo(IntToString(minute)))
  {
    var values := FieldsOf(DateTime, year, month, day, hour, minute);
    assert values[YearColumn] == year && values[MonthColumn] == month && values[DayColumn] == day;
    assert values[HourColumn] == hour && values[MinuteColumn] == minute;
  }

  lemma GroupValuesOfFive(a: string, b: string, c: string, d: string, e: string)
    requires AllDigits(a) && AllDigits(b) && AllDigits(c) && AllDigits(d) && AllDigits(e)
    ensures GroupValues([a, b, c, d, e]) == [DigitsValue(a), DigitsValue(b), DigitsValue(c), DigitsValue(d), DigitsValue(e)]
  {
    var groups := [a, b, c, d, e];
    assert groups[4..] == [e] && groups[3..] == [d, e] && groups[2..] == [c, d, e] && groups[1..] == [b, c, d, e];
    assert GroupValues(groups[4..]) == [DigitsValue(e)];
    assert GroupValues(groups[3..]) == [DigitsValue(d), DigitsValue(e)];
    assert GroupValues(groups[2..]) == [DigitsValue(c), DigitsValue(d), DigitsValue(e)];
    assert GroupValues(groups[1..]) == [DigitsValue(b), DigitsValue(c), DigitsValue(d), DigitsValue(e)];
  }

  lemma DateFill(y: string, mo: string, d: string)
    requires Numeral(y, 4, 4) && Numeral(mo, 1, 2) && Numeral(d, 1, 2)
    ensures Fits(DATE_PATTERN, [y, mo, d])
    ensures Fill(DATE_PATTERN, [y, mo, d]) == y + "-" + mo + "-" + d
  {
    var days := Group(1, 2, End);
    var months := Group(1, 2, Lit('-', days));
    assert [d][1..] == [];
    assert Fill(End, []) == "";
    assert Fits(days, [d]);
    assert Fill(days, [d]) == d + "";
    assert d + "" == d;
    assert [mo, d][1..] == [d];
    assert Fits(months, [mo, d]) && Fill(months, [mo, d]) == mo + ("-" + d);
    assert [y, mo, d][1..] == [mo, d];
    assert Fits(Lit('-', months), [mo, d]);
    assert Fill(Lit('-', months), [mo, d]) == "-" + (mo + ("-" + d));
    assert Fits(DATE_PATTERN, [y, mo, d]);
    assert Fill(DATE_PATTERN, [y, mo, d]) == y + ("-" + (mo + ("-" + d)));
    ReassociateFive(y, "-", mo, "-", d);
  }

  lemma YearMonthFill(y: string, mo: string)
    requires Numeral(y, 4, 4) && Numeral(mo, 1, 2)
    ensures Fits(YEAR_MONTH_PATTERN, [y, mo])
    ensures Fill(YEAR_MONTH_PATTERN, [y, mo]) == y + "-" + mo
  {
    var months := Group(1, 2, End);
    assert [mo][1..] == [];
    assert Fill(End, []) == "";
    assert Fits(months, [mo]);
    assert Fill(months, [mo]) == mo + "";
    assert mo + "" == mo;
    assert [y, mo][1..] == [mo];
  }

  lemma TimeFill(h: string, mi: string)
    requires Numeral(h, 1, 2) && Numeral(mi, 1, 2)
    ensures Fits(TIME_PATTERN, [h, mi])
    ensures Fill(TIME_PATTERN, [h, mi]) == h + ":" + mi
  {
    var minutes := Group(1, 2, End);
    assert [mi][1..] == [];
    assert Fill(End, []) == "";
    assert Fits(minutes, [mi]);
    assert Fill(minutes, [mi]) == mi + "";
    assert mi + "" == mi;
    assert [h, mi][1..] == [mi];
  }

  lemma DateRoundTrip(year: nat, month: nat, day: nat)
    requires 1000 <= year <= 9999 && month < 100 && day < 100
    ensures var text := ConfirmText(Date, FieldsOf(Date, year, month, day, 0, 0));
      text.Some? && Match(DATE_PATTERN, text.value) == Some([year, month, day])
  {
    var y, mo, d := IntToString(year), PadTwo(IntToString(month)), PadTwo(IntToString(day));
    FourDigitGroup(year);
    TwoDigitGroup(month);
    TwoDigitGroup(day);
    var groups := [y, mo, d];
    DateText(year, month, day);
    DateFill(y, mo, d);
    MatchFill(DATE_PATTERN, groups);
    GroupValuesOfThree(y, mo, d);
  }

  /** The `date` text of three fields. */
  lemma DateText(year: int, month: int, day: int)
    ensures ConfirmText(Date, FieldsOf(Date, year, month, day, 0, 0))
         == Some(IntToString(year) + "-" + PadTwo(IntToString(month)) + "-" + PadTwo(IntToString(day)))
  {
    var values := FieldsOf(Date, year, month, day, 0, 0);
    assert values[YearColumn] == year && values[MonthColumn] == month && values[DayColumn] == day;
  }

  lemma GroupValuesOfThree(a: string, b: string, c: string)
    requires AllDigits(a) && AllDigits(b) && AllDigits(c)
    ensures GroupValues([a, b, c]) == [DigitsValue(a), DigitsValue(b), DigitsValue(c)]
  {
    var groups := [a, b, c];
    assert groups[2..] == [c] && groups[1..] == [b, c];
    assert GroupValues(groups[2..]) == [DigitsValue(c)];
    assert GroupValues(groups[1..]) == [DigitsValue(b), DigitsValue(c)];
  }

  lemma YearMonthRoundTrip(year: nat, month: nat)
    requires 1000 <= year <= 9999 && month < 100
    ensures var text := ConfirmText(YearMonth, FieldsOf(YearMonth, year, month, 1, 0, 0));
      text.Some? && Match(YEAR_MONTH_PATTERN, text.value) == Some([year, month])
  {
    var y, mo := IntToString(year), PadTwo(IntToString(month));
    FourDigitGroup(year);
    TwoDigitGroup(month);
    var groups := [y, mo];
    YearMonthText(year, month);
    YearMonthFill(y, mo);
    MatchFill(YEAR_MONTH_PATTERN, groups);
    GroupValuesOfTwo(y, mo);
  }

  /** The `year-month` text of two fields. */
  lemma YearMonthText(year: int, month: int)
    ensures ConfirmText(YearMonth, FieldsOf(YearMonth, year, month, 1, 0, 0))
         == Some(IntToString(year) + "-" + PadTwo(IntToString(month)))
  {
    var values := FieldsOf(YearMonth, year, month, 1, 0, 0);
    assert values[YearColumn] == year && values[MonthColumn] == month;
  }

  lemma GroupValuesOfTwo(a: string, b: string)
    requires AllDigits(a) && AllDigits(b)
    ensures GroupValues([a, b]) == [DigitsValue(a), DigitsValue(b)]
  {
    var groups := [a, b];
    assert groups[1..] == [b];
    assert GroupValues(groups[1..]) == [DigitsValue(b)];
  }

  lemma TimeRoundTrip(hour: nat, minute: nat)
    requires hour < 100 && minute < 100
    ensures var text := ConfirmText(Time, FieldsOf(Time, 0, 1, 1, hour, minute));
      text.Some? && Match(TIME_PATTERN, text.value) == Some([hour, minute])
  {
    var h, mi := PadTwo(IntToString(hour)), PadTwo(IntToString(minute));
    TwoDigitGroup(hour);
    TwoDigitGroup(minute);
    var groups := [h, mi];
    TimeText(hour, minute);
    TimeFill(h, mi);
    MatchFill(TIME_PATTERN, groups);
    GroupValuesOfTwo(h, mi);
  }

  /** The `time` text of two fields. */
  lemma TimeText(hour: int, minute: int)
    ensures ConfirmText(Time, FieldsOf(Time, 0, 1, 1, hour, minute))
         == Some(PadTwo(IntToString(hour)) + ":" + PadTwo(IntToString(minute)))
  {
    var values := FieldsOf(Time, 0, 1, 1, hour, minute);
    assert values[HourColumn] == hour && values[MinuteColumn] == minute;
  }

  /** What reading a confirmed value back as `defaultValue` selects. */
  function Restored(mode: Mode, year: int, month: int, day: int, hour: int, minute: int, now: Moment): Moment
    requires now.At?
  {
    match mode
    case DateTime => At(year, month, day, hour, minute)
    case Date => At(year, month, day, 0, 0)
    case YearMonth => At(year, month, 1, 0, 0)
    case Year => At(year, 1, 1, 0, 0)
    case Time => At(now.year, now.month, now.day, hour, minute)
  }

  /** A confirmed value, given back as the `defaultValue` of a picker of the
      same mode, selects the same fields again (the time mode keeps today's
      date), provided the year has four digits: the year is printed without
      padding while the patterns ask for exactly four digits. */
  lemma ConfirmThenParse(mode: Mode, year: int, month: nat, day: nat, hour: nat, minute: nat,
                         current: Moment, now: Moment)
    requires now.At?
    requires mode in {DateTime, Date, YearMonth} ==> 1000 <= year <= 9999
    requires month < 100 && day < 100 && hour < 100 && minute < 100
    ensures var text := ConfirmText(mode, FieldsOf(mode, year, month, day, hour, minute));
      text.Some? && ParseDefaultValue(mode, text.value, current, now) == Restored(mode, year, month, day, hour, minute, now)
  {
    match mode
    case DateTime => DateTimeRoundTrip(year, month, day, hour, minute);
    case Date =>
      DateRoundTrip(year, month, day);
      assert FieldsOf(Date, year, month, day, hour, minute) == FieldsOf(Date, year, month, day, 0, 0);
    case YearMonth =>
      YearMonthRoundTrip(year, month);
      assert FieldsOf(YearMonth, year, month, day, hour, minute) == FieldsOf(YearMonth, year, month, 1, 0, 0);
    case Year =>
      ParseIntOfNumeral(year, "");
      assert IntToString(year) + "" == IntToString(year);
    case Time =>
      TimeRoundTrip(hour, minute);
      assert FieldsOf(Time, year, month, day, hour, minute) == FieldsOf(Time, 0, 1, 1, hour, minute);
  }

  /** Sample confirmed values: (2024, 3, 15, 9, 30) in `datetime` mode,
      (5, 7) in `time` mode and 1999 in `year` mode. */
  lemma DateTimeExample()
    ensures ConfirmText(DateTime, FieldsOf(DateTime, 2024, 3, 15, 9, 30)) == Some("2024-03-15 09:30")
  {
    DateTimeText(2024, 3, 15, 9, 30);
    ExampleJoined();
  }

  lemma ExampleJoined()
    ensures IntToString(2024) + "-" + PadTwo(IntToString(3)) + "-" + PadTwo(IntToString(15))
            + " " + PadTwo(IntToString(9)) + ":" + PadTwo(IntToString(30)) == "2024-03-15 09:30"
  {
    ExampleYear();
    ExampleFields();
    assert "2024" + "-" + "03" + "-" + "15" + " " + "09" + ":" + "30" == "2024-03-15 09:30";
  }

  lemma ExampleYear()
    ensures IntToString(2024) == "2024"
  {
    assert NatToString(20) == "20";
    assert NatToString(202) == "202";
  }

  lemma ExampleFields()
    ensures PadTwo(IntToString(3)) == "03" && PadTwo(IntToString(15)) == "15"
    ensures PadTwo(IntToString(9)) == "09" && PadTwo(IntToString(30)) == "30"
  {
    assert NatToString(3) == "3";
    assert NatToString(15) == "15";
    assert NatToString(9) == "9";
    assert NatToString(30) == "30";
  }

  lemma TimeExample()
    ensures ConfirmText(Time, FieldsOf(Time, 0, 1, 1, 5, 7)) == Some("05:07")
  {
    var values := FieldsOf(Time, 0, 1, 1, 5, 7);
    assert TwoDigits(values, HourColumn) == Some("05") by {
      assert NatToString(5) == "5";
      assert PadTwo("5") == "05";
    }
    assert TwoDigits(values, MinuteColumn) == Some("07") by {
      assert NatToString(7) == "7";
      assert PadTwo("7") == "07";
    }
    assert Required(Time) <= values.Keys;
    assert "05" + ":" + "07" == "05:07";
  }

  lemma YearExample()
    ensures ConfirmText(Year, FieldsOf(Year, 1999, 1, 1, 0, 0)) == Some("1999")
  {
    assert IntToString(1999) == "1999" by {
      assert NatToString(19) == "19";
      assert NatToString(199) == "199";
    }
  }

  // ---------------------------------------------------------------------
  // Item labels

  /** The unit character after each label: 年 月 日 时 分. */
  function UnitSuffix(kind: Kind): (c: char)
    ensures !IsDigit(c)
  {
    match kind
    case YearColumn => '\U{5E74}'
    case MonthColumn => '\U{6708}'
    case DayColumn => '\U{65E5}'
    case HourColumn => '\U{65F6}'
    case MinuteColumn => '\U{5206}'
  }

  /** `formatColumnValue`: an item's text, the year as printed and the other
      units padded to two digits, followed by the unit character. */
  function FormatColumnValue(kind: Kind, value: int): string {
    if kind == YearColumn then IntToString(value) + [UnitSuffix(kind)]
    else PadTwo(IntToString(value)) + [UnitSuffix(kind)]
  }

  /** Every label reads back, through `parseInt`, as the value it shows. */
  lemma LabelReadsBack(kind: Kind, value: int)
    ensures ParseInt(FormatColumnValue(kind, value)) == Some(value)
  {
    var suffix := [UnitSuffix(kind)];
    if kind == YearColumn || value < 0 || value >= 10 {
      if kind != YearColumn {
        NatToStringLength(if value < 0 then -value else value);
        assert PadTwo(IntToString(value)) == IntToString(value);
      }
      ParseIntOfNumeral(value, suffix);
    } else {
      var d := NatToString(value);
      NatToStringLength(value);
      NatToStringValue(value);
      LeadingZeroValue(d);
      assert FormatColumnValue(kind, value) == "0" + d + suffix;
      ParseIntOfDigits("0" + d, suffix);
    }
  }

  /** Below 100, a label other than the year's is two digits and the unit. */
  lemma TwoDigitLabel(kind: Kind, value: nat)
    requires kind != YearColumn && value < 100
    ensures var text := FormatColumnValue(kind, value);
      && |text| == 3
      && AllDigits(text[..2]) && DigitsValue(text[..2]) == value
      && text[2] == UnitSuffix(kind)
  {
    TwoDigitNumeral(value);
    var digits := PadTwo(IntToString(value));
    assert digits == PadTwo(NatToString(value));
    assert (digits + [UnitSuffix(kind)])[..2] == digits;
  }
}
