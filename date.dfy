/** Calendar arithmetic and the month-grid builder of the year view.
    JavaScript `Date` is replaced by `CivilDate` (year, 0-based month,
    day of month) and an arithmetic weekday on the proleptic Gregorian
    calendar; the current date is an explicit `today` parameter. */
module DateUtils {

  import opened Optional
  import opened JsText
  import opened CalendarTypes

  // ---------------------------------------------------------------------
  // Leap years and month lengths

  predicate IsLeapYear(year: int) {
    (year % 4 == 0 && year % 100 != 0) || year % 400 == 0
  }

  /** The number of days of a 0-based month. */
  function DaysInMonth(year: int, month: int): (n: int)
    requires 0 <= month < 12
    ensures 28 <= n <= 31
    ensures month == 1 ==> (n == 29 <==> IsLeapYear(year)) && (n == 28 <==> !IsLeapYear(year))
    ensures month != 1 ==> n == [31, 28, 31, 30, 31, 30, 31, 31, 30, 31, 30, 31][month]
  {
    var daysPerMonth := [31, 28, 31, 30, 31, 30, 31, 31, 30, 31, 30, 31];
    if month == 1 && IsLeapYear(year) then 29 else daysPerMonth[month]
  }

  /** The Gregorian rule, case by case: centuries are leap years only
      when divisible by 400. */
  lemma LeapYearRule(year: int)
    ensures year % 400 == 0 ==> IsLeapYear(year)
    ensures year % 100 == 0 && year % 400 != 0 ==> !IsLeapYear(year)
    ensures year % 4 == 0 && year % 100 != 0 ==> IsLeapYear(year)
    ensures year % 4 != 0 ==> !IsLeapYear(year)
  {
  }

  lemma FebruaryExamples()
    ensures DaysInMonth(2024, 1) == 29 && DaysInMonth(2023, 1) == 28
    ensures DaysInMonth(2000, 1) == 29 && DaysInMonth(1900, 1) == 28
  {
  }

  // ---------------------------------------------------------------------
  // Dates and weekdays

  /** A local calendar date as `Date` exposes it: `getFullYear()`,
      `getMonth()` (0-based) and `getDate()`. */
  datatype CivilDate = CivilDate(year: int, month: int, day: int)

  /** Days from 0000-03-01 to March 1 of the March-based year `y` of the
      proleptic Gregorian calendar (the year that runs from March of `y`
      to February of `y + 1`). */
  function YearStart(y: int): int {
    var era := y / 400;
    var yoe := y % 400;
    era * 146097 + yoe * 365 + yoe / 4 - yoe / 100
  }

  /** Days from March 1 to the first of the month `mp` months later. */
  function MonthOffset(mp: int): int
    requires 0 <= mp < 12
  {
    (153 * mp + 2) / 5
  }

  /** Days from 1970-01-01 to the first of a 0-based month. */
  function MonthStart(year: int, month: int): int
    requires 0 <= month < 12
  {
    var y := if month < 2 then year - 1 else year;
    YearStart(y) + MonthOffset((month + 10) % 12) - 719468
  }

  /** Days from 1970-01-01 to `date`. A day past the end of the month
      runs into the next month, as the `Date` constructor does. */
  function DaysSinceEpoch(date: CivilDate): int
    requires 0 <= date.month < 12
  {
    MonthStart(date.year, date.month) + date.day - 1
  }

  /** `new Date(year, month, day).getDay()`: 0 is Sunday. */
  function GetDay(date: CivilDate): (w: int)
    requires 0 <= date.month < 12
    ensures 0 <= w < 7
  {
    (DaysSinceEpoch(date) + 4) % 7
  }

  /** 1970-01-01 was a Thursday and 2024-01-01 a Monday. */
  lemma GetDayAnchors()
    ensures GetDay(CivilDate(1970, 0, 1)) == 4
    ensures GetDay(CivilDate(2024, 0, 1)) == 1
  {
    assert 1969 / 400 == 4 && 1969 % 400 == 369 && 369 / 4 == 92 && 369 / 100 == 3;
    assert YearStart(1969) == 719162;
    assert MonthStart(1970, 0) == 0;
    assert 2023 / 400 == 5 && 2023 % 400 == 23 && 23 / 4 == 5 && 23 / 100 == 0;
    assert YearStart(2023) == 738885;
    assert MonthStart(2024, 0) == 19723;
  }

  // Division facts for the constant divisors the calendar uses; the
  // solver handles them one divisor at a time.

  lemma DivMod4(y: int, q: int, r: int)
    requires y == 4 * q + r && 0 <= r < 4
    ensures y / 4 == q && y % 4 == r
  {
  }

  lemma DivMod7(y: int, q: int, r: int)
    requires y == 7 * q + r && 0 <= r < 7
    ensures y / 7 == q && y % 7 == r
  {
  }

  lemma DivMod100(y: int, q: int, r: int)
    requires y == 100 * q + r && 0 <= r < 100
    ensures y / 100 == q && y % 100 == r
  {
  }

  lemma DivMod400(y: int, q: int, r: int)
    requires y == 400 * q + r && 0 <= r < 400
    ensures y / 400 == q && y % 400 == r
  {
  }

  lemma Mod7Add(a: int, b: int)
    ensures (a % 7 + b) % 7 == (a + b) % 7
  {
    DivMod7(a + b, a / 7 + (a % 7 + b) / 7, (a % 7 + b) % 7);
  }

  /** Within a month the weekday advances by one per day. */
  lemma GetDayAdvances(year: int, month: int, day: int)
    requires 0 <= month < 12
    ensures GetDay(CivilDate(year, month, day + 1)) == (GetDay(CivilDate(year, month, day)) + 1) % 7
  {
    var x := DaysSinceEpoch(CivilDate(year, month, day));
    assert DaysSinceEpoch(CivilDate(year, month, day + 1)) == x + 1;
    Mod7Add(x + 4, 1);
  }

  /** A March-based year has 366 days when the February it ends with is a
      leap February, 365 otherwise. */
  lemma YearLength(y: int)
    ensures YearStart(y + 1) - YearStart(y) == if IsLeapYear(y + 1) then 366 else 365
  {
    if y % 400 == 399 {
      YearLengthEndOfEra(y);
    } else {
      YearLengthWithinEra(y);
    }
  }

  lemma YearLengthEndOfEra(y: int)
    requires y % 400 == 399
    ensures YearStart(y + 1) - YearStart(y) == 366 && IsLeapYear(y + 1)
  {
    var q := y / 400;
    DivMod400(y + 1, q + 1, 0);
    DivMod4(y + 1, 100 * q + 100, 0);
    DivMod100(y + 1, 4 * q + 4, 0);
  }

  lemma YearLengthWithinEra(y: int)
    requires y % 400 != 399
    ensures YearStart(y + 1) - YearStart(y) == if IsLeapYear(y + 1) then 366 else 365
  {
    var q, r := y / 400, y % 400;
    var r1 := r + 1;
    DivMod400(y + 1, q, r1);
    DivMod4(y + 1, 100 * q + r1 / 4, r1 % 4);
    DivMod100(y + 1, 4 * q + r1 / 100, r1 % 100);
    assert (y + 1) % 4 == r1 % 4 && (y + 1) % 100 == r1 % 100 && (y + 1) % 400 == r1;
    DivMod4(r1, r / 4 + (if r % 4 == 3 then 1 else 0), if r % 4 == 3 then 0 else r % 4 + 1);
    DivMod100(r1, r / 100 + (if r % 100 == 99 then 1 else 0), if r % 100 == 99 then 0 else r % 100 + 1);
  }

  /** The first days of the March-based months, counted from March 1. */
  lemma MonthOffsetTable(mp: int)
    requires 0 <= mp < 12
    ensures MonthOffset(mp) == [0, 31, 61, 92, 122, 153, 184, 214, 245, 275, 306, 337][mp]
  {
    if mp == 0 { assert MonthOffset(0) == 0; }
    else if mp == 1 { assert MonthOffset(1) == 31; }
    else if mp == 2 { assert MonthOffset(2) == 61; }
    else if mp == 3 { assert MonthOffset(3) == 92; }
    else if mp == 4 { assert MonthOffset(4) == 122; }
    else if mp == 5 { assert MonthOffset(5) == 153; }
    else if mp == 6 { assert MonthOffset(6) == 184; }
    else if mp == 7 { assert MonthOffset(7) == 214; }
    else if mp == 8 { assert MonthOffset(8) == 245; }
    else if mp == 9 { assert MonthOffset(9) == 275; }
    else if mp == 10 { assert MonthOffset(10) == 306; }
    else { assert MonthOffset(11) == 337; }
  }

  /** The day after the last day of a month is the first day of the next
      month: `DaysInMonth` and the weekday count agree on every month end,
      including the end of February in leap and common years. */
  lemma MonthsAreContiguous(year: int, month: int)
    requires 0 <= month < 12
    ensures var next := if month == 11 then CivilDate(year + 1, 0, 1) else CivilDate(year, month + 1, 1);
            DaysSinceEpoch(next) == DaysSinceEpoch(CivilDate(year, month, DaysInMonth(year, month))) + 1
  {
    var next := if month == 11 then CivilDate(year + 1, 0, 1) else CivilDate(year, month + 1, 1);
    if month == 1 {
      FebruaryEnd(year);
    } else if month == 11 {
      DecemberEnd(year);
    } else {
      MonthEndWithinYear(year, month);
    }
  }

  lemma FebruaryEnd(year: int)
    ensures MonthStart(year, 2) == MonthStart(year, 1) + DaysInMonth(year, 1)
  {
    assert (2 + 10) % 12 == 0 && (1 + 10) % 12 == 11;
    MonthOffsetTable(0);
    MonthOffsetTable(11);
    YearLength(year - 1);
  }

  lemma DecemberEnd(year: int)
    ensures MonthStart(year + 1, 0) == MonthStart(year, 11) + 31
  {
    assert (0 + 10) % 12 == 10 && (11 + 10) % 12 == 9;
    MonthOffsetTable(10);
    MonthOffsetTable(9);
  }

  lemma MonthEndWithinYear(year: int, month: int)
    requires 0 <= month < 11 && month != 1
    ensures MonthStart(year, month + 1) == MonthStart(year, month) + DaysInMonth(year, month)
  {
    var mp := (month + 10) % 12;
    assert mp == if month == 0 then 10 else month - 2;
    assert (month + 11) % 12 == mp + 1;
    MonthOffsetTable(mp);
    MonthOffsetTable(mp + 1);
  }

  /** `getMondayFirstWeekdayIndex`: Monday is 0 and Sunday is 6. */
  function MondayFirstWeekdayIndex(date: CivilDate): (index: int)
    requires 0 <= date.month < 12
    ensures 0 <= index < 7
  {
    MondayFirst(GetDay(date))
  }

  /** Sunday-first to Monday-first: Sunday (0) goes to 6, every other day down by one. */
  function MondayFirst(day: int): int {
    if day == 0 then 6 else day - 1
  }

  /** The inverse direction, Monday-first back to `getDay` numbering. */
  function SundayFirst(index: int): int {
    (index + 1) % 7
  }

  /** The remapping is a bijection of 0..6 with `SundayFirst` its inverse,
      and agrees with a rotation by six. */
  lemma MondayFirstIsBijection(day: int, index: int)
    requires 0 <= day < 7 && 0 <= index < 7
    ensures 0 <= MondayFirst(day) < 7 && MondayFirst(day) == (day + 6) % 7
    ensures SundayFirst(MondayFirst(day)) == day
    ensures MondayFirst(SundayFirst(index)) == index
  {
  }

  /** `isWeekend` on a Monday-first index: Saturday (5) and Sunday (6). */
  predicate IsWeekend(index: int) {
    index == 5 || index == 6
  }

  /** A date is a weekend day exactly when `getDay` says Saturday (6) or Sunday (0). */
  lemma WeekendIsSaturdayOrSunday(date: CivilDate)
    requires 0 <= date.month < 12
    ensures IsWeekend(MondayFirstWeekdayIndex(date)) <==> (GetDay(date) == 6 || GetDay(date) == 0)
  {
  }

  /** `isSameDay`: same year, month and day of month. */
  function IsSameDay(a: CivilDate, b: CivilDate): (same: bool)
    ensures same <==> a == b
  {
    a.year == b.year && a.month == b.month && a.day == b.day
  }

  // ---------------------------------------------------------------------
  // ISO formatting

  /** `formatDateISO`: the year as `String(year)`, then the 1-based month
      and the day, each zero-padded to two digits, joined by `-`. */
  function FormatDateISO(year: int, month: int, day: int): string {
    IntToString(year) + "-" + Pad2(month + 1) + "-" + Pad2(day)
  }

  /** A year from 1000 to 9999 prints as four digits. */
  lemma FourDigitYear(n: int)
    requires 1000 <= n <= 9999
    ensures |IntToString(n)| == 4
  {
    var m := n / 10;
    assert 100 <= m <= 999;
    assert NatToString(n) == NatToString(m) + [DigitChar(n % 10)];
    assert 10 <= m / 10 < 100;
    assert NatToString(m) == NatToString(m / 10) + [DigitChar(m % 10)];
  }

  /** For a four-digit year and an in-range month and day the result has
      the 10-character `YYYY-MM-DD` shape. */
  lemma FormatDateISOShape(year: int, month: int, day: int)
    requires 1000 <= year <= 9999 && 0 <= month < 12 && 1 <= day <= 31
    ensures var s := FormatDateISO(year, month, day);
            |s| == 10 && s[4] == '-' && s[7] == '-'
            && AllDigits(s[..4]) && AllDigits(s[5..7]) && AllDigits(s[8..])
  {
    FourDigitYear(year);
    IntToStringDigits(year);
    Pad2Shape(month + 1);
    Pad2Shape(day);
    IsoShape(IntToString(year), Pad2(month + 1), Pad2(day));
  }

  lemma IsoShape(y: string, m: string, d: string)
    requires |y| == 4 && AllDigits(y) && TwoDigits(m) && TwoDigits(d)
    ensures var s := y + "-" + m + "-" + d;
            |s| == 10 && s[4] == '-' && s[7] == '-'
            && AllDigits(s[..4]) && AllDigits(s[5..7]) && AllDigits(s[8..])
  {
    var s := y + "-" + m + "-" + d;
    assert s[..4] == y;
    assert s[5..7] == m;
    assert s[8..] == d;
  }

  /** Reading the formatted date back: splitting on `-` and applying
      `parseInt` to each part gives the year, the 1-based month and the
      day again, so distinct dates never share an ISO string. */
  lemma FormatDateISORoundTrip(year: int, month: int, day: int)
    requires 0 <= year && 0 <= month + 1 && 0 <= day
    ensures var parts := Split(FormatDateISO(year, month, day), '-');
            |parts| == 3
            && ParseInt(parts[0]) == Some(year)
            && ParseInt(parts[1]) == Some(month + 1)
            && ParseInt(parts[2]) == Some(day)
  {
    var y, m, d := IntToString(year), Pad2(month + 1), Pad2(day);
    Pad2Value(month + 1);
    Pad2Value(day);
    IntToStringDigits(year);
    NotInDigits(y, '-');
    NotInDigits(m, '-');
    NotInDigits(d, '-');
    assert FormatDateISO(year, month, day) == y + ['-'] + m + ['-'] + d;
    SplitThree(y, m, d, '-');
    ParseIntToString(year);
    ParseIntPad2(month + 1);
    ParseIntPad2(day);
  }

  lemma FormatDateISOInjective(y1: int, m1: int, d1: int, y2: int, m2: int, d2: int)
    requires 0 <= y1 && 0 <= m1 + 1 && 0 <= d1
    requires 0 <= y2 && 0 <= m2 + 1 && 0 <= d2
    requires FormatDateISO(y1, m1, d1) == FormatDateISO(y2, m2, d2)
    ensures y1 == y2 && m1 == m2 && d1 == d2
  {
    FormatDateISORoundTrip(y1, m1, d1);
    FormatDateISORoundTrip(y2, m2, d2);
  }

  // ---------------------------------------------------------------------
  // The month grid, as a reference definition

  /** A padding cell: no day, no date, neither weekend nor today. */
  const EmptyCell: MonthCell := MonthCell(None, false, false, None)

  function Blanks(k: nat): (cells: seq<MonthCell>)
    ensures |cells| == k && forall i :: 0 <= i < k ==> cells[i] == EmptyCell
  {
    seq(k, _ => EmptyCell)
  }

  /** The padding that fills the last week after `filled` cells. */
  function TrailingBlanks(filled: nat): (k: nat)
    ensures k < 7 && (filled + k) % 7 == 0
  {
    var q, r := filled / 7, filled % 7;
    if r == 0 then 0
    else
      DivMod7(filled + (7 - r), q + 1, 0);
      7 - r
  }

  /** A month laid out in reading order: `lead` padding cells, the day
      cells, then padding up to the end of the last week. */
  function Layout(lead: nat, days: seq<MonthCell>): (cells: seq<MonthCell>)
    ensures |cells| % 7 == 0
    ensures |cells| == lead + |days| + TrailingBlanks(lead + |days|)
  {
    Blanks(lead) + days + Blanks(TrailingBlanks(lead + |days|))
  }

  /** Cutting a cell sequence into consecutive weeks of seven. */
  function Weeks(cells: seq<MonthCell>): (rows: MonthMatrix)
    requires |cells| % 7 == 0
    ensures |rows| == |cells| / 7
    ensures forall r :: 0 <= r < |rows| ==> rows[r] == cells[7 * r .. 7 * r + 7]
  {
    if cells == [] then [] else [cells[..7]] + Weeks(cells[7..])
  }

  function Flatten(rows: MonthMatrix): seq<MonthCell> {
    if rows == [] then [] else rows[0] + Flatten(rows[1..])
  }

  /** The days of the day cells, in reading order. */
  function DaysOf(cells: seq<MonthCell>): seq<int> {
    if cells == [] then []
    else DaysOf(cells[..|cells| - 1]) + (match cells[|cells| - 1].day case Some(d) => [d] case None => [])
  }

  /** The cell of day `day` of the month: weekend flag from its weekday,
      today flag from `today`, and its ISO date. */
  function DayCell(year: int, month: int, day: int, today: CivilDate): MonthCell
    requires 0 <= month < 12
  {
    var date := CivilDate(year, month, day);
    MonthCell(Some(day), IsWeekend(MondayFirstWeekdayIndex(date)), IsSameDay(date, today),
              Some(FormatDateISO(year, month, day)))
  }

  /** The number of padding cells before day 1: its Monday-first weekday. */
  function LeadingBlanks(year: int, month: int): (lead: nat)
    requires 0 <= month < 12
    ensures lead < 7
  {
    MondayFirstWeekdayIndex(CivilDate(year, month, 1))
  }

  /** The cells of days 1..count, in order. */
  function DayCells(year: int, month: int, today: CivilDate, count: nat): (cells: seq<MonthCell>)
    requires 0 <= month < 12
    ensures |cells| == count
  {
    if count == 0 then [] else DayCells(year, month, today, count - 1) + [DayCell(year, month, count, today)]
  }

  lemma {:induction false} DayCellAt(year: int, month: int, today: CivilDate, count: nat, i: int)
    requires 0 <= month < 12 && 0 <= i < count
    ensures DayCells(year, month, today, count)[i] == DayCell(year, month, i + 1, today)
  {
    if i < count - 1 {
      DayCellAt(year, month, today, count - 1, i);
    }
  }

  lemma DayCellsAt(year: int, month: int, today: CivilDate, count: nat)
    requires 0 <= month < 12
    ensures forall i :: 0 <= i < count ==> DayCells(year, month, today, count)[i] == DayCell(year, month, i + 1, today)
  {
    forall i | 0 <= i < count
      ensures DayCells(year, month, today, count)[i] == DayCell(year, month, i + 1, today)
    {
      DayCellAt(year, month, today, count, i);
    }
  }

  /** The cells of the month read row by row. */
  function MonthCells(year: int, month: int, today: CivilDate): (cells: seq<MonthCell>)
    requires 0 <= month < 12
    ensures |cells| % 7 == 0
  {
    Layout(LeadingBlanks(year, month), DayCells(year, month, today, DaysInMonth(year, month)))
  }

  /** The grid `buildMonthMatrix(year, month)` returns when run on `today`. */
  function MonthMatrixOf(year: int, month: int, today: CivilDate): MonthMatrix
    requires 0 <= month < 12
  {
    Weeks(MonthCells(year, month, today))
  }

  // ---------------------------------------------------------------------
  // Properties of any layout

  lemma LayoutAt(lead: nat, days: seq<MonthCell>, p: int)
    requires 0 <= p < |Layout(lead, days)|
    ensures Layout(lead, days)[p] == if lead <= p < lead + |days| then days[p - lead] else EmptyCell
  {
  }

  lemma WeeksAt(cells: seq<MonthCell>, r: int, c: int)
    requires |cells| % 7 == 0 && 0 <= r < |cells| / 7 && 0 <= c < 7
    ensures |Weeks(cells)[r]| == 7 && Weeks(cells)[r][c] == cells[7 * r + c]
  {
    assert Weeks(cells)[r] == cells[7 * r .. 7 * r + 7];
  }

  /** The padding never adds a week of its own. */
  lemma LayoutRowCount(filled: nat)
    ensures (filled + TrailingBlanks(filled)) / 7 == (filled + 6) / 7
  {
    var q, r := filled / 7, filled % 7;
    if r == 0 {
      DivMod7(filled + 6, q, 6);
    } else {
      DivMod7(filled + TrailingBlanks(filled), q + 1, 0);
      DivMod7(filled + 6, q + 1, r - 1);
    }
  }

  /** The weeks of a layout: as many rows as the cells need, seven cells
      each, and the cell at row `r`, column `c` is the one at `7 * r + c`
      of the reading order. */
  lemma LayoutWeeks(lead: nat, days: seq<MonthCell>)
    ensures var rows := Weeks(Layout(lead, days));
            && |rows| == (lead + |days| + 6) / 7
            && (forall r :: 0 <= r < |rows| ==> |rows[r]| == 7)
            && (forall r, c :: 0 <= r < |rows| && 0 <= c < 7 ==>
                  rows[r][c] == if lead <= 7 * r + c < lead + |days| then days[7 * r + c - lead] else EmptyCell)
  {
    var cells := Layout(lead, days);
    LayoutRowCount(lead + |days|);
    forall r, c | 0 <= r < |cells| / 7 && 0 <= c < 7
      ensures |Weeks(cells)[r]| == 7
      ensures Weeks(cells)[r][c] == if lead <= 7 * r + c < lead + |days| then days[7 * r + c - lead] else EmptyCell
    {
      WeeksAt(cells, r, c);
      LayoutAt(lead, days, 7 * r + c);
    }
  }

  /** The cell at row `r`, column `c` of a layout's weeks, and the column
      of its reading position. */
  lemma LayoutCell(lead: nat, days: seq<MonthCell>, r: int, c: int)
    requires 0 <= r < |Weeks(Layout(lead, days))| && 0 <= c < 7
    ensures Weeks(Layout(lead, days))[r][c]
            == if lead <= 7 * r + c < lead + |days| then days[7 * r + c - lead] else EmptyCell
    ensures (7 * r + c) % 7 == c
  {
    WeeksAt(Layout(lead, days), r, c);
    LayoutAt(lead, days, 7 * r + c);
    DivMod7(7 * r + c, r, c);
  }

  /** When the first week has room for day 1 and every day cell is
      numbered, no row of the layout is padding only. */
  lemma LayoutNoBlankRow(lead: nat, days: seq<MonthCell>, r: int)
    requires lead < 7 && 1 <= |days|
    requires forall i :: 0 <= i < |days| ==> days[i].day.Some?
    requires 0 <= r < |Weeks(Layout(lead, days))|
    ensures Weeks(Layout(lead, days))[r][if r == 0 then lead else 0].day.Some?
  {
    LayoutWeeks(lead, days);
    var filled := lead + |days|;
    assert 7 * r <= filled - 1 by {
      DivMod7(filled + 6, (filled + 6) / 7, (filled + 6) % 7);
    }
  }

  lemma {:induction false} FlattenWeeks(cells: seq<MonthCell>)
    requires |cells| % 7 == 0
    ensures Flatten(Weeks(cells)) == cells
    decreases |cells|
  {
    if cells != [] {
      var rows := Weeks(cells);
      assert rows == [cells[..7]] + Weeks(cells[7..]);
      assert rows[1..] == Weeks(cells[7..]);
      FlattenWeeks(cells[7..]);
      assert cells == cells[..7] + cells[7..];
    }
  }

  lemma {:induction false} DaysOfAppend(a: seq<MonthCell>, b: seq<MonthCell>)
    ensures DaysOf(a + b) == DaysOf(a) + DaysOf(b)
    decreases |b|
  {
    if b == [] {
      assert a + b == a;
    } else {
      assert (a + b)[..|a + b| - 1] == a + b[..|b| - 1];
      DaysOfAppend(a, b[..|b| - 1]);
    }
  }

  lemma {:induction false} DaysOfBlanks(k: nat)
    ensures DaysOf(Blanks(k)) == []
  {
    if k > 0 {
      assert Blanks(k)[..k - 1] == Blanks(k - 1);
      DaysOfBlanks(k - 1);
    }
  }

  /** The days 1, 2, ..., n. */
  function OneTo(n: nat): (s: seq<int>)
    ensures |s| == n && forall i :: 0 <= i < n ==> s[i] == i + 1
  {
    if n == 0 then [] else OneTo(n - 1) + [n]
  }

  /** Cells numbered 1, 2, ... in order list exactly those days. */
  lemma {:induction false} DaysOfNumbered(cells: seq<MonthCell>)
    requires forall i :: 0 <= i < |cells| ==> cells[i].day == Some(i + 1)
    ensures DaysOf(cells) == OneTo(|cells|)
    decreases |cells|
  {
    if cells != [] {
      var k := |cells| - 1;
      DaysOfNumbered(cells[..k]);
    }
  }

  /** The padding adds no day: reading a layout's weeks back gives the
      days of its day cells. */
  lemma LayoutDays(lead: nat, days: seq<MonthCell>)
    ensures DaysOf(Flatten(Weeks(Layout(lead, days)))) == DaysOf(days)
  {
    var trail := TrailingBlanks(lead + |days|);
    var cells := Layout(lead, days);
    assert cells == (Blanks(lead) + days) + Blanks(trail);
    FlattenWeeks(cells);
    DaysOfAppend(Blanks(lead) + days, Blanks(trail));
    DaysOfAppend(Blanks(lead), days);
    DaysOfBlanks(lead);
    DaysOfBlanks(trail);
  }

  // ---------------------------------------------------------------------
  // Properties of the month grid

  /** Shifting a day count by `k` shifts its Monday-first weekday by `k`. */
  lemma MondayFirstShift(x: int, k: int)
    ensures MondayFirst((x + k) % 7) == (MondayFirst(x % 7) + k) % 7
  {
    Mod7Add(x + k, 6);
    Mod7Add(x, 6);
    Mod7Add(x + 6, k);
  }

  /** Day `day` falls in column `(lead + day - 1) % 7`. */
  lemma WeekdayColumn(year: int, month: int, day: int)
    requires 0 <= month < 12
    ensures MondayFirstWeekdayIndex(CivilDate(year, month, day)) == (LeadingBlanks(year, month) + day - 1) % 7
  {
    var base := DaysSinceEpoch(CivilDate(year, month, 1)) + 4;
    assert DaysSinceEpoch(CivilDate(year, month, day)) + 4 == base + (day - 1);
    MondayFirstShift(base, day - 1);
  }

  /** The grid has rows of exactly seven cells and as many rows as the
      days need, and no more. */
  lemma MonthMatrixShape(year: int, month: int, today: CivilDate)
    requires 0 <= month < 12
    ensures var rows := MonthMatrixOf(year, month, today);
            && |rows| == (LeadingBlanks(year, month) + DaysInMonth(year, month) + 6) / 7
            && (forall r :: 0 <= r < |rows| ==> |rows[r]| == 7)
  {
    LayoutWeeks(LeadingBlanks(year, month), DayCells(year, month, today, DaysInMonth(year, month)));
  }

  /** The cell at row `r`, column `c` is the one the reading order puts at
      `7 * r + c`: padding before day 1 and after the last day, day `d` at
      position `lead + d - 1`. */
  lemma MonthMatrixAt(year: int, month: int, today: CivilDate, r: int, c: int)
    requires 0 <= month < 12
    requires 0 <= r < |MonthMatrixOf(year, month, today)| && 0 <= c < 7
    ensures var lead := LeadingBlanks(year, month);
            MonthMatrixOf(year, month, today)[r][c]
            == if lead <= 7 * r + c < lead + DaysInMonth(year, month)
               then DayCell(year, month, 7 * r + c - lead + 1, today) else EmptyCell
  {
    var lead := LeadingBlanks(year, month);
    var days := DayCells(year, month, today, DaysInMonth(year, month));
    LayoutCell(lead, days, r, c);
    if lead <= 7 * r + c < lead + |days| {
      DayCellAt(year, month, today, |days|, 7 * r + c - lead);
    }
  }

  /** Each day cell sits in the column of its Monday-first weekday, so
      the weekend flag is set exactly on day cells in columns 5 and 6;
      padding cells are `EmptyCell`; the today flag is set only on the
      cell of `today`; every date field is the ISO form of its day. */
  lemma MonthMatrixCells(year: int, month: int, today: CivilDate, r: int, c: int)
    requires 0 <= month < 12
    requires 0 <= r < |MonthMatrixOf(year, month, today)| && 0 <= c < 7
    ensures var cell := MonthMatrixOf(year, month, today)[r][c];
            match cell.day
            case None => cell == EmptyCell
            case Some(d) =>
              && 1 <= d <= DaysInMonth(year, month)
              && c == MondayFirstWeekdayIndex(CivilDate(year, month, d))
              && (cell.isWeekend <==> c == 5 || c == 6)
              && (cell.isToday <==> today == CivilDate(year, month, d))
              && cell.date == Some(FormatDateISO(year, month, d))
  {
    MonthMatrixAt(year, month, today, r, c);
    DivMod7(7 * r + c, r, c);
    GridCell(year, month, today, 7 * r + c, MonthMatrixOf(year, month, today)[r][c]);
  }

  /** The facts of `MonthMatrixCells` for the cell at reading position `p`. */
  lemma GridCell(year: int, month: int, today: CivilDate, p: int, cell: MonthCell)
    requires 0 <= month < 12 && 0 <= p
    requires var lead := LeadingBlanks(year, month);
             cell == if lead <= p < lead + DaysInMonth(year, month)
                     then DayCell(year, month, p - lead + 1, today) else EmptyCell
    ensures match cell.day
            case None => cell == EmptyCell
            case Some(d) =>
              && 1 <= d <= DaysInMonth(year, month)
              && p % 7 == MondayFirstWeekdayIndex(CivilDate(year, month, d))
              && (cell.isWeekend <==> p % 7 == 5 || p % 7 == 6)
              && (cell.isToday <==> today == CivilDate(year, month, d))
              && cell.date == Some(FormatDateISO(year, month, d))
  {
    var lead := LeadingBlanks(year, month);
    if lead <= p < lead + DaysInMonth(year, month) {
      var d := p - lead + 1;
      DayCellFields(year, month, d, today);
      WeekdayColumnAt(year, month, d, p);
    }
  }

  /** Day `day` at reading position `p` of the grid has weekday column `p % 7`. */
  lemma WeekdayColumnAt(year: int, month: int, day: int, p: int)
    requires 0 <= month < 12 && p == LeadingBlanks(year, month) + day - 1
    ensures MondayFirstWeekdayIndex(CivilDate(year, month, day)) == p % 7
  {
    WeekdayColumn(year, month, day);
  }

  lemma DayCellFields(year: int, month: int, day: int, today: CivilDate)
    requires 0 <= month < 12
    ensures var cell := DayCell(year, month, day, today);
            && cell.day == Some(day)
            && (cell.isWeekend <==> IsWeekend(MondayFirstWeekdayIndex(CivilDate(year, month, day))))
            && (cell.isToday <==> today == CivilDate(year, month, day))
            && cell.date == Some(FormatDateISO(year, month, day))
  {
  }

  /** The first row starts with exactly as many padding cells as the
      Monday-first weekday of day 1, followed by day 1. */
  lemma MonthMatrixLeadingPadding(year: int, month: int, today: CivilDate)
    requires 0 <= month < 12
    ensures var rows := MonthMatrixOf(year, month, today);
            var lead := MondayFirstWeekdayIndex(CivilDate(year, month, 1));
            && 1 <= |rows| && |rows[0]| == 7
            && (forall c :: 0 <= c < lead ==> rows[0][c] == EmptyCell)
            && rows[0][lead].day == Some(1)
  {
    var lead := LeadingBlanks(year, month);
    var days := DayCells(year, month, today, DaysInMonth(year, month));
    MonthMatrixShape(year, month, today);
    forall c | 0 <= c <= lead
      ensures MonthMatrixOf(year, month, today)[0][c] == if c < lead then EmptyCell else days[0]
    {
      LayoutCell(lead, days, 0, c);
    }
    DayCellsAt(year, month, today, DaysInMonth(year, month));
  }

  /** No row is made of padding only, so a month ending on a Sunday gets
      no extra blank row. */
  lemma MonthMatrixNoBlankRow(year: int, month: int, today: CivilDate, r: int)
    requires 0 <= month < 12
    requires 0 <= r < |MonthMatrixOf(year, month, today)|
    ensures exists c :: 0 <= c < 7 && MonthMatrixOf(year, month, today)[r][c].day.Some?
  {
    var lead := LeadingBlanks(year, month);
    var days := DayCells(year, month, today, DaysInMonth(year, month));
    DayCellsNumbered(year, month, today, DaysInMonth(year, month));
    LayoutNoBlankRow(lead, days, r);
    var c := if r == 0 then lead else 0;
    assert MonthMatrixOf(year, month, today)[r][c].day.Some?;
  }

  /** Read row by row, the day cells of the grid are the days
      1..daysInMonth in increasing order, each exactly once. */
  lemma MonthMatrixDaysInOrder(year: int, month: int, today: CivilDate)
    requires 0 <= month < 12
    ensures DaysOf(Flatten(MonthMatrixOf(year, month, today))) == OneTo(DaysInMonth(year, month))
  {
    var days := DayCells(year, month, today, DaysInMonth(year, month));
    LayoutDays(LeadingBlanks(year, month), days);
    DayCellsNumbered(year, month, today, DaysInMonth(year, month));
    DaysOfNumbered(days);
  }

  lemma DayCellsNumbered(year: int, month: int, today: CivilDate, count: nat)
    requires 0 <= month < 12
    ensures forall i :: 0 <= i < count ==> DayCells(year, month, today, count)[i].day == Some(i + 1)
  {
    DayCellsAt(year, month, today, count);
  }

  // ---------------------------------------------------------------------
  // The builders

  /** `buildMonthMatrix`: pads the first week, appends one cell per day
      and closes the week after each Sunday, then pads the last partial
      week to seven cells. */
  method BuildMonthMatrix(year: int, month: int, today: CivilDate) returns (matrix: MonthMatrix)
    requires 0 <= month < 12
    ensures matrix == MonthMatrixOf(year, month, today)
  {
    var totalDays := DaysInMonth(year, month);
    var firstDayWeekdayIndex := MondayFirstWeekdayIndex(CivilDate(year, month, 1));
    matrix := [];
    var currentWeek: seq<MonthCell> := [];

    var i := 0;
    while i < firstDayWeekdayIndex
      invariant 0 <= i <= firstDayWeekdayIndex
      invariant currentWeek == Blanks(i)
    {
      BlanksSnoc(i);
      currentWeek := currentWeek + [EmptyCell];
      i := i + 1;
    }

    // `read` is every cell pushed so far, closed weeks and the open one.
    ghost var read := currentWeek;
    ghost var days := DayCells(year, month, today, totalDays);
    var day := 1;
    while day <= totalDays
      invariant 1 <= day <= totalDays + 1
      invariant read == Blanks(firstDayWeekdayIndex) + days[..day - 1]
      invariant OpenWeek(read, matrix, currentWeek)
    {
      var date := CivilDate(year, month, day);
      var weekdayIndex := MondayFirstWeekdayIndex(date);
      var cell := MonthCell(Some(day), IsWeekend(weekdayIndex), IsSameDay(date, today),
                            Some(FormatDateISO(year, month, day)));
      WeekdayColumnAt(year, month, day, |read|);
      DayStep(read, matrix, currentWeek, cell, weekdayIndex);
      DayCellAt(year, month, today, totalDays, day - 1);
      PrefixSnoc(Blanks(firstDayWeekdayIndex), days, day - 1, cell);
      read := read + [cell];
      currentWeek := currentWeek + [cell];
      if weekdayIndex == 6 {
        matrix := matrix + [currentWeek];
        currentWeek := [];
      }
      day := day + 1;
    }

    assert days[..totalDays] == days;
    matrix := FlushLastWeek(matrix, currentWeek, firstDayWeekdayIndex, days, read);
  }

  /** The end of `buildMonthMatrix`: a non-empty open week is padded to
      seven cells and appended, an empty one is dropped. */
  method FlushLastWeek(matrix: MonthMatrix, currentWeek: seq<MonthCell>,
                       ghost lead: nat, ghost days: seq<MonthCell>, ghost read: seq<MonthCell>)
    returns (rows: MonthMatrix)
    requires read == Blanks(lead) + days && OpenWeek(read, matrix, currentWeek)
    ensures rows == Weeks(Layout(lead, days))
  {
    rows := matrix;
    var week := currentWeek;
    ghost var cells := read;
    if |week| > 0 {
      while |week| < 7
        invariant WeeksSoFar(cells, rows) && 7 * |rows| + |week| == |cells|
        invariant |week| <= 7 && week == cells[7 * |rows| ..]
        invariant cells == read + Blanks(|cells| - |read|)
      {
        PushCell(cells, rows, week, EmptyCell);
        BlanksSnoc(|cells| - |read|);
        cells := cells + [EmptyCell];
        week := week + [EmptyCell];
      }
      CloseWeek(cells, rows, week);
      rows := rows + [week];
    } else {
      assert cells == read + Blanks(0);
    }
    PaddedLayout(lead, days, |cells| - |read|, cells, |rows|);
    AllWeeks(cells, rows);
  }

  lemma PrefixSnoc(front: seq<MonthCell>, days: seq<MonthCell>, k: nat, cell: MonthCell)
    requires k < |days| && days[k] == cell
    ensures (front + days[..k]) + [cell] == front + days[..k + 1]
  {
    assert days[..k + 1] == days[..k] + [cell];
  }

  lemma BlanksSnoc(k: nat)
    ensures Blanks(k) + [EmptyCell] == Blanks(k + 1)
  {
  }

  /** `rows` are the first `|rows|` weeks of `cells`. */
  ghost predicate WeeksSoFar(cells: seq<MonthCell>, rows: MonthMatrix) {
    && 7 * |rows| <= |cells|
    && forall r :: 0 <= r < |rows| ==> rows[r] == cells[7 * r .. 7 * r + 7]
  }

  /** The builder's state after reading `read`: `rows` are its complete
      weeks and `week` the open remainder, shorter than seven cells. */
  ghost predicate OpenWeek(read: seq<MonthCell>, rows: MonthMatrix, week: seq<MonthCell>) {
    && WeeksSoFar(read, rows)
    && 7 * |rows| + |week| == |read|
    && |week| < 7
    && week == read[7 * |rows| ..]
  }

  /** Pushing one more cell onto the open week. */
  lemma PushCell(read: seq<MonthCell>, rows: MonthMatrix, week: seq<MonthCell>, cell: MonthCell)
    requires OpenWeek(read, rows, week)
    ensures WeeksSoFar(read + [cell], rows)
    ensures 7 * |rows| + |week + [cell]| == |read + [cell]|
    ensures week + [cell] == (read + [cell])[7 * |rows| ..]
    ensures |week + [cell]| < 7 ==> OpenWeek(read + [cell], rows, week + [cell])
  {
    var next := read + [cell];
    forall r | 0 <= r < |rows| ensures rows[r] == next[7 * r .. 7 * r + 7] {
      assert next[7 * r .. 7 * r + 7] == read[7 * r .. 7 * r + 7];
    }
  }

  /** One day cell pushed at reading position `|read|`: the week stays
      open, or it is closed when the cell lands in column 6. */
  lemma DayStep(read: seq<MonthCell>, rows: MonthMatrix, week: seq<MonthCell>, cell: MonthCell, column: int)
    requires OpenWeek(read, rows, week) && column == |read| % 7
    ensures column == 6 ==> OpenWeek(read + [cell], rows + [week + [cell]], [])
    ensures column != 6 ==> OpenWeek(read + [cell], rows, week + [cell])
  {
    DivMod7(|read|, |rows|, |week|);
    PushCell(read, rows, week, cell);
    if column == 6 {
      CloseWeek(read + [cell], rows, week + [cell]);
    }
  }

  /** A week of seven read cells becomes the next row. */
  lemma CloseWeek(read: seq<MonthCell>, rows: MonthMatrix, week: seq<MonthCell>)
    requires WeeksSoFar(read, rows) && 7 * |rows| + |week| == |read|
    requires week == read[7 * |rows| ..] && |week| == 7
    ensures OpenWeek(read, rows + [week], [])
  {
    var next := rows + [week];
    forall r | 0 <= r < |next| ensures next[r] == read[7 * r .. 7 * r + 7] {
      if r < |rows| {
        assert next[r] == rows[r];
      }
    }
  }

  /** The cells read by the end, padded to whole weeks, are the layout. */
  lemma PaddedLayout(lead: nat, days: seq<MonthCell>, k: nat, read: seq<MonthCell>, weeks: nat)
    requires k < 7 && read == Blanks(lead) + days + Blanks(k) && |read| == 7 * weeks
    ensures read == Layout(lead, days)
  {
    var filled := lead + |days|;
    if k == 0 {
      DivMod7(filled, weeks, 0);
    } else {
      DivMod7(filled, weeks - 1, 7 - k);
      DivMod7(k, 0, k);
    }
  }

  /** All the weeks, in order, are what `Weeks` cuts. */
  lemma AllWeeks(cells: seq<MonthCell>, rows: MonthMatrix)
    requires |cells| % 7 == 0 && 7 * |rows| == |cells| && WeeksSoFar(cells, rows)
    ensures rows == Weeks(cells)
  {
  }

  /** `buildYearCalendar`: the twelve months of `year`, in order, each
      with its name from `monthName` (the locale lookup) and its grid. */
  method BuildYearCalendar(year: int, today: CivilDate, monthName: int -> string) returns (months: seq<MonthData>)
    ensures |months| == 12
    ensures forall i :: 0 <= i < 12 ==>
              months[i] == MonthData(i, monthName(i), year, MonthMatrixOf(year, i, today))
  {
    months := [];
    var monthIndex := 0;
    while monthIndex < 12
      invariant 0 <= monthIndex <= 12 && |months| == monthIndex
      invariant forall i :: 0 <= i < monthIndex ==>
                  months[i] == MonthData(i, monthName(i), year, MonthMatrixOf(year, i, today))
    {
      var matrix := BuildMonthMatrix(year, monthIndex, today);
      months := months + [MonthData(monthIndex, monthName(monthIndex), year, matrix)];
      monthIndex := monthIndex + 1;
    }
  }

  // ---------------------------------------------------------------------
  // Year ranges

  /** `isValidYear` on an integer year. */
  predicate IsValidYear(year: int, min: int, max: int) {
    min <= year && year <= max
  }

  /** `generateYearRange`: `start`, `start + 1`, ..., `end`, empty when
      `start > end`; a year is listed exactly when it is valid for the range. */
  method GenerateYearRange(start: int, end: int) returns (years: seq<int>)
    ensures |years| == if start <= end then end - start + 1 else 0
    ensures forall i :: 0 <= i < |years| ==> years[i] == start + i
    ensures forall y :: y in years <==> IsValidYear(y, start, end)
  {
    years := [];
    var year := start;
    while year <= end
      invariant start <= year <= if start <= end then end + 1 else start
      invariant |years| == year - start
      invariant forall i :: 0 <= i < |years| ==> years[i] == start + i
      invariant forall y :: y in years <==> start <= y < year
    {
      years := years + [year];
      year := year + 1;
    }
  }

  /** Every year of the sidebar range is a valid route year. */
  lemma SidebarYearsAreValid(year: int)
    requires IsValidYear(year, SidebarYearStart, SidebarYearEnd)
    ensures IsValidYear(year, MinYear, MaxYear)
  {
  }
}
