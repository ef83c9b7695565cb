# Calendar core, modelled in Dafny

A model of the logic behind the Russian year-calendar web view: the date
arithmetic and the month grid it draws, the production calendar (the
official lists of non-working, transferred and shortened days) with its
memoising per-year parse, the table of fixed-date holidays, and the set of
dates the user has selected.

The project has seven modules, one file each:

- `Optional` (`optional.dfy`): the `None`/`Some` type used for `null`, `undefined` and `NaN`.
- `CalendarTypes` (`calendar_types.dfy`): the `MonthCell`, `MonthMatrix` and `MonthData` records and the year bounds.
- `JsText` (`js_text.dfy`): the JavaScript string built-ins the code calls, written out on `seq<char>`:
  - `String(n)`, `padStart` and `split` on one character;
  - `trim`, `startsWith` and `endsWith`;
  - `parseInt(s, 10)`: leading white space, an optional sign, then the longest run of digits, `NaN` when there is none.
- `DateUtils` (`date.dfy`): leap years and month lengths, and the weekday of a date.
  - The weekday is computed arithmetically on the proleptic Gregorian calendar (days since 1970-01-01, which was a Thursday), standing in for `Date.prototype.getDay`.
  - Monday-first weekday indices, `isWeekend`, `isSameDay` and `formatDateISO`.
  - The month grid, once as a reference definition (`MonthMatrixOf`: padding, the day cells, padding, cut into weeks of seven) and once as the imperative builder `BuildMonthMatrix`, which is proved equal to it.
  - `buildYearCalendar`, `isValidYear` and `generateYearRange`.
- `ProductionCalendar` (`production_calendar.dfy`):
  - `parseDays` as a function (`DecodeDays`) and as the loop (`ParseDays`);
  - the per-year month map;
  - a `Calendar` class holding the bundled data and the `parsedCache` map that `getYearData` fills, with the three day queries as its methods;
  - `hasDataForYear` and `availableYears`.
- `Holidays` (`holidays.dfy`):
  - the `FIXED_HOLIDAYS` table as an ordered list of key/holiday pairs, in declaration order, which is the order `Object.entries` yields for these keys;
  - `getHoliday` as a last-match lookup;
  - `getMonthHolidays` as a function of the entry list and as the loop over it.
- `SelectedDates` (`selected_date.dfy`):
  - the shared `selectedDates` set as a `Selection` class with `toggleDate` and `clearSelection`;
  - `isSelected`, `selectedCount` and `selectedList`;
  - the default string order of `Array.prototype.sort`.

Outside inputs become parameters:

- The current date (`new Date()` in `buildMonthMatrix`) is the `today` parameter.
- The month name (`getMonthName`, which uses `Intl.DateTimeFormat`) is the `monthName` function parameter of `BuildYearCalendar`.
- The bundled production-calendar JSON is the `json` field of `Calendar`: a map from year to its list of (1-based month, day list) entries.

## Model

| member | source | states |
|---|---|---|
| DateUtils.IsLeapYear | src/utils/date.ts:6-8 | `isLeapYear`: divisible by 4 and not by 100, or divisible by 400; its cases are stated by `LeapYearRule` and its effect on February by `DaysInMonth` |
| DateUtils.DaysInMonth | src/utils/date.ts:15-21 | the result is in 28..31; February has 29 days exactly when the year is a leap year and 28 otherwise; every other month takes its length from the fixed table |
| DateUtils.LeapYearRule | src/utils/date.ts:6-8 | the Gregorian rule case by case: divisible by 400 is leap, by 100 but not 400 is not, by 4 but not 100 is, not by 4 is not |
| DateUtils.FebruaryExamples | src/utils/date.ts:15-21 | February has 29 days in 2024 and 2000 and 28 in 2023 and 1900 |
| DateUtils.DaysSinceEpoch | src/utils/date.ts:91 | the stand-in for `new Date(year, month, day)`: the count of days from 1970-01-01 on the proleptic Gregorian calendar, a day past the month end running on into the next month; `MonthsAreContiguous` and `GetDayAdvances` state how it steps |
| DateUtils.GetDay | src/utils/date.ts:28 | the stand-in for `getDay` of a local date is a weekday number 0..6 |
| DateUtils.GetDayAnchors | src/utils/date.ts:28 | 1970-01-01 is a Thursday (4) and 2024-01-01 a Monday (1) |
| DateUtils.GetDayAdvances | src/utils/date.ts:28 | within a month each next day is the next weekday, modulo 7 |
| DateUtils.MonthsAreContiguous | src/utils/date.ts:15-21 | the day after the last day of every month, as `daysInMonth` counts it, is day 1 of the next month (January of the next year after December), in leap and common years |
| DateUtils.MondayFirstWeekdayIndex | src/utils/date.ts:27-31 | the Monday-first index of a date is in 0..6 |
| DateUtils.MondayFirst | src/utils/date.ts:30 | the remapping `day === 0 ? 6 : day - 1`; on 0..6 its result is in 0..6 and `(r + 1) % 7` gives the day back, as `MondayFirstIsBijection` also states |
| DateUtils.MondayFirstIsBijection | src/utils/date.ts:27-31 | Sunday (0) maps to 6 and every other day n to n - 1; this is a bijection of 0..6 whose inverse is `(i + 1) % 7` |
| DateUtils.IsWeekend | src/utils/date.ts:36-38 | `isWeekend`: Monday-first index 5 or 6; on 0..6 it holds exactly when the `getDay` number `(index + 1) % 7` is Saturday (6) or Sunday (0) |
| DateUtils.WeekendIsSaturdayOrSunday | src/utils/date.ts:36-38 | `isWeekend` of a date's Monday-first index holds exactly when its `getDay` is Saturday (6) or Sunday (0) |
| DateUtils.IsSameDay | src/utils/date.ts:43-49 | true exactly when year, month and day of month all agree |
| DateUtils.FormatDateISO | src/utils/date.ts:54-62 | `formatDateISO`: `String(year)`, `-`, the 1-based month padded to two digits, `-`, the day padded to two digits; its shape, round trip and injectivity are the three lemmas below |
| DateUtils.FormatDateISOShape | src/utils/date.ts:54-62 | for a four-digit year, month 0..11 and day 1..31 the result is 10 characters: four digits, `-`, two digits, `-`, two digits |
| DateUtils.FormatDateISORoundTrip | src/utils/date.ts:54-62 | splitting the result on `-` gives three parts, and `parseInt` of each gives the year, `month + 1` and the day |
| DateUtils.FormatDateISOInjective | src/utils/date.ts:54-62 | for a non-negative year, month + 1 and day, distinct dates never share an ISO string |
| DateUtils.MonthMatrixOf | src/utils/date.ts:70-123 | the reference grid: Monday-first padding before day 1, one cell per day, padding up to a full week, cut into rows of seven; stated cell by cell by the MonthMatrix lemmas below and met by `BuildMonthMatrix` |
| DateUtils.DayCell | src/utils/date.ts:91-99 | the cell literal pushed for a day: the day, `isWeekend` of its Monday-first weekday, `isSameDay` with `today`, and its `formatDateISO` date; `MonthMatrixCells` states these fields for every day cell of the grid |
| DateUtils.WeekdayColumn | src/utils/date.ts:90-105 | day d of the month has Monday-first weekday `(lead + d - 1) % 7`, where lead is the weekday of day 1 |
| DateUtils.MonthMatrixShape | src/utils/date.ts:76-120 | the grid has `(lead + daysInMonth + 6) / 7` rows and every row, the first and the last included, has exactly 7 cells |
| DateUtils.MonthMatrixAt | src/utils/date.ts:80-120 | the cell at row r, column c is the day cell of day `7r + c - lead + 1` when that day is in the month, and a padding cell otherwise |
| DateUtils.MonthMatrixCells | src/utils/date.ts:81-118 | padding cells have day, date, weekend flag and today flag all empty or false. A day cell holds a day in 1..daysInMonth, sits in the column of its Monday-first weekday, is flagged weekend exactly in columns 5 and 6 and today exactly when it is `today`, and has its `formatDateISO` date |
| DateUtils.MonthMatrixLeadingPadding | src/utils/date.ts:73-87 | the first row starts with exactly as many padding cells as the Monday-first weekday of day 1, followed by day 1 |
| DateUtils.MonthMatrixNoBlankRow | src/utils/date.ts:101-120 | every row holds at least one day, so a month ending on a Sunday gets no extra blank row |
| DateUtils.MonthMatrixDaysInOrder | src/utils/date.ts:89-106 | read row by row, the day cells are days 1..daysInMonth in increasing order, each once |
| DateUtils.BuildMonthMatrix | src/utils/date.ts:70-123 | the loops that pad, push one cell per day, close a week after each Sunday and pad the last week build exactly the reference grid |
| DateUtils.FlushLastWeek | src/utils/date.ts:108-120 | a non-empty open week is padded to seven cells and appended, an empty one is dropped, which completes the reference grid |
| DateUtils.BuildYearCalendar | src/utils/date.ts:139-152 | twelve entries; entry i has month index i, its name, the year, and the grid of month i |
| DateUtils.IsValidYear | src/utils/date.ts:157-159 | `isValidYear`: min <= year <= max; `GenerateYearRange` lists exactly the years it accepts |
| DateUtils.GenerateYearRange | src/utils/date.ts:157-177 | start, start + 1, …, end in order (empty when start > end, length end - start + 1 otherwise); a year is listed exactly when `isValidYear(y, start, end)` holds |
| DateUtils.SidebarYearsAreValid | src/types/calendar.ts:37-44 | every sidebar year (1950..2050) lies within the accepted years 1900..2100 |
| JsText.NatToStringValue | src/utils/date.ts:59-61 | `String(n)` of a natural number is all digits and reads back as n |
| JsText.IntToString | src/utils/date.ts:61 | `String(n)` is non-empty, and starts with `-` followed by at least one character for a negative n |
| JsText.PadStart | src/utils/date.ts:59-60 | `padStart(width, fill)`: the string unchanged when at least `width` long, otherwise the fill repeated in front up to `width`; its result has length max(length, width), and `PadStartSpec` states the rest |
| JsText.Pad2 | src/data/holidays.ts:50 | `String(n).padStart(2, "0")`; `Pad2Shape`, `Pad2Value`, `Pad2OfTwoDigits` and `ParseIntPad2` state its properties |
| JsText.PadStartSpec | src/utils/date.ts:59-60 | `padStart` only prepends the fill character and keeps the original string as its suffix |
| JsText.Pad2Shape | src/utils/date.ts:59-60 | padding to two digits gives exactly two digits exactly when the number is in 0..99, a leading `-` for a negative one, and never fewer than two characters |
| JsText.Pad2Value | src/utils/date.ts:59-60 | the padded form of a non-negative number is all digits and has that number as its value |
| JsText.Pad2OfTwoDigits | src/data/holidays.ts:50 | padding the value of a two-digit string gives the string back |
| JsText.StartsWith | src/data/holidays.ts:64 | `startsWith`: the prefix is no longer than the string and equals its first characters; `MonthTestMatchesKey` states what the month test then accepts |
| JsText.EndsWith | src/composables/useProductionCalendar.ts:44-51 | `endsWith` of one character: the string is non-empty and ends with it; the ReadToken lemmas state the effect of the two suffix tests |
| JsText.Split | src/composables/useProductionCalendar.ts:40 | `split` on one character gives at least one piece, and no piece contains the separator |
| JsText.JoinSplit | src/composables/useProductionCalendar.ts:40 | joining the pieces of a split with the separator gives the input back |
| JsText.SplitJoin | src/composables/useProductionCalendar.ts:40 | splitting pieces that hold no separator, once joined, gives the pieces back |
| JsText.SplitThree | src/utils/date.ts:61 | three separator-free parts joined by the separator split back into exactly those three |
| JsText.Trim | src/composables/useProductionCalendar.ts:41 | `trim`: leading and then trailing ECMAScript white space removed; `TrimStartSpec`, `TrimEndSpec` and `TrimSpec` state what it keeps and removes |
| JsText.TrimStartSpec | src/composables/useProductionCalendar.ts:41 | the start of `trim` removes only white space and leaves a suffix that does not start with white space |
| JsText.TrimEndSpec | src/composables/useProductionCalendar.ts:41 | the end of `trim` removes only white space and leaves a prefix that does not end with white space |
| JsText.TrimSpec | src/composables/useProductionCalendar.ts:41 | `trim` keeps a contiguous slice of the input that neither starts nor ends with white space, and everything removed before and after it is white space |
| JsText.ParseInt | src/composables/useProductionCalendar.ts:46-57 | `parseInt(s, 10)`: leading white space skipped, an optional sign, the longest run of digits read as a decimal number, `NaN` when the run is empty; `ParseIntDigits`, `ParseIntNegative`, `ParseIntToString`, `ParseIntNaN`, `ParseIntTrailingText` and `ParseIntLeadingSpaceAndSign` state its behaviour |
| JsText.ParseIntDigits | src/composables/useProductionCalendar.ts:46-57 | `parseInt` of a digit run followed by text not starting with a digit is the run's value |
| JsText.ParseIntToString | src/data/holidays.ts:65 | `parseInt(String(n))` is n for every integer n |
| JsText.ParseIntNegative | src/composables/useProductionCalendar.ts:46 | `-` followed by the digits of k reads as -k |
| JsText.ParseIntPad2 | src/data/holidays.ts:65 | the padded form of a non-negative number reads back as that number |
| JsText.ParseIntTrailingText | src/composables/useProductionCalendar.ts:57 | `parseInt("12x")` is 12 |
| JsText.ParseIntNaN | src/composables/useProductionCalendar.ts:47-58 | `"x12"`, `""` and `"+"` give `NaN` |
| JsText.ParseIntLeadingSpaceAndSign | src/composables/useProductionCalendar.ts:57 | `parseInt(" -7")` is -7 |
| ProductionCalendar.ReadToken | src/composables/useProductionCalendar.ts:41-58 | how one piece is read: trimmed; empty gives nothing; a trailing `+` is checked first and gives a transferred day, then a trailing `*` a shortened day, else a plain day; `NaN` from `parseInt` gives nothing. Its cases are the ReadToken lemmas below |
| ProductionCalendar.Pieces | src/composables/useProductionCalendar.ts:36-40 | the pieces `parseDays` reads: none for an empty day list, otherwise `split(",")`; `JoinedPieces` states that comma-joined pieces come back |
| ProductionCalendar.DecodeDays | src/composables/useProductionCalendar.ts:31-63 | `parseDays` as a value: every piece read and recorded into the three sets; characterised by `DecodeDaysMembership` and met by the `ParseDays` loop |
| ProductionCalendar.RecordAllMembership | src/composables/useProductionCalendar.ts:40-60 | after the pieces are recorded, a day is a day off exactly when some piece reads as it plain or with `+`, transferred exactly when some piece reads as it with `+`, and shortened exactly when some piece reads as it with `*`; pieces that read as nothing add nothing |
| ProductionCalendar.DecodeDaysMembership | src/composables/useProductionCalendar.ts:31-63 | the same three if-and-only-if rules for `parseDays` of a whole day list, in terms of its comma-separated pieces |
| ProductionCalendar.ReadTokenPlain | src/composables/useProductionCalendar.ts:55-58 | a bare day number is read as a plain day off |
| ProductionCalendar.ReadTokenTransferred | src/composables/useProductionCalendar.ts:44-50 | a day number followed by `+` is read as a transferred day off |
| ProductionCalendar.ReadTokenShortened | src/composables/useProductionCalendar.ts:51-54 | a day number followed by `*` is read as a shortened day |
| ProductionCalendar.ReadTokenBothSuffixes | src/composables/useProductionCalendar.ts:44-51 | the `+` test comes first and `parseInt` ignores the other suffix: `n*+` is transferred and `n+*` is shortened |
| ProductionCalendar.ReadTokenNothing | src/composables/useProductionCalendar.ts:41-47 | the pieces `""`, `" "`, `"x"` and `"+"` are skipped: empty, blank, no leading number, a sign alone |
| ProductionCalendar.DecodeDaysEmpty | src/composables/useProductionCalendar.ts:36-38 | an empty day list gives three empty sets |
| ProductionCalendar.TransferredAreNonWorking | src/composables/useProductionCalendar.ts:10 | for every input the transferred days are a subset of the days off |
| ProductionCalendar.JoinedPieces | src/composables/useProductionCalendar.ts:36-40 | a day list written as comma-free pieces joined by commas is read back piece by piece |
| ProductionCalendar.SamplePiecesText | src/composables/useProductionCalendar.ts:26 | the example pieces as `String` prints the day numbers are `1`…`8`, `9+`, `10`, `11`, `30*` |
| ProductionCalendar.SampleJoinUnfolded | src/composables/useProductionCalendar.ts:26 | those pieces joined by commas, one piece at a time |
| ProductionCalendar.SampleTextFlat | src/composables/useProductionCalendar.ts:26 | the unfolded join is the text `1,2,3,4,5,6,7,8,9+,10,11,30*` |
| ProductionCalendar.SampleDayListText | src/composables/useProductionCalendar.ts:26 | the example pieces joined by commas are exactly the example text |
| ProductionCalendar.SampleDayList | src/composables/useProductionCalendar.ts:25-29 | `parseDays` of the format's example text `1,2,3,4,5,6,7,8,9+,10,11,30*` gives days off 1..11, transferred {9} and shortened {30} |
| ProductionCalendar.ParseDays | src/composables/useProductionCalendar.ts:31-63 | the loop over the pieces computes exactly `DecodeDays` of its input |
| ProductionCalendar.LastEntry | src/composables/useProductionCalendar.ts:85-87 | finds the last entry naming a month index, or nothing exactly when no entry names it |
| ProductionCalendar.YearMonths | src/composables/useProductionCalendar.ts:84-87 | the `months` map of a year: each entry decoded and set under key `month - 1`, later entries overwriting earlier ones; `YearMonthsLookup` states its keys and values and `ParseMonths` builds it |
| ProductionCalendar.YearMonthsLookup | src/composables/useProductionCalendar.ts:84-87 | the month map has key m exactly when some entry has month m + 1, and then holds the decoding of the last such entry |
| ProductionCalendar.YearMonthsConsistent | src/composables/useProductionCalendar.ts:10 | in every month of a parsed year the transferred days are among the days off |
| ProductionCalendar.MapOfStep | src/composables/useProductionCalendar.ts:85-87 | one more `months.set` call: the map of the first k + 1 entries is the map of the first k with entry k's key set to its value |
| ProductionCalendar.ParseMonths | src/composables/useProductionCalendar.ts:84-87 | the loop of `set` calls builds exactly the month map of the entry list |
| ProductionCalendar.YearDataOf | src/composables/useProductionCalendar.ts:71-92 | the value `getYearData` returns: nothing for a year missing from the data, otherwise its `months` map; `Calendar.GetYearData` returns it whether cached or not |
| ProductionCalendar.TransferredImpliesNonWorking | src/composables/useProductionCalendar.ts:121-147 | whenever `isTransferredHoliday` is true, `isNonWorkingDay` is true for the same date |
| ProductionCalendar.QueriesOfMissingYear | src/composables/useProductionCalendar.ts:126-158 | all three queries are false for a year missing from the data |
| ProductionCalendar.QueriesOfMissingMonth | src/composables/useProductionCalendar.ts:128-160 | all three queries are false for a month no entry of the year names |
| ProductionCalendar.QueriesFollowTheData | src/composables/useProductionCalendar.ts:121-162 | otherwise, with respect to the last entry for the month: a day is off exactly when the entry lists it plain or with `+`, transferred exactly when it lists it with `+`, and shortened exactly when it lists it with `*` |
| ProductionCalendar.HasDataForYear | src/composables/useProductionCalendar.ts:104-106 | `hasDataForYear`: the year is a key of the data; `AvailableYears` lists exactly these years |
| ProductionCalendar.MinYearOf | src/composables/useProductionCalendar.ts:114 | the least element of a non-empty set of years |
| ProductionCalendar.Ascending | src/composables/useProductionCalendar.ts:114 | `.sort((a, b) => a - b)` of the years: the least year first, then the rest in the same way; `AscendingMembers` and `AscendingSorted` state that it is the set in increasing order |
| ProductionCalendar.AscendingMembers | src/composables/useProductionCalendar.ts:111-115 | the sorted list has as many elements as the set and exactly its members |
| ProductionCalendar.AscendingSorted | src/composables/useProductionCalendar.ts:114 | the sorted list is strictly increasing |
| ProductionCalendar.AvailableYears | src/composables/useProductionCalendar.ts:104-115 | a year is available exactly when `hasDataForYear` holds for it, and the years are listed in strictly ascending order |
| ProductionCalendar.CacheAfter | src/composables/useProductionCalendar.ts:66-92 | the cache after a lookup: it only grows, keeps every cached year as it was, and holds the year afterwards when the data has it |
| ProductionCalendar.Calendar.constructor | src/composables/useProductionCalendar.ts:66 | the cache starts empty over the given data |
| ProductionCalendar.Calendar.GetYearData | src/composables/useProductionCalendar.ts:71-92 | returns what the data says about the year (nothing for a missing year, otherwise the parsed month map), whether it came from the cache or was parsed now. The cache is left unchanged for a cached or missing year and gains the parsed year otherwise, and every cached year always holds its parse |
| ProductionCalendar.Calendar.IsNonWorkingDay | src/composables/useProductionCalendar.ts:121-131 | false without a year or month, otherwise membership in the month's days off; the cache changes exactly as one `getYearData` of the year changes it |
| ProductionCalendar.Calendar.IsTransferredHoliday | src/composables/useProductionCalendar.ts:137-147 | false without a year or month, otherwise membership in the month's transferred days; the cache changes exactly as one `getYearData` of the year changes it |
| ProductionCalendar.Calendar.IsShortenedDay | src/composables/useProductionCalendar.ts:152-162 | false without a year or month, otherwise membership in the month's shortened days; the cache changes exactly as one `getYearData` of the year changes it |
| Holidays.FixedHolidays | src/data/holidays.ts:15-41 | the fourteen entries of `FIXED_HOLIDAYS` in declaration order; `TableKeys`, `DatesDistinct`, `TableShaped` and `AllOfficial` state its properties |
| Holidays.HolidayKey | src/data/holidays.ts:50 | the `MM-DD` key: the 1-based month and the day each padded to two digits, joined by `-`; `KeyInjective` states that distinct dates get distinct keys |
| Holidays.Lookup | src/data/holidays.ts:51 | nothing exactly when no entry has the key; otherwise the value of the last entry with the key |
| Holidays.KeyInjective | src/data/holidays.ts:50 | for a month and day in 0..99, two dates have the same key exactly when they are equal |
| Holidays.TableKeys | src/data/holidays.ts:15-41 | every key of the table is the key of its date, with month 1..12 and day 1..31 |
| Holidays.DatesDistinct | src/data/holidays.ts:15-41 | no date appears twice in the table |
| Holidays.TableShaped | src/data/holidays.ts:17-40 | every key is two digits, `-`, two digits |
| Holidays.GetHoliday | src/data/holidays.ts:49-52 | `getHoliday(month, day)`: the table read at the key of month + 1 and day; `GetHolidayByDate` states its answer for every date |
| Holidays.GetHolidayByDate | src/data/holidays.ts:49-52 | `getHoliday(m, d)` is null exactly when the table has no entry for month m + 1, day d, and otherwise is that entry's holiday |
| Holidays.LookupUnique | src/data/holidays.ts:51 | a key held by exactly one entry finds that entry |
| Holidays.MonthTestMatchesKey | src/data/holidays.ts:50-65 | on a key of the table's shape, the prefix test and day read of `getMonthHolidays` accept exactly the key `getHoliday` builds |
| Holidays.SecondPiece | src/data/holidays.ts:65 | `key.split("-")[1]`, with the empty string for the missing piece, which `parseInt` reads as `NaN` like `undefined`; `SplitShaped` gives it on shaped keys |
| Holidays.SplitShaped | src/data/holidays.ts:65 | on a key of the `MM-DD` shape, `split("-")` gives exactly the two two-digit halves, and the second piece is the day half |
| Holidays.MonthHolidaysOf | src/data/holidays.ts:59-71 | the map `getMonthHolidays` builds: each entry whose key starts with the padded month and `-` is set under the day read after the `-`, later entries overwriting earlier ones; `MonthHolidaysLookup` and `MonthHolidaysAgree` state its contents |
| Holidays.MonthHolidaysLookup | src/data/holidays.ts:59-71 | on any table of such keys, the month map has day d exactly when the lookup of the date's key finds an entry, and then holds that entry's holiday |
| Holidays.MonthHolidaysAgree | src/data/holidays.ts:49-71 | `getMonthHolidays(m)` maps d to h exactly when `getHoliday(m, d)` is h, so it holds no day of another month |
| Holidays.GetMonthHolidays | src/data/holidays.ts:59-71 | the map built over the table is the per-month map of the table |
| Holidays.CollectMonthHolidays | src/data/holidays.ts:60-70 | the loop over any entry list builds the per-month map of that list |
| Holidays.NewYearsDay | src/data/holidays.ts:17 | `getHoliday(0, 1)` is New Year's Day, official |
| Holidays.ChristmasDay | src/data/holidays.ts:23 | `getHoliday(0, 7)` is Orthodox Christmas, official |
| Holidays.NoHolidayOnAprilFifteenth | src/data/holidays.ts:15-41 | `getHoliday(3, 15)` is null |
| Holidays.AllOfficial | src/data/holidays.ts:17-40 | every holiday of the table is official |
| Holidays.MonthHolidayDays | src/data/holidays.ts:59-71 | the days of a month's map are exactly the days the table lists for that month |
| Holidays.JanuaryHolidays | src/data/holidays.ts:17-24 | January's map holds exactly days 1..8 |
| Holidays.MayHolidays | src/data/holidays.ts:33-34 | May's map holds exactly days 1 and 9 |
| Holidays.MonthsWithoutHolidays | src/data/holidays.ts:15-41 | the maps of April, July, August, September, October and December are empty |
| SelectedDates.StringLess | src/composables/useSelectedDate.ts:48 | the default sort order: the first differing character decides, and a proper prefix sorts first; a strict total order by the three lemmas below |
| SelectedDates.StringLessIrreflexive | src/composables/useSelectedDate.ts:48 | no string sorts before itself |
| SelectedDates.StringLessTransitive | src/composables/useSelectedDate.ts:48 | the sort order is transitive |
| SelectedDates.StringLessTotal | src/composables/useSelectedDate.ts:48 | of two different strings one sorts before the other |
| SelectedDates.FirstOf | src/composables/useSelectedDate.ts:48 | a member of a non-empty set that sorts before every other member |
| SelectedDates.Sorted | src/composables/useSelectedDate.ts:48 | `.sort()` of the selected dates: the least string first, then the rest in the same way; `SortedMembers` and `SortedIncreasing` state that it is the set in increasing order |
| SelectedDates.SortedMembers | src/composables/useSelectedDate.ts:48 | the sorted listing has the set's size and exactly its members, so no duplicates |
| SelectedDates.SortedIncreasing | src/composables/useSelectedDate.ts:48 | the sorted listing is strictly increasing in string order |
| SelectedDates.Toggle | src/composables/useSelectedDate.ts:13-23 | the set after `toggleDate`: unchanged for a blank date, otherwise the date removed when present and added when absent; `ToggleFlips`, `ToggleTwice` and `ToggleCount` state its effect |
| SelectedDates.ToggleFlips | src/composables/useSelectedDate.ts:13-23 | a null or empty date leaves the set as it is; otherwise the date's membership flips and no other string's membership changes |
| SelectedDates.ToggleTwice | src/composables/useSelectedDate.ts:16-22 | toggling the same date twice restores the set |
| SelectedDates.ToggleCount | src/composables/useSelectedDate.ts:16-22 | toggling a non-blank date changes the count by one, down when it was present and up when it was absent |
| SelectedDates.Selection.constructor | src/composables/useSelectedDate.ts:6 | the shared set starts empty |
| SelectedDates.Selection.ToggleDate | src/composables/useSelectedDate.ts:13-23 | the new set is the toggle of the old one, and the empty string never enters the set |
| SelectedDates.Selection.ClearSelection | src/composables/useSelectedDate.ts:28-43 | afterwards the set is empty and the count is 0 |
| SelectedDates.Selection.IsSelected | src/composables/useSelectedDate.ts:35-38 | `isSelected`: false for a blank date, otherwise membership in the set; `IsSelectedSpec` states it on a valid state |
| SelectedDates.Selection.IsSelectedSpec | src/composables/useSelectedDate.ts:35-38 | `isSelected(null)` is false, and `isSelected(d)` holds exactly when d is in the set |
| SelectedDates.Selection.SelectedListSpec | src/composables/useSelectedDate.ts:43-48 | the list's length is `selectedCount`; it holds exactly the selected dates, in strictly ascending string order |

## Left out

- JavaScript `Date`:
  - the weekday is the proleptic Gregorian one, computed arithmetically, and time zones and daylight saving time are not modelled;
  - `new Date(y, …)` maps years 0..99 to 1900..1999, which is not modelled: the views only build years 1900..2100;
  - `buildMonthMatrix` with a month outside 0..11 is not modelled (`requires 0 <= month < 12`): the views only pass 0..11.
- `getMonthName` (`Intl.DateTimeFormat` and `toUpperCase`) is not modelled; it is the `monthName` parameter of `BuildYearCalendar`.
- `getCurrentYear` and `new Date()` read the wall clock; the current date is the `today` parameter.
- Numbers:
  - JavaScript numbers are modelled as unbounded integers;
  - `isValidYear`'s `Number.isInteger` test is trivially true on them;
  - fractional, infinite and `NaN` years are not modelled.
- Production calendar:
  - the bundled JSON is the abstract `json` map with integer years, so `String(year)` key lookup becomes map membership;
  - `availableYears`' `map(Number)` over the keys is the identity there.
- Vue reactivity is not modelled: `ref`, `computed` and `readonly` are replaced by the plain values they wrap.
  - `availableYears` and `selectedList` are ghost functions of the state, because their sort is specified by the order it produces.
  - `SelectedDates.Selection.SelectedCount` and `SelectedDates.Selection.SelectedList` restate the set's size and its sorted listing; their contracts live in `SelectedListSpec`.
- `Array.prototype.sort` without a comparator compares UTF-16 code units; the model compares Unicode scalar values. The two orders agree on the ASCII ISO dates the view stores.
- ProductionCalendar.DayOff, ProductionCalendar.DayTransferred and ProductionCalendar.DayShortened are the value forms of the three queries; their properties are stated by the query lemmas and the `Calendar` methods.
- Holidays.MonthHolidaysOf skips keys whose day part is `NaN`. With JavaScript's `Map` a `NaN` day would be a key of its own. No key of the table reaches that branch (every key is shaped, by `TableShaped`).
- The holiday table's names are written as Dafny string literals; `Object.entries` order is modelled as declaration order, which holds because no key is an array index.
- `useTheme`, `useHolidays`, the router and the fetch script (network, `localStorage`, DOM) are not part of this model.
