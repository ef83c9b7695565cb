/** The fixed-date holiday table of the Russian calendar: the table keyed
    by `"MM-DD"`, the lookup of one date and the per-month listing. */
module Holidays {

  import opened Optional
  import opened JsText

  datatype Holiday = Holiday(name: string, official: bool)

  /** `FIXED_HOLIDAYS`, entry by entry in declaration order, which is the
      order `Object.entries` yields string keys that are not array indices. */
  const FixedHolidays: seq<(string, Holiday)> := [
    ("01-01", Holiday("Новый год", true)),
    ("01-02", Holiday("Новогодние каникулы", true)),
    ("01-03", Holiday("Новогодние каникулы", true)),
    ("01-04", Holiday("Новогодние каникулы", true)),
    ("01-05", Holiday("Новогодние каникулы", true)),
    ("01-06", Holiday("Новогодние каникулы", true)),
    ("01-07", Holiday("Рождество Христово", true)),
    ("01-08", Holiday("Новогодние каникулы", true)),
    ("02-23", Holiday("День защитника Отечества", true)),
    ("03-08", Holiday("Международный женский день", true)),
    ("05-01", Holiday("Праздник Весны и Труда", true)),
    ("05-09", Holiday("День Победы", true)),
    ("06-12", Holiday("День России", true)),
    ("11-04", Holiday("День народного единства", true))
  ]

  /** The 1-based month and the day each key of the table names, in the same order. */
  ghost const Dates: seq<(int, int)> := [
    (1, 1), (1, 2), (1, 3), (1, 4), (1, 5), (1, 6), (1, 7), (1, 8),
    (2, 23), (3, 8), (5, 1), (5, 9), (6, 12), (11, 4)
  ]

  /** The key of a date: the 1-based month and the day, each padded to
      two characters, joined by `-`. */
  function HolidayKey(month: int, day: int): string {
    Pad2(month) + "-" + Pad2(day)
  }

  /** A record read by key: a key written twice in an object literal
      keeps its last value. */
  function Lookup(table: seq<(string, Holiday)>, key: string): (r: Option<Holiday>)
    ensures r.None? <==> forall i :: 0 <= i < |table| ==> table[i].0 != key
    ensures r.Some? ==>
              exists i :: 0 <= i < |table| && table[i] == (key, r.value)
                          && forall j :: i < j < |table| ==> table[j].0 != key
  {
    if table == [] then None
    else if table[|table| - 1].0 == key then Some(table[|table| - 1].1)
    else Lookup(table[..|table| - 1], key)
  }

  /** `getHoliday(month, day)` for a 0-based month; `null` is `None`. */
  function GetHoliday(month: int, day: int): Option<Holiday> {
    Lookup(FixedHolidays, HolidayKey(month + 1, day))
  }

  // ---------------------------------------------------------------------
  // The per-month listing

  /** `key.split("-")[1]`, with the missing piece (JavaScript's
      `undefined`, which `parseInt` reads as `NaN`) as the empty string. */
  function SecondPiece(key: string): string {
    var parts := Split(key, '-');
    if |parts| >= 2 then parts[1] else ""
  }

  /** The map `getMonthHolidays` builds from a list of entries: each entry
      whose key starts with the padded month and `-` is set under the day
      read from the part after the `-`, later entries overwriting earlier ones. */
  function MonthHolidaysOf(entries: seq<(string, Holiday)>, month: int): map<int, Holiday> {
    if entries == [] then map[]
    else
      var prev := MonthHolidaysOf(entries[..|entries| - 1], month);
      var (key, holiday) := entries[|entries| - 1];
      if StartsWith(key, Pad2(month + 1) + "-") then
        match ParseInt(SecondPiece(key))
        case Some(day) => prev[day := holiday]
        case None => prev
      else prev
  }

  /** `getMonthHolidays(month)`. */
  method GetMonthHolidays(month: int) returns (result: map<int, Holiday>)
    ensures result == MonthHolidaysOf(FixedHolidays, month)
  {
    result := CollectMonthHolidays(FixedHolidays, month);
  }

  /** The loop of `getMonthHolidays`, over the entries of a table given
      as a parameter. */
  method CollectMonthHolidays(table: seq<(string, Holiday)>, month: int) returns (result: map<int, Holiday>)
    ensures result == MonthHolidaysOf(table, month)
  {
    result := map[];
    var monthStr := Pad2(month + 1);
    for k := 0 to |table|
      invariant result == MonthHolidaysOf(table[..k], month)
    {
      assert table[..k + 1][..k] == table[..k];
      var (key, holiday) := table[k];
      if StartsWith(key, monthStr + "-") {
        var parts := Split(key, '-');
        var day := ParseInt(if |parts| >= 2 then parts[1] else "");
        if day.Some? {
          result := result[day.value := holiday];
        }
      }
    }
    assert table[..|table|] == table;
  }

  // ---------------------------------------------------------------------
  // Keys

  /** The shape of every key of the table: two digits, `-`, two digits. */
  predicate KeyShaped(key: string) {
    |key| == 5 && TwoDigits(key[..2]) && key[2] == '-' && TwoDigits(key[3..])
  }

  lemma SplitShaped(key: string)
    requires KeyShaped(key)
    ensures Split(key, '-') == [key[..2], key[3..]]
    ensures SecondPiece(key) == key[3..]
  {
    NotInDigits(key[..2], '-');
    NotInDigits(key[3..], '-');
    assert key == key[..2] + ['-'] + key[3..];
    SplitAtSeparator(key[..2], '-', key[3..]);
    SplitNoSeparator(key[3..], '-');
  }

  /** `Pad2Shape` and `Pad2Value` together, as the key lemmas use them:
      two digits of value n on 0..99, a `-` in front of a negative n, and
      three or more digits from 100 on. */
  lemma Pad2Cases(n: int)
    ensures 0 <= n < 100 ==> TwoDigits(Pad2(n)) && DigitsValue(Pad2(n)) == n
    ensures n < 0 ==> Pad2(n)[0] == '-'
    ensures 100 <= n ==> 3 <= |Pad2(n)| && AllDigits(Pad2(n))
  {
    Pad2Shape(n);
    if 0 <= n {
      Pad2Value(n);
    }
  }

  /** A number-like string followed by `-` that starts a shaped key is
      the key's first two digits. */
  lemma ShapedPrefix(key: string, p: string)
    requires KeyShaped(key)
    requires |p| >= 1 && (p[0] == '-' || AllDigits(p))
    requires StartsWith(key, p + "-")
    ensures p == key[..2]
  {
    assert key[0] == p[0] && IsDigit(key[0]);
    assert (p + "-")[|p|] == '-' == key[|p|];
    if |p| != 2 {
      assert false;
    }
    assert key[..2] == (p + "-")[..2];
  }

  /** Two digits read back by `parseInt`, and padded back by `Pad2`. */
  lemma TwoDigitsRead(t: string)
    requires TwoDigits(t)
    ensures ParseInt(t) == Some(DigitsValue(t)) && Pad2(DigitsValue(t)) == t
  {
    ParseIntDigits(t, []);
    assert t + [] == t;
    Pad2OfTwoDigits(t);
  }

  /** A shaped key that passes the month test and reads as `day` is the
      key of that date. */
  lemma MonthTestGivesKey(key: string, month: int, day: int)
    requires KeyShaped(key)
    requires StartsWith(key, Pad2(month) + "-") && ParseInt(SecondPiece(key)) == Some(day)
    ensures key == HolidayKey(month, day)
  {
    SplitShaped(key);
    Pad2Cases(month);
    Pad2Shape(month);
    ShapedPrefix(key, Pad2(month));
    TwoDigitsRead(key[3..]);
    assert key == key[..2] + "-" + key[3..];
  }

  /** The key of a date passes the month test and reads back as the day. */
  lemma KeyPassesMonthTest(key: string, month: int, day: int)
    requires KeyShaped(key) && key == HolidayKey(month, day)
    ensures StartsWith(key, Pad2(month) + "-") && ParseInt(SecondPiece(key)) == Some(day)
  {
    SplitShaped(key);
    Pad2Shape(month);
    Pad2Shape(day);
    assert |Pad2(month)| == 2 && |Pad2(day)| == 2;
    assert key[3..] == Pad2(day);
    assert key[3] == Pad2(day)[0];
    Pad2Cases(day);
    ParseIntPad2(day);
    var p := Pad2(month) + "-";
    assert key[..|p|] == p;
  }

  /** On a shaped key, the month test and the day read of `getMonthHolidays`
      accept exactly the key `getHoliday` builds. */
  lemma MonthTestMatchesKey(key: string, month: int, day: int)
    requires KeyShaped(key)
    ensures StartsWith(key, Pad2(month) + "-") && ParseInt(SecondPiece(key)) == Some(day)
            <==> key == HolidayKey(month, day)
  {
    if StartsWith(key, Pad2(month) + "-") && ParseInt(SecondPiece(key)) == Some(day) {
      MonthTestGivesKey(key, month, day);
    }
    if key == HolidayKey(month, day) {
      KeyPassesMonthTest(key, month, day);
    }
  }

  /** Two dates with numbers in 0..99 have the same key only when they are equal. */
  lemma KeyInjective(month: int, day: int, month': int, day': int)
    requires 0 <= month < 100 && 0 <= day < 100
    ensures HolidayKey(month, day) == HolidayKey(month', day') <==> month == month' && day == day'
  {
    var key := HolidayKey(month, day);
    Pad2Cases(month);
    Pad2Cases(day);
    if key == HolidayKey(month', day') {
      Pad2Cases(month');
      Pad2Cases(day');
      Pad2Shape(month');
      Pad2Shape(day');
      assert |Pad2(month')| == 2 && |Pad2(day')| == 2;
      assert Pad2(month') == key[..2] == Pad2(month);
      assert Pad2(day') == key[3..] == Pad2(day);
      assert Pad2(month')[0] == Pad2(month)[0] && Pad2(day')[0] == Pad2(day)[0];
    }
  }

  /** The key of a date whose month and day lie in 0..99, digit by digit. */
  lemma KeyOfDate(month: int, day: int)
    requires 0 <= month < 100 && 0 <= day < 100
    ensures HolidayKey(month, day)
            == [DigitChar(month / 10), DigitChar(month % 10), '-', DigitChar(day / 10), DigitChar(day % 10)]
  {
    Pad2OfDigits(month / 10, month % 10);
    Pad2OfDigits(day / 10, day % 10);
  }

  /** `Pad2` of a number given by its two decimal digits. */
  lemma Pad2OfDigits(hi: nat, lo: nat)
    requires hi < 10 && lo < 10
    ensures Pad2(10 * hi + lo) == [DigitChar(hi), DigitChar(lo)]
  {
    var s := [DigitChar(hi), DigitChar(lo)];
    assert DigitsValue(s[..1]) == hi by {
      assert s[..1][..0] == [];
    }
    assert DigitsValue(s) == 10 * hi + lo;
    Pad2OfTwoDigits(s);
  }

  /** The characters of the table's key `i` are the digits of the date
      `Dates` lists beside it. */
  lemma TableKeyChars(i: int)
    requires 0 <= i < |FixedHolidays|
    ensures i < |Dates| && 1 <= Dates[i].0 <= 12 && 1 <= Dates[i].1 <= 31
    ensures FixedHolidays[i].0
            == [DigitChar(Dates[i].0 / 10), DigitChar(Dates[i].0 % 10), '-',
                DigitChar(Dates[i].1 / 10), DigitChar(Dates[i].1 % 10)]
  {
  }

  /** The key of the table's entry `i` is the key of the date `Dates` lists beside it. */
  lemma TableKeyAt(i: int)
    requires 0 <= i < |FixedHolidays|
    ensures i < |Dates| && 1 <= Dates[i].0 <= 12 && 1 <= Dates[i].1 <= 31
    ensures FixedHolidays[i].0 == HolidayKey(Dates[i].0, Dates[i].1)
  {
    TableKeyChars(i);
    KeyOfDate(Dates[i].0, Dates[i].1);
  }

  /** Each key of the table is the key of the date `Dates` lists beside it. */
  lemma TableKeys()
    ensures |Dates| == |FixedHolidays|
    ensures forall i :: 0 <= i < |FixedHolidays| ==>
              1 <= Dates[i].0 <= 12 && 1 <= Dates[i].1 <= 31
              && FixedHolidays[i].0 == HolidayKey(Dates[i].0, Dates[i].1)
  {
    forall i | 0 <= i < |FixedHolidays|
      ensures 1 <= Dates[i].0 <= 12 && 1 <= Dates[i].1 <= 31
      ensures FixedHolidays[i].0 == HolidayKey(Dates[i].0, Dates[i].1)
    {
      TableKeyAt(i);
    }
  }

  /** The dates of the table are distinct. */
  lemma DatesDistinct()
    ensures forall i, j :: 0 <= i < j < |Dates| ==> Dates[i] != Dates[j]
  {
  }

  /** The key of a date in 0..99 has the table's key shape. */
  lemma KeyOfDateShaped(month: int, day: int)
    requires 0 <= month < 100 && 0 <= day < 100
    ensures KeyShaped(HolidayKey(month, day))
  {
    Pad2Cases(month);
    Pad2Cases(day);
    var key := HolidayKey(month, day);
    assert key[..2] == Pad2(month) && key[3..] == Pad2(day);
  }

  lemma TableShaped()
    ensures forall i :: 0 <= i < |FixedHolidays| ==> KeyShaped(FixedHolidays[i].0)
  {
    forall i | 0 <= i < |FixedHolidays| ensures KeyShaped(FixedHolidays[i].0) {
      TableKeyAt(i);
      KeyOfDateShaped(Dates[i].0, Dates[i].1);
    }
  }

  /** `getHoliday` finds the holiday of a date the table lists. */
  lemma GetHolidayListed(month: int, day: int, i: int)
    requires 0 <= i < |Dates| && Dates[i] == (month + 1, day)
    ensures GetHoliday(month, day) == Some(FixedHolidays[i].1)
  {
    KeysMatchDates(month + 1, day);
    DatesDistinct();
    LookupUnique(FixedHolidays, HolidayKey(month + 1, day), i);
  }

  /** `getHoliday` finds nothing for a date the table does not list. */
  lemma GetHolidayUnlisted(month: int, day: int)
    requires forall i :: 0 <= i < |Dates| ==> Dates[i] != (month + 1, day)
    ensures GetHoliday(month, day) == None
  {
    KeysMatchDates(month + 1, day);
  }

  /** `getHoliday(month, day)` finds an entry exactly when the table lists
      the date (month `month + 1`, day `day`), and then it is that entry's holiday. */
  lemma GetHolidayByDate(month: int, day: int)
    ensures GetHoliday(month, day).None? <==> forall i :: 0 <= i < |Dates| ==> Dates[i] != (month + 1, day)
    ensures forall i :: 0 <= i < |Dates| && Dates[i] == (month + 1, day) ==>
              GetHoliday(month, day) == Some(FixedHolidays[i].1)
  {
    forall i | 0 <= i < |Dates| && Dates[i] == (month + 1, day)
      ensures GetHoliday(month, day) == Some(FixedHolidays[i].1)
    {
      GetHolidayListed(month, day, i);
    }
    if forall i :: 0 <= i < |Dates| ==> Dates[i] != (month + 1, day) {
      GetHolidayUnlisted(month, day);
    }
  }

  /** A key held by exactly one entry finds that entry. */
  lemma {:induction false} LookupUnique(table: seq<(string, Holiday)>, key: string, i: int)
    requires 0 <= i < |table| && table[i].0 == key
    requires forall j :: 0 <= j < |table| && j != i ==> table[j].0 != key
    ensures Lookup(table, key) == Some(table[i].1)
  {
    if i < |table| - 1 {
      var front := table[..|table| - 1];
      assert forall j :: 0 <= j < |front| ==> front[j] == table[j];
      LookupUnique(front, key, i);
    }
  }

  /** A table key is the key of a date exactly when `Dates` lists that date beside it. */
  lemma KeysMatchDates(month: int, day: int)
    ensures |Dates| == |FixedHolidays|
    ensures forall i :: 0 <= i < |Dates| ==> (FixedHolidays[i].0 == HolidayKey(month, day) <==> Dates[i] == (month, day))
  {
    TableKeys();
    forall i | 0 <= i < |Dates|
      ensures FixedHolidays[i].0 == HolidayKey(month, day) <==> Dates[i] == (month, day)
    {
      KeyInjective(Dates[i].0, Dates[i].1, month, day);
    }
  }

  /** On a table of shaped keys, the per-month map has day `day` exactly
      when a lookup of the date's key finds an entry, and holds that entry. */
  lemma {:induction false} MonthHolidaysLookup(table: seq<(string, Holiday)>, month: int, day: int)
    requires forall i :: 0 <= i < |table| ==> KeyShaped(table[i].0)
    ensures day in MonthHolidaysOf(table, month) <==> Lookup(table, HolidayKey(month + 1, day)).Some?
    ensures day in MonthHolidaysOf(table, month) ==>
              MonthHolidaysOf(table, month)[day] == Lookup(table, HolidayKey(month + 1, day)).value
  {
    if table != [] {
      var front := table[..|table| - 1];
      var (key, holiday) := table[|table| - 1];
      assert forall i :: 0 <= i < |front| ==> front[i] == table[i];
      MonthHolidaysLookup(front, month, day);
      MonthTestMatchesKey(key, month + 1, day);
    }
  }

  /** `getMonthHolidays(month)` maps `day` to `h` exactly when
      `getHoliday(month, day)` is `h`; so it holds no day of another month. */
  lemma MonthHolidaysAgree(month: int, day: int)
    ensures day in MonthHolidaysOf(FixedHolidays, month) <==> GetHoliday(month, day).Some?
    ensures day in MonthHolidaysOf(FixedHolidays, month) ==>
              GetHoliday(month, day) == Some(MonthHolidaysOf(FixedHolidays, month)[day])
  {
    TableShaped();
    MonthHolidaysLookup(FixedHolidays, month, day);
  }

  /** `getHoliday(0, 1)` is New Year's Day. */
  lemma NewYearsDay()
    ensures GetHoliday(0, 1) == Some(Holiday("Новый год", true))
  {
    GetHolidayListed(0, 1, 0);
  }

  /** `getHoliday(0, 7)` is Orthodox Christmas. */
  lemma ChristmasDay()
    ensures GetHoliday(0, 7) == Some(Holiday("Рождество Христово", true))
  {
    GetHolidayListed(0, 7, 6);
  }

  /** `getHoliday(3, 15)` is `null`: April 15 is not in the table. */
  lemma NoHolidayOnAprilFifteenth()
    ensures GetHoliday(3, 15) == None
  {
    assert forall i :: 0 <= i < |Dates| ==> Dates[i] != (4, 15);
    GetHolidayUnlisted(3, 15);
  }

  /** Every holiday of the table is an official day off. */
  lemma AllOfficial()
    ensures forall i :: 0 <= i < |FixedHolidays| ==> FixedHolidays[i].1.official
  {
  }

  /** The days the table lists for a month (0-based). */
  ghost function ListedDays(month: int): set<int> {
    set i | 0 <= i < |Dates| && Dates[i].0 == month + 1 :: Dates[i].1
  }

  /** The days of the per-month map are the days the table lists for that month. */
  lemma MonthHolidayDays(month: int)
    ensures MonthHolidaysOf(FixedHolidays, month).Keys == ListedDays(month)
  {
    forall day ensures day in MonthHolidaysOf(FixedHolidays, month) <==> day in ListedDays(month) {
      MonthHolidaysAgree(month, day);
      GetHolidayByDate(month, day);
      if day in ListedDays(month) {
        var i :| 0 <= i < |Dates| && Dates[i].0 == month + 1 && Dates[i].1 == day;
        assert Dates[i] == (month + 1, day);
      }
    }
  }

  /** A day is listed for a month exactly when `Dates` holds that date. */
  lemma ListedDaysMembers(month: int)
    ensures forall day :: day in ListedDays(month) <==> exists i :: 0 <= i < |Dates| && Dates[i] == (month + 1, day)
  {
    forall day | day in ListedDays(month) ensures exists i :: 0 <= i < |Dates| && Dates[i] == (month + 1, day) {
      var i :| 0 <= i < |Dates| && Dates[i].0 == month + 1 && Dates[i].1 == day;
      assert Dates[i] == (month + 1, day);
    }
  }

  /** The table lists days 1 to 8 for January. */
  lemma ListedInJanuary()
    ensures ListedDays(0) == {1, 2, 3, 4, 5, 6, 7, 8}
  {
    ListedDaysMembers(0);
    forall day ensures day in ListedDays(0) <==> 1 <= day <= 8 {
      if 1 <= day <= 8 {
        assert Dates[day - 1] == (1, day);
      }
    }
  }

  /** The table lists days 1 and 9 for May. */
  lemma ListedInMay()
    ensures ListedDays(4) == {1, 9}
  {
    ListedDaysMembers(4);
    assert Dates[10] == (5, 1) && Dates[11] == (5, 9);
  }

  /** The table lists nothing for April, July to October and December. */
  lemma ListedNothing(month: int)
    requires month == 3 || month == 6 || month == 7 || month == 8 || month == 9 || month == 11
    ensures ListedDays(month) == {}
  {
    ListedDaysMembers(month);
  }

  /** January (month 0) holds days 1 to 8. */
  lemma JanuaryHolidays()
    ensures MonthHolidaysOf(FixedHolidays, 0).Keys == {1, 2, 3, 4, 5, 6, 7, 8}
  {
    MonthHolidayDays(0);
    ListedInJanuary();
  }

  /** May (month 4) holds days 1 and 9. */
  lemma MayHolidays()
    ensures MonthHolidaysOf(FixedHolidays, 4).Keys == {1, 9}
  {
    MonthHolidayDays(4);
    ListedInMay();
  }

  /** April, July to October and December hold no fixed holiday. */
  lemma MonthsWithoutHolidays(month: int)
    requires month == 3 || month == 6 || month == 7 || month == 8 || month == 9 || month == 11
    ensures MonthHolidaysOf(FixedHolidays, month) == map[]
  {
    MonthHolidayDays(month);
    ListedNothing(month);
  }
}
