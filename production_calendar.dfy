/** The production calendar: the bundled per-year lists of non-working,
    transferred and shortened days, how one month's day list is decoded,
    the memoising per-year parse, and the day queries built on it. */
module ProductionCalendar {

  import opened Optional
  import opened JsText

  /** What one month of the production calendar says about its days. */
  datatype MonthCalendarData = MonthCalendarData(
    nonWorkingDays: set<int>,
    transferredHolidays: set<int>,
    shortenedDays: set<int>)

  /** A parsed year: month index 0..11 to that month's data. */
  type YearData = map<int, MonthCalendarData>

  /** One entry of a year in the bundled data: 1-based month and its day list. */
  datatype RawMonth = RawMonth(month: int, days: string)

  /** The bundled data: year to its list of month entries. */
  type CalendarJson = map<int, seq<RawMonth>>

  const NoDays := MonthCalendarData({}, {}, {})

  // ---------------------------------------------------------------------
  // Decoding a day list

  /** What a suffix says about a listed day. */
  datatype Mark = Plain | Transferred | Shortened

  datatype DayToken = DayToken(day: int, mark: Mark)

  /** How one comma-separated piece is read: trimmed; blank, or with no
      leading integer, it says nothing; a trailing `+` marks a transferred
      day off, checked before a trailing `*`, which marks a shortened day;
      otherwise the day is a plain day off. */
  function ReadToken(part: string): Option<DayToken> {
    var trimmed := Trim(part);
    if trimmed == [] then None
    else if EndsWith(trimmed, '+') then
      match ParseInt(trimmed[..|trimmed| - 1])
      case None => None
      case Some(d) => Some(DayToken(d, Transferred))
    else if EndsWith(trimmed, '*') then
      match ParseInt(trimmed[..|trimmed| - 1])
      case None => None
      case Some(d) => Some(DayToken(d, Shortened))
    else
      match ParseInt(trimmed)
      case None => None
      case Some(d) => Some(DayToken(d, Plain))
  }

  /** The sets after one more piece: a plain or transferred day is a day
      off, a transferred one is also recorded as transferred, a shortened
      one goes to the shortened days only. */
  function Record(data: MonthCalendarData, token: Option<DayToken>): MonthCalendarData {
    match token
    case None => data
    case Some(DayToken(d, Plain)) => data.(nonWorkingDays := data.nonWorkingDays + {d})
    case Some(DayToken(d, Transferred)) =>
      data.(nonWorkingDays := data.nonWorkingDays + {d},
            transferredHolidays := data.transferredHolidays + {d})
    case Some(DayToken(d, Shortened)) => data.(shortenedDays := data.shortenedDays + {d})
  }

  /** The sets recorded by a sequence of read pieces, left to right. */
  function RecordAll(tokens: seq<Option<DayToken>>): MonthCalendarData {
    if tokens == [] then NoDays
    else Record(RecordAll(tokens[..|tokens| - 1]), tokens[|tokens| - 1])
  }

  /** Each piece read on its own. */
  function ReadTokens(parts: seq<string>): (tokens: seq<Option<DayToken>>)
    ensures |tokens| == |parts|
  {
    if parts == [] then [] else ReadTokens(parts[..|parts| - 1]) + [ReadToken(parts[|parts| - 1])]
  }

  lemma {:induction false} ReadTokensAt(parts: seq<string>, i: int)
    requires 0 <= i < |parts|
    ensures ReadTokens(parts)[i] == ReadToken(parts[i])
  {
    if i < |parts| - 1 {
      ReadTokensAt(parts[..|parts| - 1], i);
    }
  }

  /** The pieces `parseDays` reads: none for the empty string, otherwise
      the pieces between commas. */
  function Pieces(daysStr: string): seq<string> {
    if daysStr == [] then [] else Split(daysStr, ',')
  }

  /** `parseDays(daysStr)` as a value. */
  function DecodeDays(daysStr: string): MonthCalendarData {
    RecordAll(ReadTokens(Pieces(daysStr)))
  }

  /** Some read piece is day `d` with the given mark. */
  predicate Has(tokens: seq<Option<DayToken>>, d: int, mark: Mark) {
    exists i :: 0 <= i < |tokens| && tokens[i] == Some(DayToken(d, mark))
  }

  /** Some piece reads as day `d` with the given mark. */
  predicate Listed(parts: seq<string>, d: int, mark: Mark) {
    exists i :: 0 <= i < |parts| && ReadToken(parts[i]) == Some(DayToken(d, mark))
  }

  lemma HasSnoc(tokens: seq<Option<DayToken>>, d: int, mark: Mark)
    requires tokens != []
    ensures Has(tokens, d, mark)
            <==> Has(tokens[..|tokens| - 1], d, mark) || tokens[|tokens| - 1] == Some(DayToken(d, mark))
  {
    var front := tokens[..|tokens| - 1];
    if Has(front, d, mark) {
      var i :| 0 <= i < |front| && front[i] == Some(DayToken(d, mark));
      assert tokens[i] == front[i];
    }
    if Has(tokens, d, mark) {
      var i :| 0 <= i < |tokens| && tokens[i] == Some(DayToken(d, mark));
      if i < |front| {
        assert front[i] == tokens[i];
      }
    }
  }

  /** Each set holds exactly the days some piece lists with the matching
      mark: a day is off when listed plain or transferred, transferred
      when listed transferred, shortened when listed shortened. Pieces
      that read as nothing contribute nothing, wherever they stand. */
  lemma {:induction false} RecordAllMembership(tokens: seq<Option<DayToken>>, d: int)
    ensures var data := RecordAll(tokens);
            && (d in data.nonWorkingDays <==> Has(tokens, d, Plain) || Has(tokens, d, Transferred))
            && (d in data.transferredHolidays <==> Has(tokens, d, Transferred))
            && (d in data.shortenedDays <==> Has(tokens, d, Shortened))
  {
    if tokens != [] {
      RecordAllMembership(tokens[..|tokens| - 1], d);
      HasSnoc(tokens, d, Plain);
      HasSnoc(tokens, d, Transferred);
      HasSnoc(tokens, d, Shortened);
    }
  }

  lemma ListedIsHas(parts: seq<string>, d: int, mark: Mark)
    ensures Listed(parts, d, mark) <==> Has(ReadTokens(parts), d, mark)
  {
    var tokens := ReadTokens(parts);
    if Listed(parts, d, mark) {
      var i :| 0 <= i < |parts| && ReadToken(parts[i]) == Some(DayToken(d, mark));
      ReadTokensAt(parts, i);
    }
    if Has(tokens, d, mark) {
      var i :| 0 <= i < |tokens| && tokens[i] == Some(DayToken(d, mark));
      ReadTokensAt(parts, i);
    }
  }

  /** `parseDays` in terms of the pieces of its input. */
  lemma DecodeDaysMembership(daysStr: string, d: int)
    ensures var data := DecodeDays(daysStr);
            var parts := Pieces(daysStr);
            && (d in data.nonWorkingDays <==> Listed(parts, d, Plain) || Listed(parts, d, Transferred))
            && (d in data.transferredHolidays <==> Listed(parts, d, Transferred))
            && (d in data.shortenedDays <==> Listed(parts, d, Shortened))
  {
    var parts := Pieces(daysStr);
    RecordAllMembership(ReadTokens(parts), d);
    ListedIsHas(parts, d, Plain);
    ListedIsHas(parts, d, Transferred);
    ListedIsHas(parts, d, Shortened);
  }

  /** A piece with nothing to trim at either end is read as it stands. */
  lemma TrimNothing(s: string)
    requires s != [] && !IsJsWhitespace(s[0]) && !IsJsWhitespace(s[|s| - 1])
    ensures Trim(s) == s
  {
    TrimStartNothing(s);
    TrimEndNothing(s);
  }

  /** A bare day number is a plain day off. */
  lemma ReadTokenPlain(n: nat)
    ensures ReadToken(NatToString(n)) == Some(DayToken(n, Plain))
  {
    var s := NatToString(n);
    NatToStringDigits(n);
    DigitIsNotWhitespace(s[0]);
    DigitIsNotWhitespace(s[|s| - 1]);
    TrimNothing(s);
    ParseIntDigits(s, []);
    assert s + [] == s;
    NatToStringValue(n);
  }

  /** A day number with the suffix `suffix` appended: trimming keeps it,
      and the number before the suffix reads back. */
  lemma ReadSuffixed(n: nat, suffix: char)
    requires suffix == '+' || suffix == '*'
    ensures var s := NatToString(n) + [suffix];
            Trim(s) == s && EndsWith(s, suffix) && ParseInt(s[..|s| - 1]) == Some(n)
  {
    var digits := NatToString(n);
    var s := digits + [suffix];
    NatToStringDigits(n);
    assert s[0] == digits[0];
    DigitIsNotWhitespace(digits[0]);
    TrimNothing(s);
    assert s[..|s| - 1] == digits + [];
    ParseIntDigits(digits, []);
    NatToStringValue(n);
  }

  /** A day number followed by `+` is a transferred day off. */
  lemma ReadTokenTransferred(n: nat)
    ensures ReadToken(NatToString(n) + "+") == Some(DayToken(n, Transferred))
  {
    ReadSuffixed(n, '+');
  }

  /** A day number followed by `*` is a shortened day. */
  lemma ReadTokenShortened(n: nat)
    ensures ReadToken(NatToString(n) + "*") == Some(DayToken(n, Shortened))
  {
    ReadSuffixed(n, '*');
    assert EndsWith(NatToString(n) + "*", '*') && !EndsWith(NatToString(n) + "*", '+');
  }

  /** With both suffixes the last one decides, because `parseInt` ignores
      the other: `n*+` is transferred and `n+*` is shortened. */
  lemma ReadTokenBothSuffixes(n: nat)
    ensures ReadToken(NatToString(n) + "*+") == Some(DayToken(n, Transferred))
    ensures ReadToken(NatToString(n) + "+*") == Some(DayToken(n, Shortened))
  {
    var digits := NatToString(n);
    NatToStringDigits(n);
    NatToStringValue(n);
    DigitIsNotWhitespace(digits[0]);
    var a := digits + "*+";
    var b := digits + "+*";
    assert a[0] == digits[0] && b[0] == digits[0];
    TrimNothing(a);
    TrimNothing(b);
    assert a[..|a| - 1] == digits + "*";
    assert b[..|b| - 1] == digits + "+";
    ParseIntDigits(digits, "*");
    ParseIntDigits(digits, "+");
  }

  /** A blank piece, or one with no leading number, says nothing. */
  lemma ReadTokenNothing()
    ensures ReadToken("") == None
    ensures ReadToken(" ") == None
    ensures ReadToken("x") == None
    ensures ReadToken("+") == None
  {
    assert TrimStart(" ") == [] by { assert " "[1..] == []; }
    TrimNothing("x");
    TrimNothing("+");
    ParseIntNaN();
    assert "+"[..0] == "";
    TrimStartNothing("x");
    assert !IsDigit('x');
  }

  /** An empty day list leaves all three sets empty. */
  lemma DecodeDaysEmpty()
    ensures DecodeDays("") == MonthCalendarData({}, {}, {})
  {
  }

  /** Every transferred day is also a day off, whatever the input. */
  lemma TransferredAreNonWorking(daysStr: string)
    ensures DecodeDays(daysStr).transferredHolidays <= DecodeDays(daysStr).nonWorkingDays
  {
    forall d | d in DecodeDays(daysStr).transferredHolidays
      ensures d in DecodeDays(daysStr).nonWorkingDays
    {
      DecodeDaysMembership(daysStr, d);
    }
  }

  /** Piece `i` of the day list `"1,2,3,4,5,6,7,8,9+,10,11,30*"` given as
      an example of the format: the day numbers as `String` prints them,
      `+` after day 9 and `*` after day 30. */
  function SamplePiece(i: int): string
    requires 0 <= i < 12
  {
    if i == 8 then NatToString(9) + "+"
    else if i == 11 then NatToString(30) + "*"
    else NatToString(i + 1)
  }

  /** What piece `i` of the example reads as. */
  function SampleToken(i: int): Option<DayToken> {
    if i == 8 then Some(DayToken(9, Transferred))
    else if i == 11 then Some(DayToken(30, Shortened))
    else Some(DayToken(i + 1, Plain))
  }

  lemma SampleTokenAt(i: int)
    requires 0 <= i < 12
    ensures ',' !in SamplePiece(i) && SamplePiece(i) != []
    ensures ReadToken(SamplePiece(i)) == SampleToken(i)
  {
    var n := if i == 8 then 9 else if i == 11 then 30 else i + 1;
    NatToStringDigits(n);
    NotInDigits(NatToString(n), ',');
    if i == 8 {
      ReadTokenTransferred(9);
    } else if i == 11 {
      ReadTokenShortened(30);
    } else {
      ReadTokenPlain(i + 1);
    }
  }

  /** A day list written as comma-free pieces joined by commas is read
      back piece by piece. */
  lemma JoinedPieces(parts: seq<string>)
    requires |parts| >= 1 && Join(parts, ',') != [] && forall i :: 0 <= i < |parts| ==> ',' !in parts[i]
    ensures Pieces(Join(parts, ',')) == parts
  {
    SplitJoin(parts, ',');
  }

  /** The pieces of the example, as `String` prints the day numbers. */
  lemma SamplePiecesText()
    ensures seq(12, SamplePiece) == ["1", "2", "3", "4", "5", "6", "7", "8", "9+", "10", "11", "30*"]
  {
    var parts := seq(12, SamplePiece);
    var text := ["1", "2", "3", "4", "5", "6", "7", "8", "9+", "10", "11", "30*"];
    forall i | 0 <= i < 12 ensures parts[i] == text[i] {
      if i < 8 {
        assert NatToString(i + 1) == [DigitChar(i + 1)];
      } else if i == 8 {
        assert NatToString(9) == "9";
      } else if i == 9 {
        assert NatToString(10) == "10";
      } else if i == 10 {
        assert NatToString(11) == "11";
      } else {
        assert NatToString(30) == "30";
      }
    }
  }

  /** `Join` of the example's pieces, unfolded from the last piece on. */
  lemma SampleJoinUnfolded()
    ensures Join(["1", "2", "3", "4", "5", "6", "7", "8", "9+", "10", "11", "30*"], ',')
            == "1" + [','] + ("2" + [','] + ("3" + [','] + ("4" + [','] + ("5" + [','] + ("6" + [','] + ("7" + [','] + ("8" + [','] + ("9+" + [','] + ("10" + [','] + ("11" + [','] + ("30*")))))))))))
  {
    JoinCons("11", ["30*"], "30*", ',');
    JoinCons("10", ["11", "30*"], "11" + [','] + ("30*"), ',');
    JoinCons("9+", ["10", "11", "30*"], "10" + [','] + ("11" + [','] + ("30*")), ',');
    JoinCons("8", ["9+", "10", "11", "30*"], "9+" + [','] + ("10" + [','] + ("11" + [','] + ("30*"))), ',');
    JoinCons("7", ["8", "9+", "10", "11", "30*"], "8" + [','] + ("9+" + [','] + ("10" + [','] + ("11" + [','] + ("30*")))), ',');
    JoinCons("6", ["7", "8", "9+", "10", "11", "30*"], "7" + [','] + ("8" + [','] + ("9+" + [','] + ("10" + [','] + ("11" + [','] + ("30*"))))), ',');
    JoinCons("5", ["6", "7", "8", "9+", "10", "11", "30*"], "6" + [','] + ("7" + [','] + ("8" + [','] + ("9+" + [','] + ("10" + [','] + ("11" + [','] + ("30*")))))), ',');
    JoinCons("4", ["5", "6", "7", "8", "9+", "10", "11", "30*"], "5" + [','] + ("6" + [','] + ("7" + [','] + ("8" + [','] + ("9+" + [','] + ("10" + [','] + ("11" + [','] + ("30*"))))))), ',');
    JoinCons("3", ["4", "5", "6", "7", "8", "9+", "10", "11", "30*"], "4" + [','] + ("5" + [','] + ("6" + [','] + ("7" + [','] + ("8" + [','] + ("9+" + [','] + ("10" + [','] + ("11" + [','] + ("30*")))))))), ',');
    JoinCons("2", ["3", "4", "5", "6", "7", "8", "9+", "10", "11", "30*"], "3" + [','] + ("4" + [','] + ("5" + [','] + ("6" + [','] + ("7" + [','] + ("8" + [','] + ("9+" + [','] + ("10" + [','] + ("11" + [','] + ("30*"))))))))), ',');
    JoinCons("1", ["2", "3", "4", "5", "6", "7", "8", "9+", "10", "11", "30*"], "2" + [','] + ("3" + [','] + ("4" + [','] + ("5" + [','] + ("6" + [','] + ("7" + [','] + ("8" + [','] + ("9+" + [','] + ("10" + [','] + ("11" + [','] + ("30*")))))))))), ',');
  }

  lemma SampleTextFlat()
    ensures "1" + [','] + ("2" + [','] + ("3" + [','] + ("4" + [','] + ("5" + [','] + ("6" + [','] + ("7" + [','] + ("8" + [','] + ("9+" + [','] + ("10" + [','] + ("11" + [','] + ("30*")))))))))))
            == "1,2,3,4,5,6,7,8,9+,10,11,30*"
  {
  }

  /** The example pieces joined by commas are the example's text,
      `"1,2,3,4,5,6,7,8,9+,10,11,30*"`. This and the three lemmas above
      (`SamplePiecesText`, `SampleJoinUnfolded`, `SampleTextFlat`) only
      connect `Join(seq(12, SamplePiece), ',')` to that literal, in steps
      small enough for the solver; they model nothing themselves. */
  lemma SampleDayListText()
    ensures Join(seq(12, SamplePiece), ',') == "1,2,3,4,5,6,7,8,9+,10,11,30*"
  {
    SamplePiecesText();
    SampleJoinUnfolded();
    SampleTextFlat();
  }

  /** The example of the format decodes as its comment says: days 1 to 11
      off, day 9 transferred, day 30 shortened. */
  lemma SampleDayList()
    ensures var data := DecodeDays("1,2,3,4,5,6,7,8,9+,10,11,30*");
            && (forall d :: d in data.nonWorkingDays <==> 1 <= d <= 11)
            && data.transferredHolidays == {9}
            && data.shortenedDays == {30}
  {
    SampleDayListText();
    var parts := seq(12, SamplePiece);
    forall i | 0 <= i < 12 ensures ',' !in parts[i] && ReadToken(parts[i]) == SampleToken(i) {
      SampleTokenAt(i);
    }
    SampleTokenAt(0);
    JoinedPieces(parts);
    forall i | 0 <= i < 12 ensures ReadTokens(parts)[i] == SampleToken(i) {
      ReadTokensAt(parts, i);
    }
    SampleSets(ReadTokens(parts));
  }

  lemma SampleSets(tokens: seq<Option<DayToken>>)
    requires |tokens| == 12 && forall i :: 0 <= i < 12 ==> tokens[i] == SampleToken(i)
    ensures var data := RecordAll(tokens);
            && (forall d :: d in data.nonWorkingDays <==> 1 <= d <= 11)
            && data.transferredHolidays == {9}
            && data.shortenedDays == {30}
  {
    var data := RecordAll(tokens);
    forall d ensures d in data.nonWorkingDays <==> 1 <= d <= 11 {
      RecordAllMembership(tokens, d);
      if 1 <= d <= 11 {
        assert tokens[d - 1] == SampleToken(d - 1);
      }
    }
    forall d ensures d in data.transferredHolidays <==> d == 9 {
      RecordAllMembership(tokens, d);
      assert tokens[8] == SampleToken(8);
    }
    forall d ensures d in data.shortenedDays <==> d == 30 {
      RecordAllMembership(tokens, d);
      assert tokens[11] == SampleToken(11);
    }
  }

  /** `parseDays`: splits on commas and adds each readable piece's day to
      the sets its suffix names. */
  method ParseDays(daysStr: string) returns (data: MonthCalendarData)
    ensures data == DecodeDays(daysStr)
  {
    var nonWorkingDays: set<int> := {};
    var transferredHolidays: set<int> := {};
    var shortenedDays: set<int> := {};

    if daysStr == [] {
      return MonthCalendarData(nonWorkingDays, transferredHolidays, shortenedDays);
    }

    var parts := Split(daysStr, ',');
    ghost var tokens := ReadTokens(parts);
    for k := 0 to |parts|
      invariant MonthCalendarData(nonWorkingDays, transferredHolidays, shortenedDays) == RecordAll(tokens[..k])
    {
      assert tokens[..k + 1][..k] == tokens[..k];
      ReadTokensAt(parts, k);
      var trimmed := Trim(parts[k]);
      if trimmed == [] {
        continue;
      }
      if EndsWith(trimmed, '+') {
        var day := ParseInt(trimmed[..|trimmed| - 1]);
        if day.Some? {
          nonWorkingDays := nonWorkingDays + {day.value};
          transferredHolidays := transferredHolidays + {day.value};
        }
      } else if EndsWith(trimmed, '*') {
        var day := ParseInt(trimmed[..|trimmed| - 1]);
        if day.Some? {
          shortenedDays := shortenedDays + {day.value};
        }
      } else {
        var day := ParseInt(trimmed);
        if day.Some? {
          nonWorkingDays := nonWorkingDays + {day.value};
        }
      }
    }
    assert tokens[..|parts|] == tokens;
    data := MonthCalendarData(nonWorkingDays, transferredHolidays, shortenedDays);
  }

  // ---------------------------------------------------------------------
  // A year's months

  /** Each entry parsed: key `month - 1` and the decoded day list. */
  function ParsedMonths(raw: seq<RawMonth>): (entries: seq<(int, MonthCalendarData)>)
    ensures |entries| == |raw|
  {
    if raw == [] then []
    else ParsedMonths(raw[..|raw| - 1]) + [(raw[|raw| - 1].month - 1, DecodeDays(raw[|raw| - 1].days))]
  }

  lemma {:induction false} ParsedMonthsAt(raw: seq<RawMonth>, i: int)
    requires 0 <= i < |raw|
    ensures ParsedMonths(raw)[i] == (raw[i].month - 1, DecodeDays(raw[i].days))
  {
    if i < |raw| - 1 {
      ParsedMonthsAt(raw[..|raw| - 1], i);
    }
  }

  /** A map filled by `set` calls in order, so a later key overwrites an earlier one. */
  function MapOf(entries: seq<(int, MonthCalendarData)>): YearData {
    if entries == [] then map[]
    else
      var last := entries[|entries| - 1];
      MapOf(entries[..|entries| - 1])[last.0 := last.1]
  }

  /** The months of a year entry list: entry month `m` goes to key `m - 1`. */
  function YearMonths(raw: seq<RawMonth>): YearData {
    MapOf(ParsedMonths(raw))
  }

  /** The position of the last entry naming month index `monthIndex`
      (entry month `monthIndex + 1`), if there is one. */
  function LastEntry(raw: seq<RawMonth>, monthIndex: int): (r: Option<nat>)
    ensures r.None? <==> forall i :: 0 <= i < |raw| ==> raw[i].month - 1 != monthIndex
    ensures r.Some? ==>
              && r.value < |raw| && raw[r.value].month - 1 == monthIndex
              && forall j :: r.value < j < |raw| ==> raw[j].month - 1 != monthIndex
  {
    if raw == [] then None
    else if raw[|raw| - 1].month - 1 == monthIndex then Some(|raw| - 1)
    else LastEntry(raw[..|raw| - 1], monthIndex)
  }

  /** A month index has data exactly when some entry names it, and then
      the data is the decoding of the last entry that names it. */
  lemma {:induction false} YearMonthsLookup(raw: seq<RawMonth>, monthIndex: int)
    ensures monthIndex in YearMonths(raw) <==> LastEntry(raw, monthIndex).Some?
    ensures LastEntry(raw, monthIndex).Some? ==>
              YearMonths(raw)[monthIndex] == DecodeDays(raw[LastEntry(raw, monthIndex).value].days)
  {
    if raw != [] {
      var front := raw[..|raw| - 1];
      var last := raw[|raw| - 1];
      YearMonthsLookup(front, monthIndex);
      var entries := ParsedMonths(raw);
      assert entries[..|entries| - 1] == ParsedMonths(front);
      assert YearMonths(raw) == YearMonths(front)[last.month - 1 := DecodeDays(last.days)];
      if last.month - 1 != monthIndex && LastEntry(front, monthIndex).Some? {
        assert raw[LastEntry(front, monthIndex).value] == front[LastEntry(front, monthIndex).value];
      }
    }
  }

  /** What the bundled data says about a year, parsed. */
  function YearDataOf(json: CalendarJson, year: int): Option<YearData> {
    if year in json then Some(YearMonths(json[year])) else None
  }

  /** The data of `monthIndex` in `year`, if both are present. */
  function MonthDataOf(json: CalendarJson, year: int, monthIndex: int): Option<MonthCalendarData> {
    match YearDataOf(json, year)
    case None => None
    case Some(months) => if monthIndex in months then Some(months[monthIndex]) else None
  }

  /** `isNonWorkingDay`, `isTransferredHoliday`, `isShortenedDay` as values. */
  predicate DayOff(json: CalendarJson, year: int, monthIndex: int, day: int) {
    match MonthDataOf(json, year, monthIndex)
    case None => false
    case Some(data) => day in data.nonWorkingDays
  }

  predicate DayTransferred(json: CalendarJson, year: int, monthIndex: int, day: int) {
    match MonthDataOf(json, year, monthIndex)
    case None => false
    case Some(data) => day in data.transferredHolidays
  }

  predicate DayShortened(json: CalendarJson, year: int, monthIndex: int, day: int) {
    match MonthDataOf(json, year, monthIndex)
    case None => false
    case Some(data) => day in data.shortenedDays
  }

  /** Transferred days are days off, in one month's data. */
  predicate Consistent(data: MonthCalendarData) {
    data.transferredHolidays <= data.nonWorkingDays
  }

  lemma {:induction false} MapOfConsistent(entries: seq<(int, MonthCalendarData)>)
    requires forall i :: 0 <= i < |entries| ==> Consistent(entries[i].1)
    ensures forall key :: key in MapOf(entries) ==> Consistent(MapOf(entries)[key])
  {
    if entries != [] {
      MapOfConsistent(entries[..|entries| - 1]);
    }
  }

  /** Every month of a parsed year has its transferred days among its days off. */
  lemma YearMonthsConsistent(raw: seq<RawMonth>)
    ensures forall key :: key in YearMonths(raw) ==> Consistent(YearMonths(raw)[key])
  {
    var entries := ParsedMonths(raw);
    forall i | 0 <= i < |entries| ensures Consistent(entries[i].1) {
      ParsedMonthsAt(raw, i);
      TransferredAreNonWorking(raw[i].days);
    }
    MapOfConsistent(entries);
  }

  /** A transferred holiday is always a non-working day. */
  lemma TransferredImpliesNonWorking(json: CalendarJson, year: int, monthIndex: int, day: int)
    requires DayTransferred(json, year, monthIndex, day)
    ensures DayOff(json, year, monthIndex, day)
  {
    YearMonthsConsistent(json[year]);
  }

  /** All three queries are false for a year missing from the data. */
  lemma QueriesOfMissingYear(json: CalendarJson, year: int, monthIndex: int, day: int)
    requires year !in json
    ensures !DayOff(json, year, monthIndex, day) && !DayTransferred(json, year, monthIndex, day)
    ensures !DayShortened(json, year, monthIndex, day)
  {
  }

  /** All three queries are false for a month no entry of the year names. */
  lemma QueriesOfMissingMonth(json: CalendarJson, year: int, monthIndex: int, day: int)
    requires year in json && forall i :: 0 <= i < |json[year]| ==> json[year][i].month - 1 != monthIndex
    ensures !DayOff(json, year, monthIndex, day) && !DayTransferred(json, year, monthIndex, day)
    ensures !DayShortened(json, year, monthIndex, day)
  {
    YearMonthsLookup(json[year], monthIndex);
  }

  /** The queries read a listed day back from the last entry for the
      month: day `d` is off exactly when that entry lists it without a
      suffix or with `+`, transferred when it lists it with `+`, and
      shortened when it lists it with `*`. */
  lemma QueriesFollowTheData(json: CalendarJson, year: int, monthIndex: int, day: int, i: int)
    requires year in json && LastEntry(json[year], monthIndex) == Some(i)
    ensures var parts := Pieces(json[year][i].days);
            && (DayOff(json, year, monthIndex, day) <==> Listed(parts, day, Plain) || Listed(parts, day, Transferred))
            && (DayTransferred(json, year, monthIndex, day) <==> Listed(parts, day, Transferred))
            && (DayShortened(json, year, monthIndex, day) <==> Listed(parts, day, Shortened))
  {
    YearMonthsLookup(json[year], monthIndex);
    DecodeDaysMembership(json[year][i].days, day);
  }

  // ---------------------------------------------------------------------
  // Years in the data

  /** `hasDataForYear`. */
  predicate HasDataForYear(json: CalendarJson, year: int) {
    year in json
  }

  lemma Inhabited(years: set<int>)
    requires years != {}
    ensures exists y :: y in years
  {
    if forall y :: y !in years {
      assert false;
    }
  }

  /** The smallest element of a non-empty finite set of years. */
  ghost function MinYearOf(years: set<int>): (m: int)
    requires years != {}
    ensures m in years && forall y :: y in years ==> m <= y
  {
    Inhabited(years);
    var y :| y in years;
    var others := years - {y};
    assert forall z :: z in years ==> z == y || z in others;
    if others == {} then y
    else
      var rest := MinYearOf(others);
      if y < rest then y else rest
  }

  /** The years in ascending order. */
  ghost function Ascending(years: set<int>): seq<int>
    decreases |years|
  {
    if years == {} then []
    else
      var m := MinYearOf(years);
      [m] + Ascending(years - {m})
  }

  /** `Ascending` lists each year, and nothing else. */
  lemma {:induction false} AscendingMembers(years: set<int>)
    ensures |Ascending(years)| == |years|
    ensures forall y :: y in Ascending(years) <==> y in years
    decreases |years|
  {
    if years != {} {
      var m := MinYearOf(years);
      AscendingMembers(years - {m});
      assert Ascending(years) == [m] + Ascending(years - {m});
    }
  }

  /** `Ascending` lists the years in increasing order. */
  lemma {:induction false} AscendingSorted(years: set<int>)
    ensures forall i, j :: 0 <= i < j < |Ascending(years)| ==> Ascending(years)[i] < Ascending(years)[j]
    decreases |years|
  {
    if years != {} {
      var m := MinYearOf(years);
      var rest := Ascending(years - {m});
      AscendingSorted(years - {m});
      AscendingMembers(years - {m});
      forall y | y in rest ensures m < y {
        assert y in years && y != m;
      }
      assert Ascending(years) == [m] + rest;
      StrictlyIncreasingCons(m, rest, Ascending(years));
    }
  }

  lemma StrictlyIncreasingCons(m: int, rest: seq<int>, list: seq<int>)
    requires forall i, j :: 0 <= i < j < |rest| ==> rest[i] < rest[j]
    requires forall y :: y in rest ==> m < y
    requires list == [m] + rest
    ensures forall i, j :: 0 <= i < j < |list| ==> list[i] < list[j]
  {
    forall i, j | 0 <= i < j < |list| ensures list[i] < list[j] {
      assert list[j] == rest[j - 1] && rest[j - 1] in rest;
      if i > 0 {
        assert list[i] == rest[i - 1];
      }
    }
  }

  /** `availableYears`: the years of the data in ascending order. */
  ghost function AvailableYears(json: CalendarJson): (years: seq<int>)
    ensures forall y :: y in years <==> HasDataForYear(json, y)
    ensures forall i, j :: 0 <= i < j < |years| ==> years[i] < years[j]
  {
    AscendingMembers(json.Keys);
    AscendingSorted(json.Keys);
    Ascending(json.Keys)
  }

  /** One more `set` call: the map of the first `k + 1` entries. */
  lemma MapOfStep(entries: seq<(int, MonthCalendarData)>, k: int)
    requires 0 <= k < |entries|
    ensures MapOf(entries[..k + 1]) == MapOf(entries[..k])[entries[k].0 := entries[k].1]
  {
    assert entries[..k + 1][..k] == entries[..k];
  }

  /** The loop of `getYearData` that fills the `months` map: each entry's
      day list parsed and set under key `month - 1`. */
  method ParseMonths(raw: seq<RawMonth>) returns (months: YearData)
    ensures months == YearMonths(raw)
  {
    ghost var entries := ParsedMonths(raw);
    months := map[];
    for k := 0 to |raw|
      invariant months == MapOf(entries[..k])
    {
      ParsedMonthsAt(raw, k);
      MapOfStep(entries, k);
      var parsed := ParseDays(raw[k].days);
      months := months[raw[k].month - 1 := parsed];
    }
    assert entries[..|raw|] == entries;
  }

  // ---------------------------------------------------------------------
  // The memoising parse

  /** The cache after a lookup of `year`: unchanged when the year is
      already cached or not in the data, otherwise with the year's parse
      added. No lookup ever removes a year. */
  function CacheAfter(json: CalendarJson, cache: map<int, YearData>, year: int): (next: map<int, YearData>)
    ensures cache.Keys <= next.Keys
    ensures forall y :: y in cache ==> next[y] == cache[y]
    ensures year in json ==> year in next
  {
    if year in cache || year !in json then cache
    else cache[year := YearMonths(json[year])]
  }

  /** The module state of the production calendar: the bundled data and
      the cache of years parsed so far, which is never invalidated. */
  class Calendar {
    const json: CalendarJson
    var parsedCache: map<int, YearData>

    /** Every cached year is in the data and holds its parse. */
    ghost predicate Valid()
      reads this
    {
      forall y :: y in parsedCache ==> y in json && parsedCache[y] == YearMonths(json[y])
    }

    constructor (data: CalendarJson)
      ensures json == data && parsedCache == map[] && Valid()
    {
      json := data;
      parsedCache := map[];
    }

    /** `getYearData`: the cached parse when there is one; otherwise
        nothing for a year not in the data, and for one that is, each
        month entry parsed into key `month - 1`, cached and returned.
        Either way the answer is what the data says. */
    method GetYearData(year: int) returns (result: Option<YearData>)
      requires Valid()
      modifies this
      ensures Valid()
      ensures result == YearDataOf(json, year)
      ensures parsedCache == CacheAfter(json, old(parsedCache), year)
    {
      if year in parsedCache {
        return Some(parsedCache[year]);
      }
      if year !in json {
        return None;
      }
      var months := ParseMonths(json[year]);
      parsedCache := parsedCache[year := months];
      result := Some(months);
    }

    /** `isNonWorkingDay`. */
    method IsNonWorkingDay(year: int, monthIndex: int, day: int) returns (b: bool)
      requires Valid()
      modifies this
      ensures Valid()
      ensures parsedCache == CacheAfter(json, old(parsedCache), year)
      ensures b == DayOff(json, year, monthIndex, day)
    {
      var data := GetYearData(year);
      if data.None? { return false; }
      if monthIndex !in data.value { return false; }
      b := day in data.value[monthIndex].nonWorkingDays;
    }

    /** `isTransferredHoliday`. */
    method IsTransferredHoliday(year: int, monthIndex: int, day: int) returns (b: bool)
      requires Valid()
      modifies this
      ensures Valid()
      ensures parsedCache == CacheAfter(json, old(parsedCache), year)
      ensures b == DayTransferred(json, year, monthIndex, day)
    {
      var data := GetYearData(year);
      if data.None? { return false; }
      if monthIndex !in data.value { return false; }
      b := day in data.value[monthIndex].transferredHolidays;
    }

    /** `isShortenedDay`. */
    method IsShortenedDay(year: int, monthIndex: int, day: int) returns (b: bool)
      requires Valid()
      modifies this
      ensures Valid()
      ensures parsedCache == CacheAfter(json, old(parsedCache), year)
      ensures b == DayShortened(json, year, monthIndex, day)
    {
      var data := GetYearData(year);
      if data.None? { return false; }
      if monthIndex !in data.value { return false; }
      b := day in data.value[monthIndex].shortenedDays;
    }
  }
}
