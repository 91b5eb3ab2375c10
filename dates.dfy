/** The scraper's date pieces: DumbDateTime (a month, day, hour and minute without a year), its
    parsing from the schedule's date and time cells, its '%d/%d %d:%02d' text form, and the year
    inference guess_year that anchors a schedule on the first game's true date. */
module Dates {
  import opened Wrappers
  import opened Text

  const Months: seq<string> := ["Jan", "Feb", "Mar", "Apr", "May", "Jun",
                                "Jul", "Aug", "Sep", "Oct", "Nov", "Dec"]

  /** A calendar position without a year. from_date_time gives it a month in 1..12; day, hour and
      minute are whatever int() read and are only checked by AsDate. */
  datatype DumbDateTime = DumbDateTime(month: int, day: int, hour: int, minute: int)

  /** DumbDateTime.from_string keeps the four pieces as text. */
  datatype RawDateTime = RawDateTime(month: string, day: string, hour: string, minute: string)

  /** A datetime.datetime down to the minute (the scraper never sets seconds). */
  datatype DateTime = DateTime(year: int, month: int, day: int, hour: int, minute: int)

  /** ParseFailure: the "Failed to parse" exception from_date_time raises from its try block;
      ValueError: a ValueError raised outside it (unknown month name, bad integer, invalid date). */
  datatype DateError = ParseFailure | ValueError

  // ---------------------------------------------------------------------------
  // The proleptic Gregorian calendar of datetime.datetime

  predicate IsLeapYear(y: int) {
    y % 4 == 0 && (y % 100 != 0 || y % 400 == 0)
  }

  function DaysInMonth(y: int, m: int): int
    requires 1 <= m <= 12
  {
    if m == 2 then (if IsLeapYear(y) then 29 else 28)
    else if m == 4 || m == 6 || m == 9 || m == 11 then 30
    else 31
  }

  /** The values datetime.datetime(year, month, day, hour, minute) accepts (MINYEAR..MAXYEAR). */
  predicate ValidDateTime(d: DateTime) {
    && 1 <= d.year <= 9999
    && 1 <= d.month <= 12
    && 1 <= d.day <= DaysInMonth(d.year, d.month)
    && 0 <= d.hour < 24
    && 0 <= d.minute < 60
  }

  /** datetime comparison a < b: field by field, year first. */
  predicate Before(a: DateTime, b: DateTime) {
    || a.year < b.year
    || (a.year == b.year && a.month < b.month)
    || (a.year == b.year && a.month == b.month && a.day < b.day)
    || (a.year == b.year && a.month == b.month && a.day == b.day && a.hour < b.hour)
    || (a.year == b.year && a.month == b.month && a.day == b.day && a.hour == b.hour && a.minute < b.minute)
  }

  // ---------------------------------------------------------------------------
  // Parsing

  /** The "12 Noon" rewrite that both from_date_time and util.parse_game_time apply to a time of day. */
  function NoonToClock(timeOfDay: string): string {
    ReplaceAll(timeOfDay, "12 Noon", "12:00 PM")
  }

  lemma NoonBecomesClock()
    ensures NoonToClock("12 Noon") == "12:00 PM"
  {
    assert StartsWith("12 Noon", "12 Noon");
    assert "12 Noon"[7..] == [];
  }

  /** A time of day without the letter 'N' (every "h:mm AM/PM" text) is not rewritten. */
  lemma ClockUnchanged(timeOfDay: string)
    requires 'N' !in timeOfDay
    ensures NoonToClock(timeOfDay) == timeOfDay
  {
    assert "12 Noon"[3] == 'N';
    MissingCharNoOccurrence(timeOfDay, "12 Noon", 3);
    ReplaceAbsent(timeOfDay, "12 Noon", "12:00 PM");
  }

  /** DumbDateTime.MONTHS.index(name) + 1; None where index raises ValueError. */
  function MonthNumber(name: string): Option<int> {
    MonthFrom(name, 0)
  }

  function MonthFrom(name: string, i: nat): Option<int>
    decreases |Months| - i
  {
    if i >= |Months| then None
    else if Months[i] == name then Some(i + 1)
    else MonthFrom(name, i + 1)
  }

  lemma MonthNumberOf(i: nat)
    requires i < 12
    ensures MonthNumber(Months[i]) == Some(i + 1)
  {
    // The twelve names are distinct, so the search stops at i.
    assert Months[0] == "Jan" && Months[1] == "Feb" && Months[2] == "Mar";
    assert forall j, k :: 0 <= j < k < 12 ==> Months[j] != Months[k];
    MonthSearch(Months[i], 0, i);
  }

  lemma {:induction false} MonthSearch(name: string, from: nat, i: nat)
    requires from <= i < 12 && Months[i] == name
    requires forall j, k :: 0 <= j < k < 12 ==> Months[j] != Months[k]
    ensures MonthFrom(name, from) == Some(i + 1)
    decreases i - from
  {
    if from < i {
      MonthSearch(name, from + 1, i);
    }
  }

  /** DumbDateTime.from_date_time(date, timeofday): date is "weekday month day", timeofday is
      "h:mm AM" or "h:mm PM" (or "12 Noon"); PM hours below 12 get 12 added. */
  function FromDateTime(date: string, timeOfDay: string): Result<DumbDateTime, DateError> {
    FromWords(SplitWs(date), SplitWs(NoonToClock(timeOfDay)))
  }

  /** from_date_time once both cells are cut into words. */
  function FromWords(dateParts: seq<string>, clockParts: seq<string>): Result<DumbDateTime, DateError> {
    if |dateParts| != 3 || |clockParts| != 2 then Err(ParseFailure)
    else FromPieces(dateParts[1], dateParts[2], SplitOn(clockParts[0], ':'), clockParts[1])
  }

  /** from_date_time once the clock is cut at ':'. The hour is read inside the try block, the month,
      day and minute outside it. */
  function FromPieces(month: string, day: string, hourMinute: seq<string>, meridiem: string)
    : Result<DumbDateTime, DateError>
  {
    if |hourMinute| != 2 then Err(ParseFailure)
    else
      var hour := ParseInt(hourMinute[0]);
      if hour.None? then Err(ParseFailure)
      else
        var m := MonthNumber(month);
        var d := ParseInt(day);
        var mi := ParseInt(hourMinute[1]);
        if m.None? || d.None? || mi.None? then Err(ValueError)
        else Ok(DumbDateTime(m.value, d.value, ClockHour(hour.value, meridiem == "PM"), mi.value))
  }

  /** The 24-hour hour from_date_time assigns to a 12-hour clock reading. */
  function ClockHour(hour: int, pm: bool): int {
    if pm && hour < 12 then hour + 12 else hour
  }

  /** One schedule cell pair, written from its parts: "Thu Jan 4" and "7:30 PM". */
  function DateCell(weekday: string, month: nat, day: int): string
    requires month < 12
  {
    Join([weekday, Months[month], IntToString(day)], " ")
  }

  function TimeCell(hour: int, minute: int, pm: bool): string {
    IntToString(hour) + ":" + Pad2(minute) + " " + (if pm then "PM" else "AM")
  }

  /** Two numerals around a separator that is neither whitespace nor 'N'. */
  lemma NumeralPair(a: string, sep: char, b: string)
    requires Numeral(a) && Numeral(b) && !IsSpace(sep) && sep != 'N'
    ensures NoSpace(a + [sep] + b) && 'N' !in a + [sep] + b
  {
    var s := a + [sep] + b;
    assert forall i :: 0 <= i < |s| ==> s[i] == sep || IsDigit(s[i]) || s[i] == '-' by {
      forall i | 0 <= i < |s|
        ensures s[i] == sep || IsDigit(s[i]) || s[i] == '-'
      {
        if i < |a| { assert s[i] == a[i]; }
        else if i > |a| { assert s[i] == b[i - |a| - 1]; }
      }
    }
  }

  /** A clock reading and its meridiem, joined by a space, are not rewritten and split back apart. */
  lemma ClockWords(hm: string, ampm: string)
    requires hm != [] && NoSpace(hm) && 'N' !in hm
    requires ampm == "AM" || ampm == "PM"
    ensures SplitWs(NoonToClock(hm + " " + ampm)) == [hm, ampm]
  {
    var time := hm + " " + ampm;
    NoLetterN(hm, ampm);
    ClockUnchanged(time);
    var parts := [hm, ampm];
    assert forall i :: 0 <= i < |parts| ==> parts[i] != [] && NoSpace(parts[i]);
    SplitWsJoin(parts);
    assert Join(parts, " ") == time;
  }

  lemma NoLetterN(hm: string, ampm: string)
    requires 'N' !in hm
    requires ampm == "AM" || ampm == "PM"
    ensures 'N' !in hm + " " + ampm
  {
    var time := hm + " " + ampm;
    forall i | 0 <= i < |time|
      ensures time[i] != 'N'
    {
      if i < |hm| { assert time[i] == hm[i]; }
      else if i > |hm| { assert time[i] == ampm[i - |hm| - 1]; }
    }
  }

  /** The words of a well-formed time cell. */
  lemma TimeCellWords(hour: int, minute: int, pm: bool)
    ensures SplitWs(NoonToClock(TimeCell(hour, minute, pm)))
            == [IntToString(hour) + ":" + Pad2(minute), if pm then "PM" else "AM"]
  {
    var hm := IntToString(hour) + ":" + Pad2(minute);
    assert hm == IntToString(hour) + [':'] + Pad2(minute);
    NumeralPair(IntToString(hour), ':', Pad2(minute));
    ClockWords(hm, if pm then "PM" else "AM");
  }

  /** The words of a well-formed date cell. */
  lemma DateCellWords(weekday: string, month: nat, day: int)
    requires month < 12
    requires weekday != [] && NoSpace(weekday)
    ensures SplitWs(DateCell(weekday, month, day)) == [weekday, Months[month], IntToString(day)]
  {
    NumeralNoSpace(IntToString(day));
    assert Months[month] != [] && NoSpace(Months[month]);
    SplitWsJoin([weekday, Months[month], IntToString(day)]);
  }

  /** The clock is cut at its one ':'. */
  lemma ClockPieces(hh: string, mm: string)
    requires Numeral(hh) && Numeral(mm)
    ensures SplitOn(hh + ":" + mm, ':') == [hh, mm]
  {
    assert ':' !in hh && ':' !in mm;
    assert hh + ":" + mm == hh + [':'] + mm;
    SplitOnConcat(hh, ':', mm);
    SplitOnNoSep(mm, ':');
  }

  /** The last stage of from_date_time when every piece reads as a number. */
  lemma FromPiecesOk(month: string, day: string, hourMinute: seq<string>, meridiem: string,
                     m: int, d: int, h: int, mi: int)
    requires MonthNumber(month) == Some(m) && ParseInt(day) == Some(d)
    requires |hourMinute| == 2 && ParseInt(hourMinute[0]) == Some(h) && ParseInt(hourMinute[1]) == Some(mi)
    ensures FromPieces(month, day, hourMinute, meridiem) == Ok(DumbDateTime(m, d, ClockHour(h, meridiem == "PM"), mi))
  {
  }

  /** The last stage of from_date_time on the pieces of well-formed cells. */
  lemma FromPiecesOfCells(month: nat, day: int, hour: int, minute: int, pm: bool)
    requires month < 12
    ensures FromPieces(Months[month], IntToString(day), [IntToString(hour), Pad2(minute)], if pm then "PM" else "AM")
            == Ok(DumbDateTime(month + 1, day, ClockHour(hour, pm), minute))
  {
    var hourMinute := [IntToString(hour), Pad2(minute)];
    ParseIntOfIntToString(hour);
    ParseIntOfIntToString(day);
    Pad2Parses(minute);
    MonthNumberOf(month);
    var ampm := if pm then "PM" else "AM";
    assert (ampm == "PM") == pm by {
      if !pm { assert ampm[0] == 'A'; }
    }
    FromPiecesOk(Months[month], IntToString(day), hourMinute, ampm, month + 1, day, hour, minute);
  }

  /** from_date_time reads back the month number, the day, the minute and the 12-hour rule for
      every well-formed pair of cells. */
  lemma FromDateTimeOfCells(weekday: string, month: nat, day: int, hour: int, minute: int, pm: bool)
    requires month < 12
    requires weekday != [] && NoSpace(weekday)
    ensures FromDateTime(DateCell(weekday, month, day), TimeCell(hour, minute, pm))
            == Ok(DumbDateTime(month + 1, day, ClockHour(hour, pm), minute))
  {
    var hh, mm := IntToString(hour), Pad2(minute);
    var ampm := if pm then "PM" else "AM";
    DateCellWords(weekday, month, day);
    TimeCellWords(hour, minute, pm);
    ClockPieces(hh, mm);
    FromPiecesOfCells(month, day, hour, minute, pm);
    calc {
      FromDateTime(DateCell(weekday, month, day), TimeCell(hour, minute, pm));
      FromWords([weekday, Months[month], IntToString(day)], [hh + ":" + mm, ampm]);
      FromPieces(Months[month], IntToString(day), SplitOn(hh + ":" + mm, ':'), ampm);
      FromPieces(Months[month], IntToString(day), [hh, mm], ampm);
    }
  }

  /** from_date_time turns "12 Noon" into 12:00 in the afternoon. */
  lemma FromDateTimeNoon(date: string)
    ensures FromDateTime(date, "12 Noon") == FromDateTime(date, "12:00 PM")
  {
    NoonBecomesClock();
    ClockUnchanged("12:00 PM");
  }

  /** A date cell that is not three words, or a time cell that is not two, raises the parse error. */
  lemma FromDateTimeMalformed(date: string, timeOfDay: string)
    requires |SplitWs(date)| != 3 || |SplitWs(NoonToClock(timeOfDay))| != 2
    ensures FromDateTime(date, timeOfDay) == Err(ParseFailure)
  {
  }

  /** An unknown month name raises ValueError. */
  lemma FromDateTimeUnknownMonth(date: string, timeOfDay: string)
    requires |SplitWs(date)| == 3 && MonthNumber(SplitWs(date)[1]).None?
    requires FromDateTime(date, timeOfDay) != Err(ParseFailure)
    ensures FromDateTime(date, timeOfDay) == Err(ValueError)
  {
  }

  // ---------------------------------------------------------------------------
  // Text form

  /** DumbDateTime.__str__: '%d/%d %d:%02d' % (month, day, hour, minute). */
  function Str(d: DumbDateTime): string {
    IntToString(d.month) + "/" + IntToString(d.day) + " " + IntToString(d.hour) + ":" + Pad2(d.minute)
  }

  /** DumbDateTime.from_string: "m/d h:mi" cut into its four pieces of text. */
  function FromString(s: string): Result<RawDateTime, DateError> {
    var words := SplitWs(s);
    if |words| != 2 then Err(ValueError)
    else
      var md := SplitOn(words[0], '/');
      var hm := SplitOn(words[1], ':');
      if |md| != 2 || |hm| != 2 then Err(ValueError)
      else Ok(RawDateTime(md[0], md[1], hm[0], hm[1]))
  }

  /** A numeral pair around a separator splits back at that separator. */
  lemma NumeralPairSplit(a: string, sep: char, b: string)
    requires Numeral(a) && Numeral(b) && !IsDigit(sep) && sep != '-'
    ensures SplitOn(a + [sep] + b, sep) == [a, b]
  {
    assert sep !in a && sep !in b;
    SplitOnConcat(a, sep, b);
    SplitOnNoSep(b, sep);
  }

  /** What from_string does with a text made of two words that each split once. */
  lemma FromStringOfWords(md: string, hm: string, m: string, d: string, h: string, mi: string)
    requires SplitWs(md + " " + hm) == [md, hm]
    requires SplitOn(md, '/') == [m, d] && SplitOn(hm, ':') == [h, mi]
    ensures FromString(md + " " + hm) == Ok(RawDateTime(m, d, h, mi))
  {
  }

  /** from_string reads back what __str__ wrote, and every piece converts back to its number. */
  lemma FromStringOfStr(d: DumbDateTime)
    ensures FromString(Str(d)).Ok?
    ensures var r := FromString(Str(d)).value;
            ParseInt(r.month) == Some(d.month) && ParseInt(r.day) == Some(d.day)
            && ParseInt(r.hour) == Some(d.hour) && ParseInt(r.minute) == Some(d.minute)
  {
    var m, dd, h, mi := IntToString(d.month), IntToString(d.day), IntToString(d.hour), Pad2(d.minute);
    var md := m + "/" + dd;
    var hm := h + ":" + mi;
    assert md == m + ['/'] + dd && hm == h + [':'] + mi;
    assert Str(d) == md + " " + hm;
    NumeralPair(m, '/', dd);
    NumeralPair(h, ':', mi);
    NumeralPairSplit(m, '/', dd);
    NumeralPairSplit(h, ':', mi);
    var parts := [md, hm];
    assert forall i :: 0 <= i < |parts| ==> parts[i] != [] && NoSpace(parts[i]);
    SplitWsJoin(parts);
    assert Join(parts, " ") == md + " " + hm;
    FromStringOfWords(md, hm, m, dd, h, mi);
    ParseIntOfIntToString(d.month);
    ParseIntOfIntToString(d.day);
    ParseIntOfIntToString(d.hour);
    Pad2Parses(d.minute);
  }

  // ---------------------------------------------------------------------------
  // Years

  /** The position placed in a given year. */
  function InYear(d: DumbDateTime, year: int): DateTime {
    DateTime(year, d.month, d.day, d.hour, d.minute)
  }

  /** DumbDateTime.as_date(year): datetime.datetime(...), which raises ValueError for a day the
      calendar does not have (Feb 29 outside leap years, Apr 31, ...) or an out-of-range field. */
  function AsDate(d: DumbDateTime, year: int): (r: Result<DateTime, DateError>)
    ensures r.Ok? <==> ValidDateTime(InYear(d, year))
    ensures r.Ok? ==> r.value == InYear(d, year)
    ensures r.Err? ==> r.error == ValueError
  {
    var dt := InYear(d, year);
    if ValidDateTime(dt) then Ok(dt) else Err(ValueError)
  }

  /** What datetime.datetime accepts, day by day: with a year, month, hour and minute in range,
      days 1..28 exist in every month, Feb 29 exists exactly in leap years, day 31 exists only in
      the seven long months, and a day outside 1..31 never exists. A year outside 1..9999 always
      raises. */
  lemma AsDateCalendar(d: DumbDateTime, year: int)
    ensures !(1 <= year <= 9999) ==> AsDate(d, year) == Err(ValueError)
    ensures (1 <= year <= 9999 && 1 <= d.month <= 12 && 0 <= d.hour < 24 && 0 <= d.minute < 60) ==>
              && (1 <= d.day <= 28 ==> AsDate(d, year) == Ok(DateTime(year, d.month, d.day, d.hour, d.minute)))
              && (d.month == 2 && d.day == 29 ==> (AsDate(d, year).Ok? <==> IsLeapYear(year)))
              && (d.month == 2 && d.day == 30 ==> AsDate(d, year) == Err(ValueError))
              && (d.day == 30 && d.month != 2 ==> AsDate(d, year).Ok?)
              && (d.day == 31 ==> (AsDate(d, year).Ok? <==> (|| d.month == 1 || d.month == 3 || d.month == 5
                                                             || d.month == 7 || d.month == 8 || d.month == 10
                                                             || d.month == 12)))
              && (!(1 <= d.day <= 31) ==> AsDate(d, year) == Err(ValueError))
    ensures !(1 <= d.month <= 12) || !(0 <= d.hour < 24) || !(0 <= d.minute < 60) ==> AsDate(d, year) == Err(ValueError)
  {
  }

  /** guess_year(start_time, first_game_dt): the position in the anchor's year, unless that date
      does not exist or comes before the anchor, in which case the following year. */
  function GuessYear(start: DumbDateTime, anchor: DateTime): Result<DateTime, DateError> {
    var sameYear := AsDate(start, anchor.year);
    if sameYear.Err? then AsDate(start, anchor.year + 1)
    else if Before(sameYear.value, anchor) then AsDate(start, anchor.year + 1)
    else sameYear
  }

  /** The position exists in year y and is not before the anchor. */
  predicate OccursFrom(start: DumbDateTime, anchor: DateTime, y: int) {
    ValidDateTime(InYear(start, y)) && !Before(InYear(start, y), anchor)
  }

  /** guess_year finds the first occurrence of the listed position that is not before the anchor,
      looking only at the anchor's year and the next one; it fails when neither year has one. */
  lemma GuessYearIsFirstOccurrence(start: DumbDateTime, anchor: DateTime)
    requires ValidDateTime(anchor)
    ensures var r := GuessYear(start, anchor);
            r.Ok? <==> OccursFrom(start, anchor, anchor.year) || OccursFrom(start, anchor, anchor.year + 1)
    ensures var r := GuessYear(start, anchor);
            r.Ok? ==> && (r.value.year == anchor.year || r.value.year == anchor.year + 1)
                      && r.value == InYear(start, r.value.year)
                      && ValidDateTime(r.value)
                      && !Before(r.value, anchor)
                      && (OccursFrom(start, anchor, anchor.year) <==> r.value.year == anchor.year)
  {
  }

  /** The year rolls over exactly past the anchor: a valid same-year date rolls forward only when
      it is before the anchor, and a day the anchor's year lacks (Feb 29) moves to the next year. */
  lemma GuessYearRollsOver(start: DumbDateTime, anchor: DateTime)
    requires ValidDateTime(anchor)
    ensures (ValidDateTime(InYear(start, anchor.year)) && !Before(InYear(start, anchor.year), anchor))
            ==> GuessYear(start, anchor) == Ok(InYear(start, anchor.year))
    ensures (ValidDateTime(InYear(start, anchor.year)) && Before(InYear(start, anchor.year), anchor))
            ==> GuessYear(start, anchor) == AsDate(start, anchor.year + 1)
    ensures !ValidDateTime(InYear(start, anchor.year))
            ==> GuessYear(start, anchor) == AsDate(start, anchor.year + 1)
  {
  }

  /** A Feb 29 position after a leap-year anchor falls in no year guess_year tries: four years
      apart at least, so the next year lacks it too and guess_year raises. */
  lemma LeapDayAfterLeapYear(anchor: DateTime)
    requires ValidDateTime(anchor) && IsLeapYear(anchor.year) && anchor.month >= 3
    ensures GuessYear(DumbDateTime(2, 29, 12, 0), anchor) == Err(ValueError)
  {
    assert !IsLeapYear(anchor.year + 1);
  }

  lemma TwelveText()
    ensures IntToString(12) == "12"
  {
    assert NatToString(12) == NatToString(1) + [DigitChar(2)];
    assert NatToString(1) == [DigitChar(1)];
  }

  /** The cell "12:00 PM", written from its parts. */
  lemma NoonCell()
    ensures TimeCell(12, 0, true) == "12:00 PM"
  {
    TwelveText();
    assert Pad2(0) == "00";
    assert TimeCell(12, 0, true) == "12" + ":" + "00" + " " + "PM";
  }

  /** A game listed at "12 Noon" starts at 12:00 on its day. */
  lemma FromDateTimeNoonCell(weekday: string, month: nat, day: int)
    requires month < 12
    requires weekday != [] && NoSpace(weekday)
    ensures FromDateTime(DateCell(weekday, month, day), "12 Noon") == Ok(DumbDateTime(month + 1, day, 12, 0))
  {
    FromDateTimeNoon(DateCell(weekday, month, day));
    NoonCell();
    FromDateTimeOfCells(weekday, month, day, 12, 0, true);
  }

  /** The schedule's first game, "Thu Jan 4" at 7:30 PM, against an anchor at midnight of 2024-01-04:
      the same year. A game listed on Jan 3 against that anchor falls in the next year. */
  lemma GuessYearScenario()
    ensures GuessYear(DumbDateTime(1, 4, 19, 30), DateTime(2024, 1, 4, 0, 0)) == Ok(DateTime(2024, 1, 4, 19, 30))
    ensures GuessYear(DumbDateTime(1, 3, 19, 30), DateTime(2024, 1, 4, 0, 0)) == Ok(DateTime(2025, 1, 3, 19, 30))
  {
  }
}
