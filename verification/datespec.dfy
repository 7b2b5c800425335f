/** Date-spec resolution: `parseDate` and its helpers `GetLastDayOfMonth`,
    `FirstFourChars` and `getLastTwoChars` in catnostk.go. A spec of 4, 7
    or 10 bytes names a year, a month or a day, and resolves to the
    inclusive pair of Unix seconds that bound it. */
module DateSpec {
  import opened Results
  import opened Bytes
  import opened Calendar

  datatype DateError =
    | InvalidSpec      // the spec's length is not 4, 7 or 10
    | CalendarError    // a date string the source builds does not parse

  datatype Date = Date(year: int, month: int, day: int)

  /** Inclusive bounds in Unix seconds. */
  datatype Window = Window(start: int, end: int)

  /** Second-of-day of the " 00:00:00" and " 23:59:59" suffixes appended
      to the start and end boundary strings. */
  const StartOfDay: int := 0
  const EndOfDay: int := 86399

  /** The date part of Go's `time.Parse` for the layouts "2006/01/02"
      (sep = '/') and "2006-01-02" (sep = '-'): four digits of year, the
      separator, two digits of month in 1..12, the separator, two digits
      of day within the month, and nothing else. The time-of-day and zone
      text that follows in the source's boundary strings is a constant
      that always matches, so it is not part of the input here. */
  function ParseLayoutDate(s: seq<Byte>, sep: Byte): (r: Option<Date>)
    ensures r.Some? ==> ValidDate(r.value.year, r.value.month, r.value.day)
    ensures r.Some? ==> r.value.year < 10000
  {
    if |s| == 10 && AllDigits(s[..4]) && s[4] == sep && AllDigits(s[5..7])
       && s[7] == sep && AllDigits(s[8..])
    then
      var y, m, d := DigitsValue(s[..4]), DigitsValue(s[5..7]), DigitsValue(s[8..]);
      if ValidDate(y, m, d) then Some(Date(y, m, d)) else None
    else None
  }

  /** The layout text of a date: `%04d{sep}%02d{sep}%02d`. */
  function FormatDate(t: Date, sep: Byte): (s: seq<Byte>)
    requires 0 <= t.year < 10000 && 0 <= t.month < 100 && 0 <= t.day < 100
    ensures |s| == 10
  {
    ZeroPad(t.year, 4) + [sep] + ZeroPad(t.month, 2) + [sep] + ZeroPad(t.day, 2)
  }

  /** Parsing and formatting are inverse: a valid date formats to text
      that parses back to it, and text that parses is the formatted date. */
  lemma ParseFormatRoundTrip(t: Date, s: seq<Byte>, sep: Byte)
    ensures ValidDate(t.year, t.month, t.day) && t.year < 10000
            ==> ParseLayoutDate(FormatDate(t, sep), sep) == Some(t)
    ensures ParseLayoutDate(s, sep).Some? ==> FormatDate(ParseLayoutDate(s, sep).value, sep) == s
  {
    if ValidDate(t.year, t.month, t.day) && t.year < 10000 {
      FormatThenParse(t, sep);
    }
    if ParseLayoutDate(s, sep).Some? {
      ParseThenFormat(s, sep);
    }
  }

  lemma FormatThenParse(t: Date, sep: Byte)
    requires ValidDate(t.year, t.month, t.day) && t.year < 10000
    ensures ParseLayoutDate(FormatDate(t, sep), sep) == Some(t)
  {
    var f := FormatDate(t, sep);
    assert f[..4] == ZeroPad(t.year, 4);
    assert f[5..7] == ZeroPad(t.month, 2);
    assert f[8..] == ZeroPad(t.day, 2);
    ValueOfZeroPad(t.year, 4);
    ValueOfZeroPad(t.month, 2);
    ValueOfZeroPad(t.day, 2);
  }

  lemma ParseThenFormat(s: seq<Byte>, sep: Byte)
    requires ParseLayoutDate(s, sep).Some?
    ensures FormatDate(ParseLayoutDate(s, sep).value, sep) == s
  {
    ZeroPadOfValue(s[..4]);
    ZeroPadOfValue(s[5..7]);
    ZeroPadOfValue(s[8..]);
    assert s == s[..4] + [sep] + s[5..7] + [sep] + s[8..];
  }

  /** `FirstFourChars`: the first four bytes, or the whole string when it
      is shorter. */
  function FirstFourChars(s: seq<Byte>): (r: seq<Byte>)
    ensures |r| == if |s| < 4 then |s| else 4
    ensures r <= s
  {
    if |s| < 4 then s else s[..4]
  }

  /** `getLastTwoChars`: the last two characters, or the whole string when
      it is shorter. The source slices runes; this slices bytes. The two
      agree whenever the last two bytes are ASCII, and otherwise both
      results hold a byte or rune that is not a digit, so the month parse
      that consumes them fails either way. */
  function LastTwoChars(s: seq<Byte>): (r: seq<Byte>)
    ensures |r| == if |s| < 2 then |s| else 2
    ensures s == s[..|s| - |r|] + r
  {
    if |s| < 2 then s else s[|s| - 2..]
  }

  /** `GetLastDayOfMonth`: parse "year-month-01" and answer the day of
      month of one month later minus one day, zero-padded to two digits. */
  function GetLastDayOfMonth(year: seq<Byte>, month: seq<Byte>): (r: Result<seq<Byte>, DateError>)
    ensures r.Ok? <==> |year| == 4 && AllDigits(year) && |month| == 2 && AllDigits(month)
                       && 1 <= DigitsValue(month) <= 12
    ensures r.Err? ==> r.error == CalendarError
    ensures r.Ok? ==> |r.value| == 2 && AllDigits(r.value)
                      && DigitsValue(r.value) == DaysInMonth(DigitsValue(year), DigitsValue(month))
  {
    var text := year + [Dash] + month + [Dash] + Ascii("01");
    FirstOfMonthText(year, month);
    match ParseLayoutDate(text, Dash)
    case None => Err(CalendarError)
    case Some(first) =>
      var last := LastDayByAddDate(first);
      ValueOfZeroPad(last, 2);
      Ok(ZeroPad(last, 2))
  }

  /** The text "year-month-01" parses exactly when the year is four digits
      and the month two digits naming a month, and then names day 1. */
  lemma FirstOfMonthText(year: seq<Byte>, month: seq<Byte>)
    ensures var r := ParseLayoutDate(year + [Dash] + month + [Dash] + Ascii("01"), Dash);
      && (r.Some? <==> |year| == 4 && AllDigits(year) && |month| == 2 && AllDigits(month)
                       && 1 <= DigitsValue(month) <= 12)
      && (r.Some? ==> r.value == Date(DigitsValue(year), DigitsValue(month), 1))
  {
    var text := year + [Dash] + month + [Dash] + Ascii("01");
    assert text[|year|] == Dash;
    assert text[|year| + 1 + |month|] == Dash;
    if |year| == 4 && |month| == 2 {
      assert text[..4] == year;
      assert text[5..7] == month;
      assert text[8..] == Ascii("01");
      assert DigitsValue(Ascii("01")) == 1 by {
        assert Ascii("01")[..1] == [Zero];
      }
    } else if |year| < 4 {
      assert !IsDigit(text[..4][|year|]);
    } else if |year| == 5 && |text| == 10 {
      assert !IsDigit(text[5..7][0]);
    } else if |year| > 5 && |text| == 10 {
      assert !IsDigit(text[5..7][1]);
    }
  }

  /** `t.AddDate(0, 1, -1).Day()` for the first day `t` of a month: step
      to the first of the next month, then back one day. */
  function LastDayByAddDate(first: Date): (d: nat)
    requires ValidDate(first.year, first.month, first.day) && first.day == 1
    ensures d == DaysInMonth(first.year, first.month)
    ensures DaysFromEpoch(first.year, first.month, d) + 1
            == if first.month == 12 then DaysFromEpoch(first.year + 1, 1, 1)
               else DaysFromEpoch(first.year, first.month + 1, 1)
  {
    var d := DaysInMonth(first.year, first.month);
    NextDay(first.year, first.month, d);
    d
  }

  /** Parse both boundary strings with the layout and turn them into Unix
      seconds: the start at 00:00:00 and the end at 23:59:59, both on a
      clock `offset` seconds ahead of UTC. */
  function Bounds(startText: seq<Byte>, endText: seq<Byte>, offset: int): (r: Result<Window, DateError>)
    ensures r.Err? ==> r.error == CalendarError
    ensures r.Ok? ==> ParseLayoutDate(startText, Slash).Some? && ParseLayoutDate(endText, Slash).Some?
  {
    match ParseLayoutDate(startText, Slash)
    case None => Err(CalendarError)
    case Some(s) =>
      match ParseLayoutDate(endText, Slash)
      case None => Err(CalendarError)
      case Some(e) =>
        Ok(Window(UnixSeconds(s.year, s.month, s.day, StartOfDay, offset),
                  UnixSeconds(e.year, e.month, e.day, EndOfDay, offset)))
  }

  /** `parseDate`: the window named by a 4-byte year, a 7-byte year and
      month (the fifth byte is never looked at), or a 10-byte day. Every
      other length is an invalid specification. */
  function ParseDate(d: seq<Byte>, offset: int): (r: Result<Window, DateError>)
    ensures r == Err(InvalidSpec) <==> |d| != 4 && |d| != 7 && |d| != 10
    ensures r.Err? && (|d| == 4 || |d| == 7 || |d| == 10) ==> r.error == CalendarError
  {
    if |d| == 4 then
      Bounds(d + Ascii("/01/01"), d + Ascii("/12/31"), offset)
    else if |d| == 7 then
      var year, mon := FirstFourChars(d), LastTwoChars(d);
      match GetLastDayOfMonth(year, mon)
      case Err(e) => Err(e)
      case Ok(day) => Bounds(year + [Slash] + mon + Ascii("/01"), year + [Slash] + mon + [Slash] + day, offset)
    else if |d| == 10 then
      Bounds(d, d, offset)
    else
      Err(InvalidSpec)
  }

  /** The layout parse of text assembled from a 4-byte year, a 2-byte
      month and a 2-byte day. */
  lemma ParseParts(y: seq<Byte>, m: seq<Byte>, dd: seq<Byte>, sep: Byte)
    requires |y| == 4 && |m| == 2 && |dd| == 2
    ensures var r := ParseLayoutDate(y + [sep] + m + [sep] + dd, sep);
      && (r.Some? <==> AllDigits(y) && AllDigits(m) && AllDigits(dd)
                       && ValidDate(DigitsValue(y), DigitsValue(m), DigitsValue(dd)))
      && (r.Some? ==> r.value == Date(DigitsValue(y), DigitsValue(m), DigitsValue(dd)))
  {
    var text := y + [sep] + m + [sep] + dd;
    assert text[..4] == y;
    assert text[5..7] == m;
    assert text[8..] == dd;
  }

  lemma TwoDigitLiterals()
    ensures AllDigits(Ascii("01")) && DigitsValue(Ascii("01")) == 1
    ensures AllDigits(Ascii("12")) && DigitsValue(Ascii("12")) == 12
    ensures AllDigits(Ascii("31")) && DigitsValue(Ascii("31")) == 31
  {
    assert Ascii("01")[..1] == [48];
    assert Ascii("12")[..1] == [49];
    assert Ascii("31")[..1] == [51];
  }

  /** A year spec: it resolves exactly when it is four digits, to the
      window from January 1 00:00:00 to December 31 23:59:59 of that year,
      which is 365 or 366 whole days long. */
  lemma YearSpecWindow(d: seq<Byte>, offset: int)
    requires |d| == 4
    ensures ParseDate(d, offset).Ok? <==> AllDigits(d)
    ensures ParseDate(d, offset).Ok? ==>
      var y, w := DigitsValue(d), ParseDate(d, offset).value;
      && w.start == UnixSeconds(y, 1, 1, StartOfDay, offset)
      && w.end == UnixSeconds(y, 12, 31, EndOfDay, offset)
      && w.end - w.start + 1 == YearLength(y) * SecondsPerDay
  {
    TwoDigitLiterals();
    assert d + Ascii("/01/01") == d + [Slash] + Ascii("01") + [Slash] + Ascii("01");
    assert d + Ascii("/12/31") == d + [Slash] + Ascii("12") + [Slash] + Ascii("31");
    ParseParts(d, Ascii("01"), Ascii("01"), Slash);
    ParseParts(d, Ascii("12"), Ascii("31"), Slash);
    if AllDigits(d) {
      var y := DigitsValue(d);
      MonthsFillYear(y);
      assert DaysFromEpoch(y, 12, 31) - DaysFromEpoch(y, 1, 1) + 1 == YearLength(y);
    }
  }

  /** A month spec: it resolves exactly when its first four bytes are
      digits and its last two are digits naming a month, to the window
      from the first of that month 00:00:00 to its last day 23:59:59,
      which is as many whole days as the month has. */
  lemma MonthSpecWindow(d: seq<Byte>, offset: int)
    requires |d| == 7
    ensures ParseDate(d, offset).Ok? <==>
      AllDigits(d[..4]) && AllDigits(d[5..]) && 1 <= DigitsValue(d[5..]) <= 12
    ensures ParseDate(d, offset).Ok? ==>
      var y, m, w := DigitsValue(d[..4]), DigitsValue(d[5..]), ParseDate(d, offset).value;
      && w.start == UnixSeconds(y, m, 1, StartOfDay, offset)
      && w.end == UnixSeconds(y, m, DaysInMonth(y, m), EndOfDay, offset)
      && w.end - w.start + 1 == DaysInMonth(y, m) * SecondsPerDay
  {
    var year, mon := FirstFourChars(d), LastTwoChars(d);
    assert year == d[..4] && mon == d[5..];
    var r := GetLastDayOfMonth(year, mon);
    if r.Ok? {
      TwoDigitLiterals();
      assert year + [Slash] + mon + Ascii("/01") == year + [Slash] + mon + [Slash] + Ascii("01");
      ParseParts(year, mon, Ascii("01"), Slash);
      ParseParts(year, mon, r.value, Slash);
    }
  }

  /** A day spec: it resolves exactly when it is a valid "YYYY/MM/DD"
      date, to the window of that one day. */
  lemma DaySpecWindow(d: seq<Byte>, offset: int)
    requires |d| == 10
    ensures ParseDate(d, offset).Ok? <==> ParseLayoutDate(d, Slash).Some?
    ensures ParseDate(d, offset).Ok? ==>
      var t, w := ParseLayoutDate(d, Slash).value, ParseDate(d, offset).value;
      && w.start == UnixSeconds(t.year, t.month, t.day, StartOfDay, offset)
      && w.end == UnixSeconds(t.year, t.month, t.day, EndOfDay, offset)
      && w.end - w.start + 1 == SecondsPerDay
  {
  }

  /** Every resolved window is non-empty and a whole number of days long. */
  lemma WindowIsWholeDays(d: seq<Byte>, offset: int)
    ensures ParseDate(d, offset).Ok? ==>
      var w := ParseDate(d, offset).value;
      w.start <= w.end && (w.end - w.start + 1) % SecondsPerDay == 0
  {
    if ParseDate(d, offset).Ok? {
      var w := ParseDate(d, offset).value;
      var days: int;
      if |d| == 4 {
        YearSpecWindow(d, offset);
        days := YearLength(DigitsValue(d));
      } else if |d| == 7 {
        MonthSpecWindow(d, offset);
        days := DaysInMonth(DigitsValue(d[..4]), DigitsValue(d[5..]));
      } else {
        DaySpecWindow(d, offset);
        days := 1;
      }
      assert w.end - w.start + 1 == days * SecondsPerDay && days >= 1;
      WholeDays(days);
    }
  }

  lemma WholeDays(days: int)
    requires days >= 1
    ensures days * SecondsPerDay >= 1 && (days * SecondsPerDay) % SecondsPerDay == 0
  {
  }

  /** In a 7-byte spec the separator is never inspected: any byte in its
      place names the same window. */
  lemma SeparatorIgnored(d: seq<Byte>, x: Byte, offset: int)
    requires |d| == 7
    ensures ParseDate(d[4 := x], offset) == ParseDate(d, offset)
  {
    var d' := d[4 := x];
    assert FirstFourChars(d') == FirstFourChars(d);
    assert LastTwoChars(d') == LastTwoChars(d);
  }

  /** A formatted day resolves to that day, whatever the zone offset. */
  lemma FormattedDayResolves(t: Date, offset: int)
    requires ValidDate(t.year, t.month, t.day) && t.year < 10000
    ensures ParseDate(FormatDate(t, Slash), offset)
            == Ok(Window(UnixSeconds(t.year, t.month, t.day, StartOfDay, offset),
                         UnixSeconds(t.year, t.month, t.day, EndOfDay, offset)))
  {
    FormatThenParse(t, Slash);
  }
}
