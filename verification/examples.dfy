/** Concrete cases of the pipeline, worked through the general lemmas. */
module Examples {
  import opened Results
  import opened Bytes
  import opened Calendar
  import opened Records
  import opened Emit
  import opened Escape
  import opened DateSpec
  import opened Pipeline

  lemma YearValue(y: seq<Byte>, v: int)
    requires |y| == 4 && AllDigits(y)
    requires v == 1000 * (y[0] - Zero) as int + 100 * (y[1] - Zero) as int + 10 * (y[2] - Zero) as int + (y[3] - Zero) as int
    ensures DigitsValue(y) == v
  {
    FourDigitsValue(y);
    TwoDigitsValue(y[..2]);
    TwoDigitsValue(y[2..]);
  }

  lemma LeapFebruary()
    ensures GetLastDayOfMonth(Ascii("2020"), Ascii("02")) == Ok(Ascii("29"))
  {
    YearValue(Ascii("2020"), 2020);
    TwoDigitsValue(Ascii("02"));
    TwoDigitsValue(Ascii("29"));
    var r := GetLastDayOfMonth(Ascii("2020"), Ascii("02"));
    ZeroPadOfValue(r.value);
    ZeroPadOfValue(Ascii("29"));
  }

  lemma CommonFebruary()
    ensures GetLastDayOfMonth(Ascii("2019"), Ascii("02")) == Ok(Ascii("28"))
  {
    YearValue(Ascii("2019"), 2019);
    TwoDigitsValue(Ascii("02"));
    TwoDigitsValue(Ascii("28"));
    var r := GetLastDayOfMonth(Ascii("2019"), Ascii("02"));
    ZeroPadOfValue(r.value);
    ZeroPadOfValue(Ascii("28"));
  }

  /** April has 30 days in every year. */
  lemma EveryApril(year: seq<Byte>)
    requires |year| == 4 && AllDigits(year)
    ensures GetLastDayOfMonth(year, Ascii("04")) == Ok(Ascii("30"))
  {
    TwoDigitsValue(Ascii("04"));
    TwoDigitsValue(Ascii("30"));
    var r := GetLastDayOfMonth(year, Ascii("04"));
    ZeroPadOfValue(r.value);
    ZeroPadOfValue(Ascii("30"));
  }

  /** One record dated 2019-01-01 00:00:00 UTC. */
  function NewYearLog(): NostrLog {
    NostrLog("1", Contents("1546300800", "pk1", "hi"))
  }

  lemma NewYearLogParses()
    ensures ParseInt64(NewYearLog().contents.date) == Some(1546300800)
  {
    ParseFormatInt(1546300800);
    assert NatText(1) == "1";
    assert NatText(15) == "15";
    assert NatText(154) == "154";
    assert NatText(1546) == "1546";
    assert NatText(15463) == "15463";
    assert NatText(154630) == "154630";
    assert NatText(1546300) == "1546300";
    assert NatText(15463008) == "15463008";
    assert NatText(154630080) == "154630080";
    assert NatText(1546300800) == "1546300800";
  }

  lemma NewYearLogIngested()
    ensures Ingest([NewYearLog()]) == [NewYearLog()]
  {
    EscapeLeavesPlainText("hi");
  }

  /** With the zone offset anywhere from UTC to Japan Standard Time, the
      spec "2019" selects the record and prints it as the only entry. */
  lemma SpecYearIncludes(offset: int)
    requires 0 <= offset <= 32400
    ensures Run([NewYearLog()], Ascii("2019"), offset) == Render([NewYearLog()])
  {
    var d := Ascii("2019");
    YearValue(d, 2019);
    YearSpecWindow(d, offset);
    NewYearLogParses();
    NewYearLogIngested();
    assert DaysFromEpoch(2019, 1, 1) == 17897;
    MonthsFillYear(2019);
    var w := EffectiveWindow(d, offset);
    assert InWindow(NewYearLog(), w.start, w.end);
    var r := Selected([NewYearLog()], d, offset);
    assert multiset(r) == multiset{NewYearLog()};
    assert |r| == 1 && r[0] in multiset(r);
  }

  /** The spec "2018" ends before the record's time, so nothing but the
      two brace lines is printed. */
  lemma SpecYearExcludes(offset: int)
    requires 0 <= offset <= 32400
    ensures Run([NewYearLog()], Ascii("2018"), offset) == "{\n}\n"
  {
    var d := Ascii("2018");
    YearValue(d, 2018);
    YearSpecWindow(d, offset);
    NewYearLogParses();
    NewYearLogIngested();
    MonthsFillYear(2018);
    assert DaysFromEpoch(2018, 12, 31) == 17896;
    var w := EffectiveWindow(d, offset);
    assert !InWindow(NewYearLog(), w.start, w.end);
    var r := Selected([NewYearLog()], d, offset);
    assert multiset(r)[NewYearLog()] == 0;
    RenderIsJoin(r);
  }
}
