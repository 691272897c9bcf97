/**
  The behaviour the repository's tests pin down, as lemmas about the model:
  the serials of known dates in both directions, the skipped 29 February 1900,
  the default and custom templates of formatDate, and the TypeErrors.
  Dates the tests build in local time are built here with Date.UTC.
*/
module ExcelDateExamples {
  import opened Wrappers
  import opened EcmaTime
  import opened JsStrings
  import opened ExcelDate
  import opened ExcelDateRoundTrip
  import opened ExcelDateTemplates

  /** An absent flag is the flag set. */
  lemma DecodeFlagDefaultsOn(excelDate: real)
    ensures ExcelDateToJsDate(Number(excelDate), None) == ExcelDateToJsDate(Number(excelDate), Some(true))
  {
    assert None.GetOr(true) == Some(true).GetOr(true);
  }

  /** An absent flag is the flag set. */
  lemma EncodeFlagDefaultsOn(t: int)
    ensures JsDateToExcelDate(DateObject(t), None) == JsDateToExcelDate(DateObject(t), Some(true))
  {
    assert None.GetOr(true) == Some(true).GetOr(true);
  }

  /** With the default flag, a whole serial decodes to midnight UTC of the calendar date with that day number. */
  lemma DecodesTo(excelDate: real, serial: int, year: int, month: int, date: int)
    requires excelDate == serial as real
    requires 0 <= month < 12 && 1 <= date <= DaysInMonth(year, month)
    requires DayFromYear(year) + MonthStart(month, LeapDays(year)) + date - 1
          == ExcelEpochDay + serial - LeapShift(serial, true)
    ensures var r := ExcelDateToJsDate(Number(excelDate), None);
            && r.Ok?
            && YearFromTime(r.value) == year && MonthFromTime(r.value) == month && DateFromTime(r.value) == date
  {
    var day := ExcelEpochDay + serial - LeapShift(serial, true);
    assert ExcelDateToJsDate(Number(excelDate), None) == Ok(day * MsPerDay) by {
      DecodeWholeSerial(serial, true);
    }
    FieldsOfMidnight(day * MsPerDay, year, month, date);
  }

  /** Midnight UTC of a calendar date's day number reads back as that date. */
  lemma FieldsOfMidnight(t: int, year: int, month: int, date: int)
    requires 0 <= month < 12 && 1 <= date <= DaysInMonth(year, month)
    requires t == (DayFromYear(year) + MonthStart(month, LeapDays(year)) + date - 1) * MsPerDay
    ensures YearFromTime(t) == year && MonthFromTime(t) == month && DateFromTime(t) == date
  {
    assert Day(t) == DayFromYear(year) + MonthStart(month, LeapDays(year)) + date - 1;
    DayOfCivilDate(year, month, date, Day(t));
  }

  /** Days from the Excel epoch to a calendar date, plus the phantom 29 February 1900 once it is passed. */
  function CivilSerial(year: int, month: int, date: int): int
    requires 0 <= month < 12
  {
    var n := DayFromYear(year) + MonthStart(month, LeapDays(year)) + date - 1 - ExcelEpochDay;
    n + LeapShift(n, true)
  }

  /** The serials of the calendar dates the encoding examples use. */
  lemma ExampleSerials()
    ensures CivilSerial(1900, 0, 1) == 1 && CivilSerial(1900, 1, 28) == 59 && CivilSerial(1900, 2, 1) == 61
    ensures CivilSerial(2020, 0, 1) == 43831 && CivilSerial(2021, 11, 31) == 44561
  {
  }

  /** With the default flag, a Date at midnight UTC of a calendar date encodes to the given serial. */
  lemma EncodesTo(t: int, year: int, month: int, date: int, serial: int)
    requires TimeWithinDay(t) == 0
    requires YearFromTime(t) == year && MonthFromTime(t) == month && DateFromTime(t) == date
    requires CivilSerial(year, month, date) == serial
    ensures JsDateToExcelDate(DateObject(t), None) == Ok(serial)
  {
    DayFromFields(Day(t));
    EncodeMidnight(t, Day(t), true);
  }

  // The test serials below are parameters fixed by a requires rather than
  // literal arguments: on all-literal arguments the verifier evaluates the
  // calendar functions in full, which is far slower than the general lemmas.
  // The encoding examples likewise give their Date by its getters.

  lemma DecodeSerial1(excelDate: real)
    requires excelDate == 1.0
    ensures var r := ExcelDateToJsDate(Number(excelDate), None);
            r.Ok? && YearFromTime(r.value) == 1900 && MonthFromTime(r.value) == 0 && DateFromTime(r.value) == 1
  {
    DecodesTo(excelDate, 1, 1900, 0, 1);
  }

  lemma DecodeSerial59(excelDate: real)
    requires excelDate == 59.0
    ensures var r := ExcelDateToJsDate(Number(excelDate), None);
            r.Ok? && YearFromTime(r.value) == 1900 && MonthFromTime(r.value) == 1 && DateFromTime(r.value) == 28
  {
    DecodesTo(excelDate, 59, 1900, 1, 28);
  }

  /** The phantom 29 February 1900 is read as 28 February. */
  lemma DecodeSerial60(excelDate: real)
    requires excelDate == 60.0
    ensures var r := ExcelDateToJsDate(Number(excelDate), None);
            r.Ok? && YearFromTime(r.value) == 1900 && MonthFromTime(r.value) == 1 && DateFromTime(r.value) == 28
  {
    DecodesTo(excelDate, 60, 1900, 1, 28);
  }

  lemma DecodeSerial61(excelDate: real)
    requires excelDate == 61.0
    ensures var r := ExcelDateToJsDate(Number(excelDate), None);
            r.Ok? && YearFromTime(r.value) == 1900 && MonthFromTime(r.value) == 2 && DateFromTime(r.value) == 1
  {
    DecodesTo(excelDate, 61, 1900, 2, 1);
  }

  lemma DecodeSerial43831(excelDate: real)
    requires excelDate == 43831.0
    ensures var r := ExcelDateToJsDate(Number(excelDate), None);
            r.Ok? && YearFromTime(r.value) == 2020 && MonthFromTime(r.value) == 0 && DateFromTime(r.value) == 1
  {
    DecodesTo(excelDate, 43831, 2020, 0, 1);
  }

  lemma DecodeSerial44562(excelDate: real)
    requires excelDate == 44562.0
    ensures var r := ExcelDateToJsDate(Number(excelDate), None);
            r.Ok? && YearFromTime(r.value) == 2022 && MonthFromTime(r.value) == 0 && DateFromTime(r.value) == 1
  {
    DecodesTo(excelDate, 44562, 2022, 0, 1);
  }

  lemma EncodeJan1st1900(t: int)
    requires TimeWithinDay(t) == 0 && YearFromTime(t) == 1900 && MonthFromTime(t) == 0 && DateFromTime(t) == 1
    ensures JsDateToExcelDate(DateObject(t), None) == Ok(1)
  {
    ExampleSerials();
    EncodesTo(t, 1900, 0, 1, 1);
  }

  lemma EncodeFeb28th1900(t: int)
    requires TimeWithinDay(t) == 0 && YearFromTime(t) == 1900 && MonthFromTime(t) == 1 && DateFromTime(t) == 28
    ensures JsDateToExcelDate(DateObject(t), None) == Ok(59)
  {
    ExampleSerials();
    EncodesTo(t, 1900, 1, 28, 59);
  }

  /** 1 March 1900 comes after the phantom day 60, so it is 61. */
  lemma EncodeMar1st1900(t: int)
    requires TimeWithinDay(t) == 0 && YearFromTime(t) == 1900 && MonthFromTime(t) == 2 && DateFromTime(t) == 1
    ensures JsDateToExcelDate(DateObject(t), None) == Ok(61)
  {
    ExampleSerials();
    EncodesTo(t, 1900, 2, 1, 61);
  }

  lemma EncodeJan1st2020(t: int)
    requires TimeWithinDay(t) == 0 && YearFromTime(t) == 2020 && MonthFromTime(t) == 0 && DateFromTime(t) == 1
    ensures JsDateToExcelDate(DateObject(t), None) == Ok(43831)
  {
    ExampleSerials();
    EncodesTo(t, 2020, 0, 1, 43831);
  }

  lemma EncodeDec31st2021(t: int)
    requires TimeWithinDay(t) == 0 && YearFromTime(t) == 2021 && MonthFromTime(t) == 11 && DateFromTime(t) == 31
    ensures JsDateToExcelDate(DateObject(t), None) == Ok(44561)
  {
    ExampleSerials();
    EncodesTo(t, 2021, 11, 31, 44561);
  }

  /** The fields of 15 January 2022, at any time of day, as the getters read them. */
  lemma JanuaryFifteenth(hours: int, minutes: int, seconds: int)
    requires 0 <= hours < 24 && 0 <= minutes < 60 && 0 <= seconds < 60
    ensures var t := DateUtc(2022, 0, 15, hours, minutes, seconds);
            && YearFromTime(t) == 2022 && MonthFromTime(t) == 0 && DateFromTime(t) == 15
            && HourFromTime(t) == hours && MinFromTime(t) == minutes && SecFromTime(t) == seconds
  {
    assert MakeFullYear(2022) == 2022;
    assert DaysInMonth(2022, 0) == 31;
    UtcFieldsOfDateUtc(2022, 0, 15, hours, minutes, seconds);
  }

  /** The field texts formatDate writes for 15 January 2022, 13:45:30. */
  lemma FieldTexts(t: int)
    requires YearFromTime(t) == 2022 && MonthFromTime(t) == 0 && DateFromTime(t) == 15
    requires HourFromTime(t) == 13 && MinFromTime(t) == 45 && SecFromTime(t) == 30
    ensures IntToString(YearFromTime(t)) == "2022"
    ensures TwoDigits(MonthFromTime(t) + 1) == "01" && TwoDigits(DateFromTime(t)) == "15"
    ensures TwoDigits(HourFromTime(t)) == "13" && TwoDigits(MinFromTime(t)) == "45" && TwoDigits(SecFromTime(t)) == "30"
  {
    DateTexts(YearFromTime(t), MonthFromTime(t), DateFromTime(t));
    ClockTexts(HourFromTime(t), MinFromTime(t), SecFromTime(t));
  }

  /** The texts of the year, month and day of 15 January 2022. */
  lemma DateTexts(year: int, month: int, date: int)
    requires year == 2022 && month == 0 && date == 15
    ensures IntToString(year) == "2022" && TwoDigits(month + 1) == "01" && TwoDigits(date) == "15"
  {
    YearIs(year, "2022");
    TwoDigitsAre(month + 1, "01");
    TwoDigitsAre(date, "15");
  }

  /** The texts of the clock fields of 13:45:30. */
  lemma ClockTexts(hours: int, minutes: int, seconds: int)
    requires hours == 13 && minutes == 45 && seconds == 30
    ensures TwoDigits(hours) == "13" && TwoDigits(minutes) == "45" && TwoDigits(seconds) == "30"
  {
    TwoDigitsAre(hours, "13");
    TwoDigitsAre(minutes, "45");
    TwoDigitsAre(seconds, "30");
  }

  /** The text of a four-digit year is the text holding its digits. */
  lemma YearIs(n: int, text: string)
    requires 1000 <= n < 10000 && |text| == 4
    requires text[0] == DigitChar(n / 1000) && text[1] == DigitChar(n / 100 % 10)
    requires text[2] == DigitChar(n / 10 % 10) && text[3] == DigitChar(n % 10)
    ensures IntToString(n) == text
  {
    FourDigitString(n);
  }

  /** The two-digit text of a field is the text holding its digits. */
  lemma TwoDigitsAre(n: int, text: string)
    requires 0 <= n < 100 && |text| == 2
    requires text[0] == DigitChar(n / 10) && text[1] == DigitChar(n % 10)
    ensures TwoDigits(n) == text
  {
    TwoDigitsText(n);
  }

  /**
    A Date on 15 January 2022 at 13:45:30 under "YYYY/MM/DD" gives "2022/01/15";
    so it does with any other separator in place of the slash.
  */
  lemma FormatYearFirst(t: int, sep: string)
    requires YearFromTime(t) == 2022 && MonthFromTime(t) == 0 && DateFromTime(t) == 15
    requires HourFromTime(t) == 13 && MinFromTime(t) == 45 && SecFromTime(t) == 30
    requires TokenFree(sep)
    ensures FormatDate(DateObject(t), Some("YYYY" + sep + "MM" + sep + "DD")) == Ok("2022" + sep + "01" + sep + "15")
  {
    FieldTexts(t);
    FormatYearMonthDay(t, sep);
  }

  /** The same Date under "MM/DD/YYYY" gives "01/15/2022", and likewise with other separators. */
  lemma FormatMonthFirst(t: int, sep: string)
    requires YearFromTime(t) == 2022 && MonthFromTime(t) == 0 && DateFromTime(t) == 15
    requires HourFromTime(t) == 13 && MinFromTime(t) == 45 && SecFromTime(t) == 30
    requires TokenFree(sep)
    ensures FormatDate(DateObject(t), Some("MM" + sep + "DD" + sep + "YYYY")) == Ok("01" + sep + "15" + sep + "2022")
  {
    FieldTexts(t);
    FormatMonthDayYear(t, sep);
  }

  /**
    The same Date under "DD.MM.YYYY HH:mm:ss" gives "15.01.2022 13:45:30", and
    likewise with other date separators, gaps and clock separators.
  */
  lemma FormatDayFirstWithClock(t: int, ds: string, gap: string, ts: string)
    requires YearFromTime(t) == 2022 && MonthFromTime(t) == 0 && DateFromTime(t) == 15
    requires HourFromTime(t) == 13 && MinFromTime(t) == 45 && SecFromTime(t) == 30
    requires TokenFree(ds) && TokenFree(gap) && TokenFree(ts)
    ensures FormatDate(DateObject(t), Some("DD" + ds + "MM" + ds + "YYYY" + gap + "HH" + ts + "mm" + ts + "ss"))
         == Ok("15" + ds + "01" + ds + "2022" + gap + "13" + ts + "45" + ts + "30")
  {
    FieldTexts(t);
    FormatDayMonthYearClock(t, ds, gap, ts);
  }

  /** A Date on 15 January 2022 with no template given gives "2022-01-15". */
  lemma FormatDefault(t: int)
    requires YearFromTime(t) == 2022 && MonthFromTime(t) == 0 && DateFromTime(t) == 15
    ensures FormatDate(DateObject(t), None) == Ok("2022-01-15")
  {
    DefaultTexts(t);
    FormatDefaultAs(t, "2022-01-15");
  }

  /** With no template, formatDate gives the year, month and day texts joined by hyphens. */
  lemma FormatDefaultAs(t: int, out: string)
    requires IntToString(YearFromTime(t)) + "-" + TwoDigits(MonthFromTime(t) + 1) + "-" + TwoDigits(DateFromTime(t)) == out
    ensures FormatDate(DateObject(t), None) == Ok(out)
  {
    DefaultFields(t);
    assert FormatDate(DateObject(t), None) == Ok(FormatFields(t, DefaultFormat));
  }

  /** The default text for 15 January 2022. */
  lemma DefaultTexts(t: int)
    requires YearFromTime(t) == 2022 && MonthFromTime(t) == 0 && DateFromTime(t) == 15
    ensures IntToString(YearFromTime(t)) + "-" + TwoDigits(MonthFromTime(t) + 1) + "-" + TwoDigits(DateFromTime(t))
         == "2022-01-15"
  {
    DateTexts(YearFromTime(t), MonthFromTime(t), DateFromTime(t));
    DefaultJoin();
  }

  /**
    The three date texts joined by hyphens. Kept apart from DefaultTexts, where
    the same literal concatenation has too many other facts beside it to be
    settled quickly.
  */
  lemma DefaultJoin()
    ensures "2022" + "-" + "01" + "-" + "15" == "2022-01-15"
  {
    assert ("2022" + "-" + "01" + "-" + "15")[..4] == "2022";
  }

  lemma RejectsWrongKinds()
    ensures ExcelDateToJsDate(Str("not a number"), None) == Err(TypeError("Excel date must be a number"))
    ensures ExcelDateToJsDate(Null, None).Err? && ExcelDateToJsDate(Undefined, None).Err?
    ensures JsDateToExcelDate(Str("not a date"), None) == Err(TypeError("JavaScript date must be a Date object"))
    ensures JsDateToExcelDate(Number(123.0), None).Err?
    ensures JsDateToExcelDate(Null, None).Err? && JsDateToExcelDate(Undefined, None).Err?
    ensures FormatDate(Str("not a date"), None) == Err(TypeError("Date must be a Date object"))
    ensures FormatDate(Number(123.0), None).Err?
    ensures FormatDate(Null, None).Err? && FormatDate(Undefined, None).Err?
  {
  }
}
