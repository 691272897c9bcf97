/**
  The Excel date converter: Excel serial day numbers to and from JavaScript
  time values, and the token formatter for dates.

  Excel's 1900 date system numbers days from 1 = 1900-01-01, but counts a
  29 February 1900 that never existed as day 60. Both converters take a flag,
  on by default, that shifts serials from 60 on by one day to skip it.

  Values are read in UTC throughout. A time value is a whole number of
  milliseconds since 1970-01-01T00:00:00Z; a serial is an exact real number.
*/
module ExcelDate {
  import opened Wrappers
  import opened EcmaTime
  import opened JsStrings
  import opened ExcelDateTemplates

  /**
    The JavaScript values a caller can pass. A Number is finite (NaN and the
    infinities are not represented) and exact; a DateObject carries its time value.
  */
  datatype JsValue =
    | Number(value: real)
    | Str(text: string)
    | Boolean(flag: bool)
    | Null
    | Undefined
    | DateObject(time: int)

  /** The TypeError the three functions throw on an argument of the wrong kind. */
  datatype TypeError = TypeError(message: string)

  /** The one day Excel counts for its phantom 29 February 1900. */
  const ExcelLeapYearBug: int := 1

  const MillisecondsPerDay: int := 24 * 60 * 60 * 1000

  /** The day number (days since 1970-01-01) of Excel day 0. */
  const ExcelEpochDay: int := -25568

  /**
    Excel day 0, 1899-12-31 at midnight UTC, written as the midnight of its
    day number; ExcelEpochValue shows it is Date.UTC(1899, 11, 31).
  */
  const ExcelEpoch: int := ExcelEpochDay * MsPerDay

  /** Excel day 1, 1900-01-01 at midnight UTC; ExcelDayOneValue shows it is Date.UTC(1900, 0, 1). */
  const ExcelDayOne: int := (ExcelEpochDay + 1) * MsPerDay

  /** The template formatDate uses when none is given. */
  const DefaultFormat: string := "YYYY-MM-DD"

  /** Excel day 0 is the date 1899-12-31 at midnight UTC. */
  lemma ExcelEpochValue()
    ensures ExcelEpoch == DateUtc(1899, 11, 31, 0, 0, 0)
    ensures YearFromTime(ExcelEpoch) == 1899 && MonthFromTime(ExcelEpoch) == 11 && DateFromTime(ExcelEpoch) == 31
  {
    assert MakeFullYear(1899) == 1899 && MakeTime(0, 0, 0, 0) == 0;
    assert MakeDay(1899, 11, 31) == ExcelEpochDay by {
      assert 1899 + 11 / 12 == 1899 && 11 % 12 == 11;
      assert DayFromYear(1899) == -25932;
      assert LeapDays(1899) == 0;
      assert MonthStart(11, 0) == 334;
    }
    UtcFieldsOfDateUtc(1899, 11, 31, 0, 0, 0);
  }

  /** Excel day 1 is the date 1900-01-01 at midnight UTC. */
  lemma ExcelDayOneValue()
    ensures ExcelDayOne == DateUtc(1900, 0, 1, 0, 0, 0)
    ensures YearFromTime(ExcelDayOne) == 1900 && MonthFromTime(ExcelDayOne) == 0 && DateFromTime(ExcelDayOne) == 1
  {
    assert MakeFullYear(1900) == 1900 && MakeTime(0, 0, 0, 0) == 0;
    assert MakeDay(1900, 0, 1) == ExcelEpochDay + 1;
    UtcFieldsOfDateUtc(1900, 0, 1, 0, 0, 0);
  }

  // ------------------------------------------------------------ rounding

  /**
    Math.round: the whole number nearest to x, the larger one when x lies
    halfway between two.
  */
  function MathRound(x: real): (n: int)
    ensures n as real - 0.5 <= x < n as real + 0.5
  {
    (x + 0.5).Floor
  }

  // ----------------------------------------------------------- converters

  /** The serial after the leap-year adjustment: from 60 on, one day less when the flag is set. */
  function AdjustedSerial(excelDate: real, adjustForLeapYearBug: bool): (s: real)
    ensures s == excelDate || s == excelDate - 1.0
    ensures s == excelDate - 1.0 <==> adjustForLeapYearBug && excelDate >= 60.0
  {
    if adjustForLeapYearBug && excelDate >= 60.0 then excelDate - ExcelLeapYearBug as real else excelDate
  }

  /**
    excelDateToJsDate: the time value of the serial for a number, a TypeError
    for anything else. The flag defaults to true. DecodeWithinAMillisecond
    states the result.
  */
  function ExcelDateToJsDate(excelDate: JsValue, adjustForLeapYearBug: Option<bool>): (r: Result<int, TypeError>)
    ensures r.Ok? <==> excelDate.Number?
    ensures r.Err? ==> r.error == TypeError("Excel date must be a number")
  {
    match excelDate
    case Number(n) => Ok(SerialToTime(n, adjustForLeapYearBug.GetOr(true)))
    case _ => Err(TypeError("Excel date must be a number"))
  }

  /**
    The arithmetic of excelDateToJsDate: the time value `excelDate` days past
    Excel day 0, taking the leap-year adjustment first.
  */
  function SerialToTime(excelDate: real, adjustForLeapYearBug: bool): (t: int)
    ensures var exact := ExcelEpoch as real + AdjustedSerial(excelDate, adjustForLeapYearBug) * MillisecondsPerDay as real;
            -1.0 < t as real - exact < 1.0
  {
    var serial := AdjustedSerial(excelDate, adjustForLeapYearBug);
    var msFromExcelEpoch := serial * MillisecondsPerDay as real;
    TimeClip(ExcelEpoch as real + msFromExcelEpoch)
  }

  /**
    The decoded time value is the exact instant `excelDate` days (after the
    adjustment) past Excel day 0, less than one millisecond away: the
    fraction of a millisecond is dropped.
  */
  lemma DecodeWithinAMillisecond(excelDate: real, adjustForLeapYearBug: Option<bool>)
    ensures var r := ExcelDateToJsDate(Number(excelDate), adjustForLeapYearBug);
            var exact := ExcelEpoch as real
                         + AdjustedSerial(excelDate, adjustForLeapYearBug.GetOr(true)) * MillisecondsPerDay as real;
            r.Ok? && -1.0 < r.value as real - exact < 1.0
  {
    var serial := AdjustedSerial(excelDate, adjustForLeapYearBug.GetOr(true));
    TimeClipWithinOne(ExcelEpoch as real + serial * MillisecondsPerDay as real);
  }

  /** TimeClip moves a time by less than one millisecond. */
  lemma TimeClipWithinOne(time: real)
    ensures -1.0 < TimeClip(time) as real - time < 1.0
  {
  }

  /**
    jsDateToExcelDate: the nearest whole number of days from 1900-01-01 to the
    date, plus 1, plus one more from 60 on when the flag is set; a TypeError
    for anything but a Date. The flag defaults to true. With the flag set the
    result is never 60; EncodeNearestDay states the result.
  */
  function JsDateToExcelDate(jsDate: JsValue, adjustForLeapYearBug: Option<bool>): (r: Result<int, TypeError>)
    ensures r.Ok? <==> jsDate.DateObject?
    ensures r.Err? ==> r.error == TypeError("JavaScript date must be a Date object")
    ensures r.Ok? && adjustForLeapYearBug.GetOr(true) ==> r.value != 60
  {
    match jsDate
    case DateObject(t) => Ok(TimeToSerial(t, adjustForLeapYearBug.GetOr(true)))
    case _ => Err(TypeError("JavaScript date must be a Date object"))
  }

  /**
    The arithmetic of jsDateToExcelDate: the nearest whole number of days from
    1900-01-01 to t, plus 1, plus one more from 60 on when the flag is set.
  */
  function TimeToSerial(t: int, adjustForLeapYearBug: bool): (n: int)
    ensures adjustForLeapYearBug ==> n != 60
  {
    var days := (t - ExcelDayOne) as real / MillisecondsPerDay as real;
    var excelDate := MathRound(days) + 1;
    if adjustForLeapYearBug && excelDate >= 60 then excelDate + ExcelLeapYearBug else excelDate
  }

  /**
    The serial of a date: once the skipped day is taken back out (from 61 on
    when the flag is set), it is 1 + the nearest whole number of days from
    1900-01-01 to the date, a date exactly halfway between two midnights
    going to the later one.
  */
  lemma EncodeNearestDay(t: int, adjustForLeapYearBug: Option<bool>)
    ensures var r := JsDateToExcelDate(DateObject(t), adjustForLeapYearBug);
            var days := (if adjustForLeapYearBug.GetOr(true) && r.value > 60 then r.value - 1 else r.value) - 1;
            r.Ok? && 2 * days * MsPerDay - MsPerDay <= 2 * (t - ExcelDayOne) < 2 * days * MsPerDay + MsPerDay
  {
    var days := (t - ExcelDayOne) as real / MillisecondsPerDay as real;
    assert days == (t - ExcelDayOne) as real / 86400000.0;
    NearestDay(t - ExcelDayOne, MathRound(days));
  }

  /** What Math.round of a millisecond count divided by MsPerDay means in whole numbers. */
  lemma NearestDay(ms: int, n: int)
    requires n == MathRound(ms as real / 86400000.0)
    ensures 2 * n * MsPerDay - MsPerDay <= 2 * ms < 2 * n * MsPerDay + MsPerDay
  {
    var x := ms as real / 86400000.0;
    assert ms as real == x * 86400000.0;
    assert (n as real - 0.5) * 86400000.0 <= ms as real < (n as real + 0.5) * 86400000.0;
  }

  // ------------------------------------------------------------ formatter

  /** n.toString().padStart(2, '0'). */
  function TwoDigits(n: int): string
  {
    PadStart(IntToString(n), 2, '0')
  }

  /** A number from 0 to 99 is written as its tens digit, then its units digit. */
  lemma TwoDigitsText(n: int)
    requires 0 <= n < 100
    ensures TwoDigits(n) == [DigitChar(n / 10), DigitChar(n % 10)]
  {
    var s := IntToString(n);
    if n < 10 {
      assert s == [DigitChar(n)];
      assert n / 10 == 0 && n % 10 == n && DigitChar(0) == '0';
      assert TwoDigits(n) == seq(1, _ => '0') + s;
    } else {
      assert NatToString(n / 10) == [DigitChar(n / 10)];
      assert s == [DigitChar(n / 10)] + [DigitChar(n % 10)];
    }
  }

  /** A number from 0 to 99 is written as exactly two digits that read back as it. */
  lemma TwoDigitsReadsBack(n: int)
    requires 0 <= n < 100
    ensures |TwoDigits(n)| == 2 && IsDigit(TwoDigits(n)[0]) && IsDigit(TwoDigits(n)[1])
    ensures DecimalValue(TwoDigits(n)) == n
  {
    var s := IntToString(n);
    if n < 10 {
      assert s == [DigitChar(n)];
      assert TwoDigits(n) == ['0', DigitChar(n)];
      assert TwoDigits(n)[..1] == ['0'];
    } else {
      assert s == NatToString(n);
      assert NatToString(n / 10) == [DigitChar(n / 10)];
      assert s == [DigitChar(n / 10)] + [DigitChar(n % 10)];
      assert TwoDigits(n) == s;
    }
  }

  /**
    formatDate: the template (DefaultFormat when none is given) with its tokens
    replaced by the date's fields, the year as Number::toString writes it and
    the others padded to two digits; a TypeError for anything but a Date.
    With the default template the result is year-month-day, month and day in
    two digits.
  */
  function FormatDate(date: JsValue, format: Option<string>): (r: Result<string, TypeError>)
    ensures r.Ok? <==> date.DateObject?
    ensures r.Err? ==> r.error == TypeError("Date must be a Date object")
    ensures r.Ok? && format.None? ==>
      r.value == IntToString(YearFromTime(date.time)) + "-" + TwoDigits(MonthFromTime(date.time) + 1)
                 + "-" + TwoDigits(DateFromTime(date.time))
  {
    if !date.DateObject? then Err(TypeError("Date must be a Date object"))
    else if format.None? then
      DefaultFields(date.time);
      Ok(FormatFields(date.time, DefaultFormat))
    else
      Ok(FormatFields(date.time, format.value))
  }

  /**
    The template filled with the fields of time value t: the year as
    Number::toString writes it, the month (1-based), day, hours, minutes and
    seconds padded to two digits.
  */
  function FormatFields(t: int, format: string): string
  {
    FillTemplate(format, IntToString(YearFromTime(t)), TwoDigits(MonthFromTime(t) + 1), TwoDigits(DateFromTime(t)),
                 TwoDigits(HourFromTime(t)), TwoDigits(MinFromTime(t)), TwoDigits(SecFromTime(t)))
  }

  /** The default template filled with the fields of t is year-month-day. */
  lemma DefaultFields(t: int)
    ensures FormatFields(t, DefaultFormat)
         == IntToString(YearFromTime(t)) + "-" + TwoDigits(MonthFromTime(t) + 1) + "-" + TwoDigits(DateFromTime(t))
  {
    FieldsTokenFree(t);
    FillDefault(IntToString(YearFromTime(t)), TwoDigits(MonthFromTime(t) + 1), TwoDigits(DateFromTime(t)),
                TwoDigits(HourFromTime(t)), TwoDigits(MinFromTime(t)), TwoDigits(SecFromTime(t)));
  }

  /** The default template is "YYYY" + sep + "MM" + sep + "DD" with sep = "-". */
  lemma FillDefault(y: string, m: string, d: string, hh: string, mi: string, ss: string)
    requires TokenFree(y) && TokenFree(m) && TokenFree(d)
    ensures FillTemplate(DefaultFormat, y, m, d, hh, mi, ss) == y + "-" + m + "-" + d
  {
    assert DefaultFormat == "YYYY" + "-" + "MM" + "-" + "DD";
    FillYearMonthDay("-", y, m, d, hh, mi, ss);
  }

  /** A field from 0 to 99 written by TwoDigits holds no token letter. */
  lemma TwoDigitsTokenFree(n: int)
    requires 0 <= n < 100
    ensures TokenFree(TwoDigits(n))
  {
    TwoDigitsText(n);
  }

  /** formatDate with "YYYY/MM/DD", for any separator, writes year, month and day in that order. */
  lemma FormatYearMonthDay(t: int, sep: string)
    requires TokenFree(sep)
    ensures FormatDate(DateObject(t), Some("YYYY" + sep + "MM" + sep + "DD"))
         == Ok(IntToString(YearFromTime(t)) + sep + TwoDigits(MonthFromTime(t) + 1) + sep + TwoDigits(DateFromTime(t)))
  {
    var y, m, d := IntToString(YearFromTime(t)), TwoDigits(MonthFromTime(t) + 1), TwoDigits(DateFromTime(t));
    var hh, mi, ss := TwoDigits(HourFromTime(t)), TwoDigits(MinFromTime(t)), TwoDigits(SecFromTime(t));
    assert FillTemplate("YYYY" + sep + "MM" + sep + "DD", y, m, d, hh, mi, ss) == y + sep + m + sep + d by {
      FieldsTokenFree(t);
      FillYearMonthDay(sep, y, m, d, hh, mi, ss);
    }
    FormatFill(t, "YYYY" + sep + "MM" + sep + "DD", y, m, d, hh, mi, ss);
  }

  /** formatDate with "MM/DD/YYYY", for any separator, writes month, day and year in that order. */
  lemma FormatMonthDayYear(t: int, sep: string)
    requires TokenFree(sep)
    ensures FormatDate(DateObject(t), Some("MM" + sep + "DD" + sep + "YYYY"))
         == Ok(TwoDigits(MonthFromTime(t) + 1) + sep + TwoDigits(DateFromTime(t)) + sep + IntToString(YearFromTime(t)))
  {
    var y, m, d := IntToString(YearFromTime(t)), TwoDigits(MonthFromTime(t) + 1), TwoDigits(DateFromTime(t));
    var hh, mi, ss := TwoDigits(HourFromTime(t)), TwoDigits(MinFromTime(t)), TwoDigits(SecFromTime(t));
    assert FillTemplate("MM" + sep + "DD" + sep + "YYYY", y, m, d, hh, mi, ss) == m + sep + d + sep + y by {
      FieldsTokenFree(t);
      FillMonthDayYear(sep, y, m, d, hh, mi, ss);
    }
    FormatFill(t, "MM" + sep + "DD" + sep + "YYYY", y, m, d, hh, mi, ss);
  }

  /** formatDate with "DD.MM.YYYY HH:mm:ss", for any separators, writes every field in its place. */
  lemma FormatDayMonthYearClock(t: int, ds: string, gap: string, ts: string)
    requires TokenFree(ds) && TokenFree(gap) && TokenFree(ts)
    ensures FormatDate(DateObject(t), Some("DD" + ds + "MM" + ds + "YYYY" + gap + "HH" + ts + "mm" + ts + "ss"))
         == Ok(TwoDigits(DateFromTime(t)) + ds + TwoDigits(MonthFromTime(t) + 1) + ds + IntToString(YearFromTime(t))
               + gap + TwoDigits(HourFromTime(t)) + ts + TwoDigits(MinFromTime(t)) + ts + TwoDigits(SecFromTime(t)))
  {
    var y, m, d := IntToString(YearFromTime(t)), TwoDigits(MonthFromTime(t) + 1), TwoDigits(DateFromTime(t));
    var hh, mi, ss := TwoDigits(HourFromTime(t)), TwoDigits(MinFromTime(t)), TwoDigits(SecFromTime(t));
    var format := "DD" + ds + "MM" + ds + "YYYY" + gap + "HH" + ts + "mm" + ts + "ss";
    assert FillTemplate(format, y, m, d, hh, mi, ss) == d + ds + m + ds + y + gap + hh + ts + mi + ts + ss by {
      FieldsTokenFree(t);
      FillDayMonthYearClock(ds, gap, ts, y, m, d, hh, mi, ss);
    }
    FormatFill(t, format, y, m, d, hh, mi, ss);
  }

  /**
    formatDate fills only the first instance of a repeated token: with
    "YYYY" sep "YYYY" the year replaces the first YYYY and the second is kept.
  */
  lemma FormatRepeatedYear(t: int, sep: string)
    requires TokenFree(sep)
    ensures FormatDate(DateObject(t), Some("YYYY" + sep + "YYYY")) == Ok(IntToString(YearFromTime(t)) + sep + "YYYY")
  {
    var y, m, d := IntToString(YearFromTime(t)), TwoDigits(MonthFromTime(t) + 1), TwoDigits(DateFromTime(t));
    var hh, mi, ss := TwoDigits(HourFromTime(t)), TwoDigits(MinFromTime(t)), TwoDigits(SecFromTime(t));
    assert FillTemplate("YYYY" + sep + "YYYY", y, m, d, hh, mi, ss) == y + sep + "YYYY" by {
      IntTextTokenFree(YearFromTime(t));
      FillRepeatedYear(sep, y, m, d, hh, mi, ss);
    }
    FormatFill(t, "YYYY" + sep + "YYYY", y, m, d, hh, mi, ss);
  }

  /** formatDate of a Date is the template filled with the Date's field texts. */
  lemma FormatFill(t: int, format: string, y: string, m: string, d: string, hh: string, mi: string, ss: string)
    requires y == IntToString(YearFromTime(t)) && m == TwoDigits(MonthFromTime(t) + 1) && d == TwoDigits(DateFromTime(t))
    requires hh == TwoDigits(HourFromTime(t)) && mi == TwoDigits(MinFromTime(t)) && ss == TwoDigits(SecFromTime(t))
    ensures FormatDate(DateObject(t), Some(format)) == Ok(FillTemplate(format, y, m, d, hh, mi, ss))
  {
  }

  /** No field text of a Date holds a token letter. */
  lemma FieldsTokenFree(t: int)
    ensures TokenFree(IntToString(YearFromTime(t)))
    ensures TokenFree(TwoDigits(MonthFromTime(t) + 1)) && TokenFree(TwoDigits(DateFromTime(t)))
    ensures TokenFree(TwoDigits(HourFromTime(t))) && TokenFree(TwoDigits(MinFromTime(t)))
    ensures TokenFree(TwoDigits(SecFromTime(t)))
  {
    IntTextTokenFree(YearFromTime(t));
    assert TokenFree(TwoDigits(MonthFromTime(t) + 1)) by {
      TwoDigitsTokenFree(MonthFromTime(t) + 1);
    }
    assert TokenFree(TwoDigits(DateFromTime(t))) by {
      TwoDigitsTokenFree(DateFromTime(t));
    }
    assert TokenFree(TwoDigits(HourFromTime(t))) by {
      TwoDigitsTokenFree(HourFromTime(t));
    }
    assert TokenFree(TwoDigits(MinFromTime(t))) by {
      TwoDigitsTokenFree(MinFromTime(t));
    }
    TwoDigitsTokenFree(SecFromTime(t));
  }

  /** Number::toString never writes a token letter. */
  lemma IntTextTokenFree(n: int)
    ensures TokenFree(IntToString(n))
  {
  }
}
