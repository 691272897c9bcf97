/**
  What the two converters promise together: whole serials decode to midnights,
  the encoder undoes the decoder (but for the phantom day 60), the decoder
  undoes the encoder up to the nearest midnight, and the time of day carried
  by a fractional serial is kept.
*/
module ExcelDateRoundTrip {
  import opened Wrappers
  import opened EcmaTime
  import opened ExcelDate

  /** The days the leap-year adjustment takes off a whole serial. */
  function LeapShift(serial: int, adjustForLeapYearBug: bool): (k: int)
    ensures k == 0 || k == 1
    ensures k == 1 <==> adjustForLeapYearBug && serial >= 60
  {
    if adjustForLeapYearBug && serial >= 60 then ExcelLeapYearBug else 0
  }

  /** The decoder in exact arithmetic: the serial's milliseconds past day -25568's midnight, truncated. */
  lemma DecodeExact(excelDate: real, adjustForLeapYearBug: bool)
    ensures SerialToTime(excelDate, adjustForLeapYearBug)
         == TimeClip((ExcelEpochDay as real + AdjustedSerial(excelDate, adjustForLeapYearBug)) * 86400000.0)
  {
    ScaleSum(ExcelEpochDay, AdjustedSerial(excelDate, adjustForLeapYearBug));
  }

  /** Milliseconds of a whole day number plus those of a serial are the milliseconds of their sum. */
  lemma ScaleSum(day: int, serial: real)
    ensures (day * MsPerDay) as real + serial * MillisecondsPerDay as real == (day as real + serial) * 86400000.0
  {
    assert (day * MsPerDay) as real == day as real * 86400000.0;
  }

  /** TimeClip leaves a whole number of milliseconds as it is. */
  lemma TimeClipWhole(t: int)
    ensures TimeClip(t as real) == t
  {
  }

  /** A whole day number, scaled exactly to milliseconds, is that day's midnight. */
  lemma ExactMidnight(day: int)
    ensures TimeClip(day as real * 86400000.0) == day * MsPerDay
  {
    var t := day * 86400000;
    assert day as real * 86400000.0 == t as real;
    TimeClipWhole(t);
  }

  /** On a whole serial the adjustment takes off a whole LeapShift. */
  lemma AdjustedWholeSerial(serial: int, adjustForLeapYearBug: bool)
    ensures ExcelEpochDay as real + AdjustedSerial(serial as real, adjustForLeapYearBug)
         == (ExcelEpochDay + serial - LeapShift(serial, adjustForLeapYearBug)) as real
  {
  }

  /** A whole serial decodes to the midnight that many days (less the skipped one) after Excel day 0. */
  lemma DecodeWholeSerial(serial: int, adjustForLeapYearBug: bool)
    ensures SerialToTime(serial as real, adjustForLeapYearBug)
         == (ExcelEpochDay + serial - LeapShift(serial, adjustForLeapYearBug)) * MsPerDay
  {
    DecodeExact(serial as real, adjustForLeapYearBug);
    AdjustedWholeSerial(serial, adjustForLeapYearBug);
    ExactMidnight(ExcelEpochDay + serial - LeapShift(serial, adjustForLeapYearBug));
  }

  /** A midnight maps to the whole number of days from Excel day 0, plus the skipped day from 60 on. */
  lemma EncodeMidnight(t: int, day: int, adjustForLeapYearBug: bool)
    requires t == day * MsPerDay
    ensures TimeToSerial(t, adjustForLeapYearBug)
         == day - ExcelEpochDay + LeapShift(day - ExcelEpochDay, adjustForLeapYearBug)
  {
    EncodeExact(t, adjustForLeapYearBug);
    WholeDaysFromDayOne(t, day);
  }

  /** The encoder in exact arithmetic: Math.round of the days since Excel day 1, plus 1, then the adjustment. */
  lemma EncodeExact(t: int, adjustForLeapYearBug: bool)
    ensures var n := MathRound((t - ExcelDayOne) as real / 86400000.0) + 1;
            TimeToSerial(t, adjustForLeapYearBug) == n + LeapShift(n, adjustForLeapYearBug)
  {
    assert MillisecondsPerDay as real == 86400000.0;
  }

  /** From Excel day 1 to a midnight is a whole number of days, which Math.round keeps. */
  lemma WholeDaysFromDayOne(t: int, day: int)
    requires t == day * MsPerDay
    ensures MathRound((t - ExcelDayOne) as real / 86400000.0) == day - ExcelEpochDay - 1
  {
    var n := day - ExcelEpochDay;
    var ms := t - ExcelDayOne;
    assert ms == (n - 1) * 86400000;
    assert ms as real / 86400000.0 == (n - 1) as real;
  }

  /**
    Decoding a whole serial and encoding the result gives the serial back, except
    serial 60, the phantom 29 February 1900: with the flag set it decodes to the
    same midnight as 59, and so comes back as 59.
  */
  lemma EncodeDecodeWholeSerial(serial: int, adjustForLeapYearBug: bool)
    ensures var t := ExcelDateToJsDate(Number(serial as real), Some(adjustForLeapYearBug));
            t.Ok? && JsDateToExcelDate(DateObject(t.value), Some(adjustForLeapYearBug))
                     == Ok(if adjustForLeapYearBug && serial == 60 then 59 else serial)
  {
    WholeSerialRoundTrip(serial, adjustForLeapYearBug);
  }

  /** EncodeDecodeWholeSerial on the converters' arithmetic. */
  lemma WholeSerialRoundTrip(serial: int, adjustForLeapYearBug: bool)
    ensures TimeToSerial(SerialToTime(serial as real, adjustForLeapYearBug), adjustForLeapYearBug)
         == if adjustForLeapYearBug && serial == 60 then 59 else serial
  {
    var day := ExcelEpochDay + serial - LeapShift(serial, adjustForLeapYearBug);
    DecodeWholeSerial(serial, adjustForLeapYearBug);
    EncodeMidnight(day * MsPerDay, day, adjustForLeapYearBug);
    LeapShiftUndone(serial, adjustForLeapYearBug);
  }

  /** The encoder's adjustment undoes the decoder's, but for serial 60, which the decoder sends to 59. */
  lemma LeapShiftUndone(serial: int, adjustForLeapYearBug: bool)
    ensures var day := ExcelEpochDay + serial - LeapShift(serial, adjustForLeapYearBug);
            day - ExcelEpochDay + LeapShift(day - ExcelEpochDay, adjustForLeapYearBug)
            == if adjustForLeapYearBug && serial == 60 then 59 else serial
  {
  }

  /**
    Encoding a date and decoding the serial gives the midnight nearest to it
    (the later one at noon), whatever the flag: the adjustment made by the
    encoder is the one the decoder takes back.
  */
  lemma DecodeEncodeNearestMidnight(t: int, adjustForLeapYearBug: bool)
    ensures var n := JsDateToExcelDate(DateObject(t), Some(adjustForLeapYearBug));
            var m := ExcelDateToJsDate(Number(n.value as real), Some(adjustForLeapYearBug));
            && m.Ok? && m.value % MsPerDay == 0
            && -MsPerDay <= 2 * (t - m.value) < MsPerDay
  {
    var flag := adjustForLeapYearBug;
    var n := JsDateToExcelDate(DateObject(t), Some(flag)).value;
    var days := (if flag && n > 60 then n - 1 else n) - 1;
    EncodeNearestDay(t, Some(flag));
    assert 2 * days * MsPerDay - MsPerDay <= 2 * (t - ExcelDayOne) < 2 * days * MsPerDay + MsPerDay;
    assert LeapShift(n, flag) == n - days - 1;
    DecodeWholeSerial(n, flag);
    var m := ExcelDateToJsDate(Number(n as real), Some(flag)).value;
    var day := ExcelEpochDay + n - LeapShift(n, flag);
    assert m == day * MsPerDay;
    assert day == ExcelEpochDay + 1 + days;
    MidnightWithinHalfDay(t, days, m);
  }

  /** The midnight `days` after Excel day 1 is within half a day of t when the bounds place t there. */
  lemma MidnightWithinHalfDay(t: int, days: int, m: int)
    requires 2 * days * MsPerDay - MsPerDay <= 2 * (t - ExcelDayOne) < 2 * days * MsPerDay + MsPerDay
    requires m == (ExcelEpochDay + 1 + days) * MsPerDay
    ensures m % MsPerDay == 0 && -MsPerDay <= 2 * (t - m) < MsPerDay
  {
    var k := ExcelEpochDay + 1 + days;
    assert m == k * 86400000;
    assert m / 86400000 == k;
  }

  /** A date at midnight UTC survives the round trip through its serial unchanged. */
  lemma DecodeEncodeMidnight(t: int, adjustForLeapYearBug: bool)
    requires t % MsPerDay == 0
    ensures var n := JsDateToExcelDate(DateObject(t), Some(adjustForLeapYearBug));
            n.Ok? && ExcelDateToJsDate(Number(n.value as real), Some(adjustForLeapYearBug)) == Ok(t)
  {
    var n := JsDateToExcelDate(DateObject(t), Some(adjustForLeapYearBug));
    var m := ExcelDateToJsDate(Number(n.value as real), Some(adjustForLeapYearBug));
    DecodeEncodeNearestMidnight(t, adjustForLeapYearBug);
    MidnightsHalfDayApart(t, m.value);
  }

  /** Two midnights less than half a day apart are the same. */
  lemma MidnightsHalfDayApart(t: int, m: int)
    requires t % MsPerDay == 0 && m % MsPerDay == 0
    requires -MsPerDay <= 2 * (t - m) < MsPerDay
    ensures t == m
  {
    var a, b := t / 86400000, m / 86400000;
    assert t == a * 86400000 && m == b * 86400000;
    assert -86400000 <= 2 * (a - b) * 86400000 < 86400000;
  }

  /** Later dates never get smaller serials. */
  lemma EncodeMonotone(t1: int, t2: int, adjustForLeapYearBug: bool)
    requires t1 <= t2
    ensures JsDateToExcelDate(DateObject(t1), Some(adjustForLeapYearBug)).value
         <= JsDateToExcelDate(DateObject(t2), Some(adjustForLeapYearBug)).value
  {
    var x1 := (t1 - ExcelDayOne) as real / 86400000.0;
    var x2 := (t2 - ExcelDayOne) as real / 86400000.0;
    assert x1 <= x2;
    assert MathRound(x1) <= MathRound(x2);
  }

  /**
    A fraction of a day added to a whole serial decodes to that many milliseconds
    after the whole serial's midnight: the time of day is kept exactly.
  */
  lemma DecodeFraction(excelDate: real, serial: int, ms: int, adjustForLeapYearBug: bool)
    requires 0 <= ms < MsPerDay
    requires excelDate == serial as real + ms as real / 86400000.0
    ensures ExcelDateToJsDate(Number(excelDate), Some(adjustForLeapYearBug))
         == Ok((ExcelEpochDay + serial - LeapShift(serial, adjustForLeapYearBug)) * MsPerDay + ms)
  {
    FractionalSerialToTime(excelDate, serial, ms, adjustForLeapYearBug);
  }

  /** DecodeFraction on the decoder's arithmetic. */
  lemma FractionalSerialToTime(excelDate: real, serial: int, ms: int, adjustForLeapYearBug: bool)
    requires 0 <= ms < MsPerDay
    requires excelDate == serial as real + ms as real / 86400000.0
    ensures SerialToTime(excelDate, adjustForLeapYearBug)
         == (ExcelEpochDay + serial - LeapShift(serial, adjustForLeapYearBug)) * MsPerDay + ms
  {
    DecodeExact(excelDate, adjustForLeapYearBug);
    ExactFractionalSerial(excelDate, serial, ms, adjustForLeapYearBug);
  }

  /** DecodeFraction in exact arithmetic, before the decoder is applied. */
  lemma ExactFractionalSerial(excelDate: real, serial: int, ms: int, adjustForLeapYearBug: bool)
    requires 0 <= ms < MsPerDay
    requires excelDate == serial as real + ms as real / 86400000.0
    ensures TimeClip((ExcelEpochDay as real + AdjustedSerial(excelDate, adjustForLeapYearBug)) * 86400000.0)
         == (ExcelEpochDay + serial - LeapShift(serial, adjustForLeapYearBug)) * MsPerDay + ms
  {
    AdjustedFractionalSerial(serial, ms, adjustForLeapYearBug);
    ExactTimeOfDay(ExcelEpochDay as real + AdjustedSerial(excelDate, adjustForLeapYearBug),
                   ExcelEpochDay + serial - LeapShift(serial, adjustForLeapYearBug), ms);
  }

  /** A fraction of a day below 1 does not move a whole serial across the threshold of 60. */
  lemma AdjustedFractionalSerial(serial: int, ms: int, adjustForLeapYearBug: bool)
    requires 0 <= ms < MsPerDay
    ensures ExcelEpochDay as real + AdjustedSerial(serial as real + ms as real / 86400000.0, adjustForLeapYearBug)
         == (ExcelEpochDay + serial - LeapShift(serial, adjustForLeapYearBug)) as real + ms as real / 86400000.0
  {
    var f := ms as real / 86400000.0;
    assert 0.0 <= f < 1.0;
  }

  /** ms milliseconds into a day, scaled exactly, is that many milliseconds after its midnight. */
  lemma ExactTimeOfDay(days: real, day: int, ms: int)
    requires days == day as real + ms as real / 86400000.0
    ensures TimeClip(days * 86400000.0) == day * MsPerDay + ms
  {
    var f := ms as real / 86400000.0;
    assert f * 86400000.0 == ms as real;
    var t := day * 86400000 + ms;
    assert days * 86400000.0 == t as real;
    TimeClipWhole(t);
  }


  /**
    A calendar date at midnight UTC goes to its serial and back to the same
    year, month and day, with the flag on or off.
  */
  lemma CivilDateRoundTrip(year: int, month: int, date: int, adjustForLeapYearBug: bool)
    requires 0 <= month < 12 && 1 <= date <= DaysInMonth(MakeFullYear(year), month)
    ensures var t := DateUtc(year, month, date, 0, 0, 0);
            var n := JsDateToExcelDate(DateObject(t), Some(adjustForLeapYearBug));
            var back := ExcelDateToJsDate(Number(n.value as real), Some(adjustForLeapYearBug));
            && back.Ok?
            && YearFromTime(back.value) == MakeFullYear(year)
            && MonthFromTime(back.value) == month
            && DateFromTime(back.value) == date
  {
    var t := DateUtc(year, month, date, 0, 0, 0);
    var day := MakeDay(MakeFullYear(year), month, date);
    assert t == day * 86400000;
    assert t % MsPerDay == 0;
    DecodeEncodeMidnight(t, adjustForLeapYearBug);
    UtcFieldsOfDateUtc(year, month, date, 0, 0, 0);
  }
}
