# Excel date converter, modelled in Dafny

The repository converts between Excel serial dates and JavaScript `Date`s. It also formats a
`Date` with a small set of tokens. Everything is in `excel-date.js`:

- `excelDateToJsDate(excelDate, adjustForLeapYearBug = true)` turns a serial (days since Excel
  day 0, 1899-12-31) into a `Date`.
- `jsDateToExcelDate(jsDate, adjustForLeapYearBug = true)` turns a `Date` into the nearest
  whole serial.
- `formatDate(date, format = 'YYYY-MM-DD')` replaces the first `YYYY`, `MM`, `DD`, `HH`, `mm`
  and `ss` of the template by the date's fields.
- `EXCEL_LEAP_YEAR_BUG = 1` is the phantom 29 February 1900, which Excel counts as serial 60.
  `MILLISECONDS_PER_DAY` is the length of a day.

All three functions are pure, so the model is written as functions and lemmas in seven modules:

- `Wrappers`: `Option`, where `None` is an omitted argument, and `Result`, where `Err` is a
  thrown `TypeError`.
- `EcmaTime`: the date operations of section 21.4.1 of ECMA-262 that the code calls
  (`Date.UTC`, the field getters, TimeClip), over exact integers, in UTC.
- `JsStrings`: `String.prototype.indexOf`, `replace` with a string pattern, `Number::toString`
  for whole numbers, and `padStart`.
- `ExcelDateTemplates`: the six chained replacements of `formatDate`, and what they give for the
  template shapes the tests use, for any field texts and any separators.
- `ExcelDate`: the constants, the three functions, and the contracts that say what each result
  is, including `formatDate` for every Date and the template shapes above.
- `ExcelDateRoundTrip`: how the two converters relate. It covers whole and fractional serials,
  both round trips, the serial 60 exception, and monotonicity.
- `ExcelDateExamples`: the repository's test cases, each stated as a lemma.

A JavaScript argument is a `JsValue`: a finite exact `Number`, a string, a boolean, `null`,
`undefined`, or a `DateObject` holding its time value. A time value is a whole number of
milliseconds since 1970-01-01T00:00:00Z.

Three points of the code shape the model:

- The leap-year adjustment applies from serial 60 on (`>= 60`, `excel-date.js:26` and `:54`).
  So serial 60 decodes to 28 February 1900, like serial 59, and the encoder never returns 60
  while the flag is set.
- `jsDateToExcelDate` rounds with `Math.round` (`excel-date.js:51`), so its result is a whole
  number.
- The epoch arithmetic uses `Date.UTC` (`excel-date.js:31`, `:48`). `formatDate` reads local-time
  getters, which the model reads in UTC (see Left out).

## Model

| member | source | states |
|---|---|---|
| ExcelDate.ExcelEpochValue | excel-date.js:31 | Excel day 0, `Date.UTC(1899, 11, 31)`, is the midnight of day number -25568 and reads back as 31 December 1899 |
| ExcelDate.ExcelDayOneValue | excel-date.js:48 | `Date.UTC(1900, 0, 1)` is the next midnight, and reads back as 1 January 1900 |
| ExcelDate.MathRound | excel-date.js:51 | Math.round gives the whole number within half of x, and the larger one at a tie |
| ExcelDate.ExcelDateToJsDate | excel-date.js:20-34 | returns a time value if and only if the argument is a number; otherwise throws TypeError "Excel date must be a number" |
| ExcelDate.SerialToTime | excel-date.js:26-33 | the time value of the new Date is within one millisecond of Excel day 0 plus the adjusted serial times MILLISECONDS_PER_DAY |
| ExcelDate.DecodeWithinAMillisecond | excel-date.js:26-33 | with the flag defaulting to true, the decoded time is within one millisecond of Excel day 0 plus the adjusted serial times a day |
| ExcelDate.TimeClipWithinOne | excel-date.js:33 | building the Date moves the exact time by less than one millisecond |
| ExcelDate.JsDateToExcelDate | excel-date.js:42-59 | returns a serial if and only if the argument is a Date; otherwise throws TypeError "JavaScript date must be a Date object"; with the flag set the serial is never 60 |
| ExcelDate.EncodeNearestDay | excel-date.js:48-56 | once the skipped day is taken out, the serial minus 1 is the number of whole days from 1900-01-01 nearest to the date, with a half day rounding up |
| ExcelDate.TimeToSerial | excel-date.js:48-56 | the encoder's arithmetic on a time value: with the flag set it never gives 60 |
| ExcelDate.NearestDay | excel-date.js:51 | Math.round of milliseconds over MILLISECONDS_PER_DAY, stated in whole milliseconds |
| ExcelDate.TwoDigitsReadsBack | excel-date.js:82-86 | `n.toString().padStart(2, '0')` for 0..99 is two digits whose decimal value is n |
| ExcelDate.FormatDate | excel-date.js:67-87 | returns a string if and only if the argument is a Date; otherwise throws TypeError "Date must be a Date object"; with no template the result is year, two-digit month and two-digit day joined by hyphens |
| ExcelDate.DefaultFields | excel-date.js:67-86 | FormatFields, the template filled with a Date's field texts, gives for the default 'YYYY-MM-DD' the year, the padded month and the padded day joined by hyphens |
| ExcelDate.FillDefault | excel-date.js:67 | filling 'YYYY-MM-DD' with token-free year, month and day texts gives them joined by hyphens; the clock replacements find nothing |
| ExcelDate.TwoDigitsText | excel-date.js:82-86 | TwoDigits, `n.toString().padStart(2, '0')`, of a field from 0 to 99 is its tens digit followed by its units digit |
| ExcelDate.TwoDigitsTokenFree | excel-date.js:82-86 | a field from 0 to 99 written by TwoDigits holds no token letter |
| ExcelDate.FormatYearMonthDay | excel-date.js:67-87 | for every Date, formatDate with "YYYY" sep "MM" sep "DD" gives the year, the padded month and the padded day joined by sep |
| ExcelDate.FormatMonthDayYear | excel-date.js:67-87 | for every Date, formatDate with "MM" sep "DD" sep "YYYY" gives month, day and year in that order |
| ExcelDate.FormatDayMonthYearClock | excel-date.js:67-87 | for every Date, formatDate with "DD.MM.YYYY HH:mm:ss" gives every field, padded, in its place |
| ExcelDate.FormatRepeatedYear | excel-date.js:67-87 | for every Date, formatDate with "YYYY" sep "YYYY" fills only the first YYYY with the year and keeps the second as it is |
| ExcelDate.FieldsTokenFree | excel-date.js:72-86 | no field text of a Date holds a token letter |
| ExcelDateRoundTrip.TimeClipWhole | excel-date.js:33 | a whole time value is kept as it is |
| ExcelDateRoundTrip.ExactMidnight | excel-date.js:30-33 | a whole day number times a day gives that day's midnight |
| ExcelDateRoundTrip.AdjustedWholeSerial | excel-date.js:26-28 | AdjustedSerial, the `>= 60` adjustment, takes exactly LeapShift days off a whole serial: one day when the flag is set and the serial is at least 60, none otherwise |
| ExcelDateRoundTrip.DecodeWholeSerial | excel-date.js:20-34 | a whole serial decodes to the midnight that many days after Excel day 0, less the LeapShift day that AdjustedSerial skips |
| ExcelDateRoundTrip.EncodeMidnight | excel-date.js:42-59 | a midnight encodes to its whole days after Excel day 0, plus the skipped day from 60 on |
| ExcelDateRoundTrip.WholeDaysFromDayOne | excel-date.js:51 | from 1900-01-01 to a midnight is a whole number of days, and Math.round keeps it |
| ExcelDateRoundTrip.EncodeDecodeWholeSerial | excel-date.js:20-59 | decoding a whole serial and encoding the result gives the same serial back, except that serial 60 comes back as 59 when the flag is set |
| ExcelDateRoundTrip.WholeSerialRoundTrip | excel-date.js:25-56 | on the numbers alone, encoding the time a whole serial decodes to gives the serial back, except 60 with the flag set, which gives 59 |
| ExcelDateRoundTrip.LeapShiftUndone | excel-date.js:26-28 | the encoder's `>= 60` adjustment, LeapShift of the day count, undoes the decoder's AdjustedSerial for every whole serial except 60 |
| ExcelDateRoundTrip.DecodeEncodeNearestMidnight | excel-date.js:20-59 | encoding any date and decoding the serial gives a midnight less than half a day before or at most half a day after it, with the flag on or off |
| ExcelDateRoundTrip.MidnightWithinHalfDay | excel-date.js:51 | the nearest-day bounds place the date within half a day of the corresponding midnight |
| ExcelDateRoundTrip.DecodeEncodeMidnight | excel-date.js:20-59 | a date at midnight UTC survives encoding and decoding unchanged |
| ExcelDateRoundTrip.MidnightsHalfDayApart | excel-date.js:51 | two midnights less than half a day apart are equal |
| ExcelDateRoundTrip.EncodeMonotone | excel-date.js:42-59 | a later date never gets a smaller serial |
| ExcelDateRoundTrip.DecodeFraction | excel-date.js:20-34 | a whole serial plus ms/MILLISECONDS_PER_DAY decodes to exactly ms after that serial's midnight, so the time of day is kept |
| ExcelDateRoundTrip.FractionalSerialToTime | excel-date.js:25-33 | the decoder's arithmetic puts a whole serial plus ms/MILLISECONDS_PER_DAY exactly ms after that serial's midnight |
| ExcelDateRoundTrip.ExactFractionalSerial | excel-date.js:26-33 | DecodeFraction stated in exact arithmetic |
| ExcelDateRoundTrip.AdjustedFractionalSerial | excel-date.js:26-28 | a fraction of a day does not move a whole serial across the threshold of 60 |
| ExcelDateRoundTrip.ExactTimeOfDay | excel-date.js:30-33 | ms milliseconds into a day, scaled exactly, land ms after that day's midnight |
| ExcelDateRoundTrip.CivilDateRoundTrip | excel-date.js:20-59 | a calendar date at midnight UTC goes to its serial and back to the same year, month and day |
| ExcelDateTemplates.TokenFreeJoin | excel-date.js:80-86 | text built from token-free parts is token-free |
| ExcelDateTemplates.TokenFreeLacks | excel-date.js:80-86 | token-free text lacks each token's first letter |
| ExcelDateTemplates.FillYearMonthDay | excel-date.js:80-86 | FillTemplate, the six chained first-occurrence replacements, turns "YYYY" sep "MM" sep "DD" into year sep month sep day, for any token-free sep and field texts |
| ExcelDateTemplates.FillMonthDayYear | excel-date.js:80-86 | FillTemplate turns "MM" sep "DD" sep "YYYY" into month sep day sep year |
| ExcelDateTemplates.FillDayMonthYearClock | excel-date.js:80-86 | FillTemplate turns "DD.MM.YYYY HH:mm:ss", with any token-free separators, into every field in its place |
| ExcelDateTemplates.FillRepeatedYear | excel-date.js:80-81 | FillTemplate replaces only the first of two YYYY tokens: "YYYY" sep "YYYY" becomes year sep "YYYY" |
| JsStrings.IndexOfFrom | excel-date.js:80-86 | the first occurrence at or after `from`, or none at all |
| JsStrings.IndexOf | excel-date.js:80-86 | `indexOf` finds the first occurrence, or reports that there is none |
| JsStrings.ReplaceFirst | excel-date.js:80-86 | `replace` with a string pattern returns the text unchanged when the pattern does not occur; otherwise only its first occurrence is replaced |
| JsStrings.FirstOccurrenceUnique | excel-date.js:80-86 | a string has at most one first occurrence of a pattern |
| JsStrings.OccursAfterPrefix | excel-date.js:80-86 | past a prefix, the occurrences in p + x are those in x, shifted by the prefix length |
| JsStrings.LacksJoin | excel-date.js:80-86 | text built from parts that lack a letter lacks that letter |
| JsStrings.NoOccurrenceInPrefix | excel-date.js:80-86 | no occurrence of a pattern starts in a prefix that lacks the pattern's first character |
| JsStrings.ReplaceFirstSkipsPrefix | excel-date.js:80-86 | replace leaves alone a prefix that lacks the pattern's first character |
| JsStrings.ReplaceAfterPrefix | excel-date.js:80-86 | when the first occurrence lies past the prefix, replace acts on what follows the prefix only |
| JsStrings.ReplaceAtStart | excel-date.js:81 | a pattern at the start of the string is replaced there |
| JsStrings.ReplaceAtFirstOccurrence | excel-date.js:80-86 | replace splices the replacement in at the first occurrence |
| JsStrings.SpliceAfterPrefix | excel-date.js:80-86 | splicing past a prefix keeps the prefix |
| JsStrings.ReplaceAfter | excel-date.js:80-86 | a pattern that follows text lacking its first character is the one replaced |
| JsStrings.ReplaceAbsent | excel-date.js:80-86 | text lacking the pattern's first character is returned unchanged |
| JsStrings.NoOccurrenceAfterPrefix | excel-date.js:80-86 | a pattern found in neither part is not found in the join |
| JsStrings.FirstOccurrenceAfterPrefix | excel-date.js:80-86 | the first occurrence in x, shifted, is the first occurrence in p + x |
| JsStrings.DigitChar | excel-date.js:81-86 | the character of a decimal digit is a digit with that value |
| JsStrings.NatToString | excel-date.js:81-86 | Number::toString of a natural number is its digits, with no leading zero, and reads back as the number |
| JsStrings.IntToString | excel-date.js:81-86 | Number::toString of a whole number is its digits, with a minus sign first when it is negative, and reads back as its magnitude |
| JsStrings.FourDigitString | excel-date.js:81 | Number::toString of a number from 1000 to 9999 is its four decimal digits |
| JsStrings.PadStart | excel-date.js:82-86 | `padStart(2, '0')` puts fill characters in front until the text is that long, and keeps the text as its tail |
| EcmaTime.Day | excel-date.js:72-77 | Day(t) is the day whose midnight-to-midnight span contains t |
| EcmaTime.TimeWithinDay | excel-date.js:75-77 | the milliseconds into the day, between 0 and a day, which added to Day(t)'s midnight give t |
| EcmaTime.DaysInYear | excel-date.js:72-74 | a year has 366 days if and only if it is divisible by 4 and either not by 100 or by 400, and 365 days otherwise |
| EcmaTime.DayFromYearStep | excel-date.js:72 | DayFromYear: consecutive years start exactly DaysInYear apart, that is 365 plus LeapDays |
| EcmaTime.DayFromYearMonotone | excel-date.js:72 | later years start on later days |
| EcmaTime.YearFromDay | excel-date.js:72 | the year computed from 400-, 100-, 4- and 1-year blocks holds the day |
| EcmaTime.YearFromDayUnique | excel-date.js:72 | only one year holds a given day |
| EcmaTime.YearFromTimeIsLargest | excel-date.js:72 | YearFromTime is the largest year whose first millisecond, TimeFromYear, is not after t, as ECMA-262 defines it |
| EcmaTime.YearFromTime | excel-date.js:72 | getFullYear gives the year whose span, from TimeFromYear of it to TimeFromYear of the next, holds t |
| EcmaTime.MonthFromTime | excel-date.js:73 | getMonth is a month from 0 to 11 |
| EcmaTime.DateFromTime | excel-date.js:74 | getDate is from 1 to the number of days in the month of t |
| EcmaTime.DayWithinYear | excel-date.js:72-74 | the day's place in its year is below that year's length |
| EcmaTime.MonthStart | excel-date.js:73 | the month-start table ends at the length of the year |
| EcmaTime.DaysInMonth | excel-date.js:73-74 | every month has 28 to 31 days |
| EcmaTime.MonthFromDay | excel-date.js:73 | getMonth's cascade picks the month whose span contains the day |
| EcmaTime.DateFromDay | excel-date.js:74 | getDate is the day's place in its month, plus 1, within the month's length |
| EcmaTime.HourFromTime | excel-date.js:75 | the hour is 0 to 23, the whole hours of the time within the day |
| EcmaTime.MinFromTime | excel-date.js:76 | the minute is 0 to 59, the whole minutes left after the hours of the time within the day |
| EcmaTime.SecFromTime | excel-date.js:77 | the second is 0 to 59, the whole seconds left after the minutes of the time within the day |
| EcmaTime.MinuteWithinDay | excel-date.js:76 | the minute count of t modulo 60 is the minute of t's time within the day |
| EcmaTime.SecondWithinDay | excel-date.js:77 | the second count of t modulo 60 is the second of t's time within the day |
| EcmaTime.MakeTime | excel-date.js:31 | clock fields within their ranges give a time within one day |
| EcmaTime.MakeDayIsFirstOfMonthPlusDate | excel-date.js:31 | MakeDay meets ECMA-262's definition: the first day of the carried year and month, plus date - 1 |
| EcmaTime.FirstOfMonth | excel-date.js:31 | the first day of a month reads back as that year, that month and date 1 |
| EcmaTime.DayOfCivilDate | excel-date.js:31 | the day number of a valid calendar date reads back as that date |
| EcmaTime.DayWithinCivilYear | excel-date.js:31 | the day number of a valid calendar date falls in its year, at the month's start plus date - 1 |
| EcmaTime.MonthFromDayIs | excel-date.js:73 | getMonth gives the month whose span holds the day's place in its year |
| EcmaTime.MonthHoldingDay | excel-date.js:73 | only one month's span holds a given day of the year |
| EcmaTime.DayFromFields | excel-date.js:72-74 | a day number is the first day of its year, plus its month's start, plus its date - 1 |
| EcmaTime.MonthStartMonotone | excel-date.js:73 | months start in increasing order |
| EcmaTime.MakeDayOfCivilFields | excel-date.js:72-74 | every day is the MakeDay of its own year, month and date |
| EcmaTime.CivilFieldsOfMakeDay | excel-date.js:31 | MakeDay of a valid calendar date gives a day whose year, month and date are that date |
| EcmaTime.MakeDate | excel-date.js:31 | a day and a time within a day give the time value whose Day is that day and whose time within the day is that time |
| EcmaTime.UtcFieldsOfDateUtc | excel-date.js:31 | DateUtc, `Date.UTC`, of a valid calendar date and clock reads back every field through the getters, the year as MakeFullYear gives it: 1900 to 1999 for 0 to 99, as given otherwise |
| EcmaTime.ClockOfMakeDate | excel-date.js:75-77 | the day and the clock fields of a time built from a day and a time of day are those parts |
| EcmaTime.TimeClip | excel-date.js:33 | `new Date(x)` truncates a finite time toward zero, to within one millisecond |
| ExcelDateExamples.DecodeFlagDefaultsOn | excel-date.js:20 | an omitted flag decodes as true |
| ExcelDateExamples.EncodeFlagDefaultsOn | excel-date.js:42 | an omitted flag encodes as true |
| ExcelDateExamples.DecodesTo | excel-date.test.js:15-20 | a whole serial decodes to the calendar date whose day number matches it |
| ExcelDateExamples.FieldsOfMidnight | excel-date.test.js:8-12 | midnight of a calendar date's day number reads back as that date |
| ExcelDateExamples.EncodesTo | excel-date.test.js:56-60 | midnight of a calendar date encodes to the matching serial |
| ExcelDateExamples.DecodeSerial1 | excel-date.test.js:8 | serial 1 is 1 January 1900 |
| ExcelDateExamples.DecodeSerial59 | excel-date.test.js:9 | serial 59 is 28 February 1900 |
| ExcelDateExamples.DecodeSerial60 | excel-date.js:26-28 | serial 60, the phantom 29 February, is read as 28 February 1900 |
| ExcelDateExamples.DecodeSerial61 | excel-date.test.js:10 | serial 61 is 1 March 1900 |
| ExcelDateExamples.DecodeSerial43831 | excel-date.test.js:11 | serial 43831 is 1 January 2020 |
| ExcelDateExamples.DecodeSerial44562 | excel-date.test.js:12 | serial 44562 is 1 January 2022 |
| ExcelDateExamples.EncodeJan1st1900 | excel-date.test.js:49 | 1 January 1900 is serial 1 |
| ExcelDateExamples.EncodeFeb28th1900 | excel-date.test.js:50 | 28 February 1900 is serial 59 |
| ExcelDateExamples.EncodeMar1st1900 | excel-date.test.js:51 | 1 March 1900 is serial 61 |
| ExcelDateExamples.EncodeJan1st2020 | excel-date.test.js:52 | 1 January 2020 is serial 43831 |
| ExcelDateExamples.EncodeDec31st2021 | excel-date.test.js:53 | 31 December 2021 is serial 44561 |
| ExcelDateExamples.JanuaryFifteenth | excel-date.test.js:74 | the getters of 15 January 2022 at any clock time read back its fields |
| ExcelDateExamples.FieldTexts | excel-date.test.js:80 | the field texts of 15 January 2022, 13:45:30 are "2022", "01", "15", "13", "45" and "30" |
| ExcelDateExamples.FormatYearFirst | excel-date.test.js:82 | "YYYY/MM/DD" gives "2022/01/15", and likewise with any other token-free separator |
| ExcelDateExamples.FormatMonthFirst | excel-date.test.js:83 | "MM/DD/YYYY" gives "01/15/2022", and likewise with any other token-free separator |
| ExcelDateExamples.FormatDayFirstWithClock | excel-date.test.js:84 | "DD.MM.YYYY HH:mm:ss" gives "15.01.2022 13:45:30", and likewise with any other token-free separators |
| ExcelDateExamples.FormatDefault | excel-date.test.js:74-76 | with no template, a Date on 15 January 2022 gives "2022-01-15" |
| ExcelDateExamples.FormatDefaultAs | excel-date.js:67 | with no template, formatDate gives the default year-month-day text |
| ExcelDateExamples.DefaultTexts | excel-date.test.js:76 | the default text for 15 January 2022 is "2022-01-15" |
| ExcelDateExamples.RejectsWrongKinds | excel-date.test.js:38-42 | a string, null or undefined passed where a number or a Date is expected gives the three TypeErrors, and so does 123 passed where a Date is expected |

## Left out

- ExcelDate.FormatDate: `formatDate` reads the date in local time with getFullYear, getMonth,
  getDate, getHours, getMinutes and getSeconds. The model reads it in UTC, because the host
  time zone is outside the program.
- The tests build their `Date`s with `new Date(y, m, d)`, which is local time. Here they are built
  with `Date.UTC`, so they match the UTC getters above.
- ExcelDate.ExcelDateToJsDate: serials and time values are exact numbers. The model does not
  capture:
  - IEEE-754 rounding of `excelDate * MILLISECONDS_PER_DAY` and of the division in the encoder;
  - NaN and the infinities;
  - the ±8.64e15 ms range of TimeClip, and the Invalid Date it produces.
- ExcelDate.JsDateToExcelDate: an Invalid Date (time value NaN) is not representable. On one,
  the source returns NaN.
- The model does not capture JavaScript truthiness of a non-boolean flag. The flag is a boolean
  or omitted.
- ExcelDate.FormatDate: the template is a string or omitted, so a non-string template is not
  modelled. `$` patterns in the replacement text are left out, because field texts never hold a
  `$`.
- JsStrings.IntToString: covers whole numbers only. Exponent notation for magnitudes of 1e21 and
  above is left out; a year from a valid Date never reaches it.
- ExcelDate.FormatYearMonthDay, FormatMonthDayYear and FormatDayMonthYearClock are stated
  for separators that hold none of the letters Y, M, D, H, m and s. Other separators can form or
  hide tokens.
- ExcelDateExamples.EncodeJan1st1900, EncodeFeb28th1900, EncodeMar1st1900, EncodeJan1st2020,
  EncodeDec31st2021, FormatYearFirst, FormatMonthFirst and FormatDayFirstWithClock: each test date
  is given by the values of its getters, not as one literal time value.
- `index.js` (a re-export), `eslint.config.js` and `jest.config.js` are not part of this model.
  They hold no logic.
