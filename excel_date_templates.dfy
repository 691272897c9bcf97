/**
  The template filling of formatDate: six first-occurrence replacements, and
  what they give for the template shapes the repository's tests use, for any
  field texts and any separator text that holds none of the letters a token
  starts with.
*/
module ExcelDateTemplates {
  import opened JsStrings

  /** c is a letter a token starts with: Y, M, D, H, m or s. */
  predicate TokenLetter(c: char)
  {
    c == 'Y' || c == 'M' || c == 'D' || c == 'H' || c == 'm' || c == 's'
  }

  /** s holds none of the letters a token starts with. */
  predicate TokenFree(s: string)
  {
    forall i :: 0 <= i < |s| ==> !TokenLetter(s[i])
  }

  lemma TokenFreeJoin(a: string, b: string)
    requires TokenFree(a) && TokenFree(b)
    ensures TokenFree(a + b)
  {
    forall i | 0 <= i < |a + b|
      ensures !TokenLetter((a + b)[i])
    {
      if i >= |a| {
        assert (a + b)[i] == b[i - |a|];
      }
    }
  }

  lemma TokenFreeLacks(s: string, c: char)
    requires TokenFree(s) && TokenLetter(c)
    ensures Lacks(s, c)
  {
  }

  /**
    The chain of replacements of formatDate: the first YYYY, then the first MM,
    DD, HH, mm and ss of what is left, each by the text of its field.
  */
  function FillTemplate(format: string, year: string, month: string, day: string,
                        hours: string, minutes: string, seconds: string): string
  {
    var s1 := ReplaceFirst(format, "YYYY", year);
    var s2 := ReplaceFirst(s1, "MM", month);
    var s3 := ReplaceFirst(s2, "DD", day);
    var s4 := ReplaceFirst(s3, "HH", hours);
    var s5 := ReplaceFirst(s4, "mm", minutes);
    ReplaceFirst(s5, "ss", seconds)
  }

  /** FillTemplate as its six replacements, one after the other. */
  lemma FillSteps(format: string, y: string, m: string, d: string, hh: string, mi: string, ss: string,
                  s1: string, s2: string, s3: string, s4: string, s5: string, s6: string)
    requires ReplaceFirst(format, "YYYY", y) == s1 && ReplaceFirst(s1, "MM", m) == s2
    requires ReplaceFirst(s2, "DD", d) == s3 && ReplaceFirst(s3, "HH", hh) == s4
    requires ReplaceFirst(s4, "mm", mi) == s5 && ReplaceFirst(s5, "ss", ss) == s6
    ensures FillTemplate(format, y, m, d, hh, mi, ss) == s6
  {
  }

  // ------------------------------------------------- "YYYY/MM/DD" and kin

  /** "YYYY/MM/DD", with any separator: year, month and day in that order. */
  lemma FillYearMonthDay(sep: string, y: string, m: string, d: string, hh: string, mi: string, ss: string)
    requires TokenFree(sep) && TokenFree(y) && TokenFree(m) && TokenFree(d)
    ensures FillTemplate("YYYY" + sep + "MM" + sep + "DD", y, m, d, hh, mi, ss) == y + sep + m + sep + d
  {
    YmdYear(sep, y);
    YmdMonth(sep, y, m);
    YmdDay(sep, y, m, d);
    var s3 := y + sep + m + sep + d;
    TokenFreeJoin(y, sep);
    TokenFreeJoin(y + sep, m);
    TokenFreeJoin(y + sep + m, sep);
    TokenFreeJoin(y + sep + m + sep, d);
    TokenFreeLacks(s3, 'H');
    ReplaceAbsent(s3, "HH", hh);
    TokenFreeLacks(s3, 'm');
    ReplaceAbsent(s3, "mm", mi);
    TokenFreeLacks(s3, 's');
    ReplaceAbsent(s3, "ss", ss);
    FillSteps("YYYY" + sep + "MM" + sep + "DD", y, m, d, hh, mi, ss,
              y + sep + "MM" + sep + "DD", y + sep + m + sep + "DD", s3, s3, s3, s3);
  }

  lemma YmdYear(sep: string, y: string)
    ensures ReplaceFirst("YYYY" + sep + "MM" + sep + "DD", "YYYY", y) == y + sep + "MM" + sep + "DD"
  {
    var rest := sep + "MM" + sep + "DD";
    assert "YYYY" + sep + "MM" + sep + "DD" == [] + "YYYY" + rest;
    assert y + sep + "MM" + sep + "DD" == [] + y + rest;
    ReplaceAfter([], "YYYY", rest, y);
  }

  lemma YmdMonth(sep: string, y: string, m: string)
    requires TokenFree(sep) && TokenFree(y)
    ensures ReplaceFirst(y + sep + "MM" + sep + "DD", "MM", m) == y + sep + m + sep + "DD"
  {
    TokenFreeJoin(y, sep);
    TokenFreeLacks(y + sep, 'M');
    var rest := sep + "DD";
    assert y + sep + "MM" + sep + "DD" == (y + sep) + "MM" + rest;
    assert y + sep + m + sep + "DD" == (y + sep) + m + rest;
    ReplaceAfter(y + sep, "MM", rest, m);
  }

  lemma YmdDay(sep: string, y: string, m: string, d: string)
    requires TokenFree(sep) && TokenFree(y) && TokenFree(m)
    ensures ReplaceFirst(y + sep + m + sep + "DD", "DD", d) == y + sep + m + sep + d
  {
    TokenFreeJoin(y, sep);
    TokenFreeJoin(y + sep, m);
    TokenFreeJoin(y + sep + m, sep);
    var p := y + sep + m + sep;
    TokenFreeLacks(p, 'D');
    assert p + "DD" == p + "DD" + [];
    assert p + d == p + d + [];
    ReplaceAfter(p, "DD", [], d);
  }

  // ------------------------------------------------- a repeated token

  /**
    "YYYY" sep "YYYY": replace finds only the first YYYY, so the second stays
    in the result as it was.
  */
  lemma FillRepeatedYear(sep: string, y: string, m: string, d: string, hh: string, mi: string, ss: string)
    requires TokenFree(sep) && TokenFree(y)
    ensures FillTemplate("YYYY" + sep + "YYYY", y, m, d, hh, mi, ss) == y + sep + "YYYY"
  {
    var s1 := y + sep + "YYYY";
    assert "YYYY" + sep + "YYYY" == [] + "YYYY" + (sep + "YYYY");
    assert s1 == [] + y + (sep + "YYYY");
    ReplaceAfter([], "YYYY", sep + "YYYY", y);
    TokenFreeJoin(y, sep);
    YearTokenLacks(y + sep, 'M');
    ReplaceAbsent(s1, "MM", m);
    YearTokenLacks(y + sep, 'D');
    ReplaceAbsent(s1, "DD", d);
    YearTokenLacks(y + sep, 'H');
    ReplaceAbsent(s1, "HH", hh);
    YearTokenLacks(y + sep, 'm');
    ReplaceAbsent(s1, "mm", mi);
    YearTokenLacks(y + sep, 's');
    ReplaceAbsent(s1, "ss", ss);
    FillSteps("YYYY" + sep + "YYYY", y, m, d, hh, mi, ss, s1, s1, s1, s1, s1, s1);
  }

  /** Token-free text followed by "YYYY" lacks every token letter but Y. */
  lemma YearTokenLacks(p: string, c: char)
    requires TokenFree(p) && TokenLetter(c) && c != 'Y'
    ensures Lacks(p + "YYYY", c)
  {
    TokenFreeLacks(p, c);
    LacksJoin(p, "YYYY", c);
  }

  // ------------------------------------------------- "MM/DD/YYYY" and kin

  /** "MM/DD/YYYY", with any separator: month, day and year in that order. */
  lemma FillMonthDayYear(sep: string, y: string, m: string, d: string, hh: string, mi: string, ss: string)
    requires TokenFree(sep) && TokenFree(y) && TokenFree(m) && TokenFree(d)
    ensures FillTemplate("MM" + sep + "DD" + sep + "YYYY", y, m, d, hh, mi, ss) == m + sep + d + sep + y
  {
    MdyYear(sep, y);
    MdyMonth(sep, y, m);
    MdyDay(sep, y, m, d);
    var s3 := m + sep + d + sep + y;
    TokenFreeJoin(m, sep);
    TokenFreeJoin(m + sep, d);
    TokenFreeJoin(m + sep + d, sep);
    TokenFreeJoin(m + sep + d + sep, y);
    TokenFreeLacks(s3, 'H');
    ReplaceAbsent(s3, "HH", hh);
    TokenFreeLacks(s3, 'm');
    ReplaceAbsent(s3, "mm", mi);
    TokenFreeLacks(s3, 's');
    ReplaceAbsent(s3, "ss", ss);
    FillSteps("MM" + sep + "DD" + sep + "YYYY", y, m, d, hh, mi, ss,
              "MM" + sep + "DD" + sep + y, m + sep + "DD" + sep + y, s3, s3, s3, s3);
  }

  lemma MdyYear(sep: string, y: string)
    requires TokenFree(sep)
    ensures ReplaceFirst("MM" + sep + "DD" + sep + "YYYY", "YYYY", y) == "MM" + sep + "DD" + sep + y
  {
    var p := "MM" + sep + "DD" + sep;
    TokenFreeLacks(sep, 'Y');
    LacksJoin("MM", sep, 'Y');
    LacksJoin("MM" + sep, "DD", 'Y');
    LacksJoin("MM" + sep + "DD", sep, 'Y');
    assert p + "YYYY" == p + "YYYY" + [];
    assert p + y == p + y + [];
    ReplaceAfter(p, "YYYY", [], y);
  }

  lemma MdyMonth(sep: string, y: string, m: string)
    ensures ReplaceFirst("MM" + sep + "DD" + sep + y, "MM", m) == m + sep + "DD" + sep + y
  {
    var rest := sep + "DD" + sep + y;
    assert "MM" + sep + "DD" + sep + y == [] + "MM" + rest;
    assert m + sep + "DD" + sep + y == [] + m + rest;
    ReplaceAfter([], "MM", rest, m);
  }

  lemma MdyDay(sep: string, y: string, m: string, d: string)
    requires TokenFree(sep) && TokenFree(m)
    ensures ReplaceFirst(m + sep + "DD" + sep + y, "DD", d) == m + sep + d + sep + y
  {
    TokenFreeJoin(m, sep);
    TokenFreeLacks(m + sep, 'D');
    var rest := sep + y;
    assert m + sep + "DD" + sep + y == (m + sep) + "DD" + rest;
    assert m + sep + d + sep + y == (m + sep) + d + rest;
    ReplaceAfter(m + sep, "DD", rest, d);
  }

  // ------------------------------------------ "DD.MM.YYYY HH:mm:ss" and kin

  /**
    "DD.MM.YYYY HH:mm:ss", with any date separator, gap and clock separator:
    every field in its place.
  */
  lemma FillDayMonthYearClock(ds: string, gap: string, ts: string,
                              y: string, m: string, d: string, hh: string, mi: string, ss: string)
    requires TokenFree(ds) && TokenFree(gap) && TokenFree(ts)
    requires TokenFree(y) && TokenFree(m) && TokenFree(d) && TokenFree(hh) && TokenFree(mi)
    ensures FillTemplate("DD" + ds + "MM" + ds + "YYYY" + gap + "HH" + ts + "mm" + ts + "ss", y, m, d, hh, mi, ss)
         == d + ds + m + ds + y + gap + hh + ts + mi + ts + ss
  {
    DmyYear(ds, gap, ts, y);
    DmyMonth(ds, gap, ts, y, m);
    DmyDay(ds, gap, ts, y, m, d);
    DmyHours(ds, gap, ts, y, m, d, hh);
    DmyMinutes(ds, gap, ts, y, m, d, hh, mi);
    DmySeconds(ds, gap, ts, y, m, d, hh, mi, ss);
    FillSteps("DD" + ds + "MM" + ds + "YYYY" + gap + "HH" + ts + "mm" + ts + "ss", y, m, d, hh, mi, ss,
              "DD" + ds + "MM" + ds + y + gap + "HH" + ts + "mm" + ts + "ss",
              "DD" + ds + m + ds + y + gap + "HH" + ts + "mm" + ts + "ss",
              d + ds + m + ds + y + gap + "HH" + ts + "mm" + ts + "ss",
              d + ds + m + ds + y + gap + hh + ts + "mm" + ts + "ss",
              d + ds + m + ds + y + gap + hh + ts + mi + ts + "ss",
              d + ds + m + ds + y + gap + hh + ts + mi + ts + ss);
  }

  lemma DmyYear(ds: string, gap: string, ts: string, y: string)
    requires TokenFree(ds)
    ensures ReplaceFirst("DD" + ds + "MM" + ds + "YYYY" + gap + "HH" + ts + "mm" + ts + "ss", "YYYY", y)
         == "DD" + ds + "MM" + ds + y + gap + "HH" + ts + "mm" + ts + "ss"
  {
    var p := "DD" + ds + "MM" + ds;
    var rest := gap + "HH" + ts + "mm" + ts + "ss";
    TokenFreeLacks(ds, 'Y');
    LacksJoin("DD", ds, 'Y');
    LacksJoin("DD" + ds, "MM", 'Y');
    LacksJoin("DD" + ds + "MM", ds, 'Y');
    assert "DD" + ds + "MM" + ds + "YYYY" + gap + "HH" + ts + "mm" + ts + "ss" == p + "YYYY" + rest;
    assert "DD" + ds + "MM" + ds + y + gap + "HH" + ts + "mm" + ts + "ss" == p + y + rest;
    ReplaceAfter(p, "YYYY", rest, y);
  }

  lemma DmyMonth(ds: string, gap: string, ts: string, y: string, m: string)
    requires TokenFree(ds)
    ensures ReplaceFirst("DD" + ds + "MM" + ds + y + gap + "HH" + ts + "mm" + ts + "ss", "MM", m)
         == "DD" + ds + m + ds + y + gap + "HH" + ts + "mm" + ts + "ss"
  {
    var p := "DD" + ds;
    var rest := ds + y + gap + "HH" + ts + "mm" + ts + "ss";
    TokenFreeLacks(ds, 'M');
    LacksJoin("DD", ds, 'M');
    assert "DD" + ds + "MM" + ds + y + gap + "HH" + ts + "mm" + ts + "ss" == p + "MM" + rest;
    assert "DD" + ds + m + ds + y + gap + "HH" + ts + "mm" + ts + "ss" == p + m + rest;
    ReplaceAfter(p, "MM", rest, m);
  }

  lemma DmyDay(ds: string, gap: string, ts: string, y: string, m: string, d: string)
    ensures ReplaceFirst("DD" + ds + m + ds + y + gap + "HH" + ts + "mm" + ts + "ss", "DD", d)
         == d + ds + m + ds + y + gap + "HH" + ts + "mm" + ts + "ss"
  {
    var rest := ds + m + ds + y + gap + "HH" + ts + "mm" + ts + "ss";
    assert "DD" + ds + m + ds + y + gap + "HH" + ts + "mm" + ts + "ss" == [] + "DD" + rest;
    assert d + ds + m + ds + y + gap + "HH" + ts + "mm" + ts + "ss" == [] + d + rest;
    ReplaceAfter([], "DD", rest, d);
  }

  lemma DmyHours(ds: string, gap: string, ts: string, y: string, m: string, d: string, hh: string)
    requires TokenFree(ds) && TokenFree(gap) && TokenFree(y) && TokenFree(m) && TokenFree(d)
    ensures ReplaceFirst(d + ds + m + ds + y + gap + "HH" + ts + "mm" + ts + "ss", "HH", hh)
         == d + ds + m + ds + y + gap + hh + ts + "mm" + ts + "ss"
  {
    var p := d + ds + m + ds + y + gap;
    var rest := ts + "mm" + ts + "ss";
    TokenFreeJoin(d, ds);
    TokenFreeJoin(d + ds, m);
    TokenFreeJoin(d + ds + m, ds);
    TokenFreeJoin(d + ds + m + ds, y);
    TokenFreeJoin(d + ds + m + ds + y, gap);
    TokenFreeLacks(p, 'H');
    assert d + ds + m + ds + y + gap + "HH" + ts + "mm" + ts + "ss" == p + "HH" + rest;
    assert d + ds + m + ds + y + gap + hh + ts + "mm" + ts + "ss" == p + hh + rest;
    ReplaceAfter(p, "HH", rest, hh);
  }

  lemma DmyMinutes(ds: string, gap: string, ts: string, y: string, m: string, d: string, hh: string, mi: string)
    requires TokenFree(ds) && TokenFree(gap) && TokenFree(ts)
    requires TokenFree(y) && TokenFree(m) && TokenFree(d) && TokenFree(hh)
    ensures ReplaceFirst(d + ds + m + ds + y + gap + hh + ts + "mm" + ts + "ss", "mm", mi)
         == d + ds + m + ds + y + gap + hh + ts + mi + ts + "ss"
  {
    var p := d + ds + m + ds + y + gap + hh + ts;
    var rest := ts + "ss";
    TokenFreeJoin(d, ds);
    TokenFreeJoin(d + ds, m);
    TokenFreeJoin(d + ds + m, ds);
    TokenFreeJoin(d + ds + m + ds, y);
    TokenFreeJoin(d + ds + m + ds + y, gap);
    TokenFreeJoin(d + ds + m + ds + y + gap, hh);
    TokenFreeJoin(d + ds + m + ds + y + gap + hh, ts);
    TokenFreeLacks(p, 'm');
    assert d + ds + m + ds + y + gap + hh + ts + "mm" + ts + "ss" == p + "mm" + rest;
    assert d + ds + m + ds + y + gap + hh + ts + mi + ts + "ss" == p + mi + rest;
    ReplaceAfter(p, "mm", rest, mi);
  }

  lemma DmySeconds(ds: string, gap: string, ts: string,
                   y: string, m: string, d: string, hh: string, mi: string, ss: string)
    requires TokenFree(ds) && TokenFree(gap) && TokenFree(ts)
    requires TokenFree(y) && TokenFree(m) && TokenFree(d) && TokenFree(hh) && TokenFree(mi)
    ensures ReplaceFirst(d + ds + m + ds + y + gap + hh + ts + mi + ts + "ss", "ss", ss)
         == d + ds + m + ds + y + gap + hh + ts + mi + ts + ss
  {
    var p := d + ds + m + ds + y + gap + hh + ts + mi + ts;
    TokenFreeJoin(d, ds);
    TokenFreeJoin(d + ds, m);
    TokenFreeJoin(d + ds + m, ds);
    TokenFreeJoin(d + ds + m + ds, y);
    TokenFreeJoin(d + ds + m + ds + y, gap);
    TokenFreeJoin(d + ds + m + ds + y + gap, hh);
    TokenFreeJoin(d + ds + m + ds + y + gap + hh, ts);
    TokenFreeJoin(d + ds + m + ds + y + gap + hh + ts, mi);
    TokenFreeJoin(d + ds + m + ds + y + gap + hh + ts + mi, ts);
    TokenFreeLacks(p, 's');
    assert p + "ss" == p + "ss" + [];
    assert p + ss == p + ss + [];
    ReplaceAfter(p, "ss", [], ss);
  }
}
