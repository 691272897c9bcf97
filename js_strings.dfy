/**
  The JavaScript string operations formatDate is built from: String.prototype.indexOf
  and String.prototype.replace with a string pattern, Number::toString on whole
  numbers, and String.prototype.padStart.
*/
module JsStrings {
  import opened Wrappers

  /** pat occurs in s starting at index i. */
  predicate OccursAt(s: string, pat: string, i: int)
  {
    0 <= i && i + |pat| <= |s| && s[i..i + |pat|] == pat
  }

  /** i is where pat first occurs in s. */
  predicate FirstOccurrence(s: string, pat: string, i: int)
  {
    OccursAt(s, pat, i) && forall j :: 0 <= j < i ==> !OccursAt(s, pat, j)
  }

  /** StringIndexOf(s, pat, from): the first occurrence of pat at or after from. */
  function IndexOfFrom(s: string, pat: string, from: nat): (r: Option<nat>)
    requires from <= |s|
    ensures r.Some? ==> from <= r.value && OccursAt(s, pat, r.value)
    ensures r.Some? ==> forall j :: from <= j < r.value ==> !OccursAt(s, pat, j)
    ensures r.None? ==> forall j :: from <= j ==> !OccursAt(s, pat, j)
    decreases |s| - from
  {
    if from + |pat| > |s| then None
    else if s[from..from + |pat|] == pat then Some(from)
    else IndexOfFrom(s, pat, from + 1)
  }

  /** s.indexOf(pat), with None for -1. */
  function IndexOf(s: string, pat: string): (r: Option<nat>)
    ensures r.Some? ==> FirstOccurrence(s, pat, r.value)
    ensures r.None? ==> forall j :: !OccursAt(s, pat, j)
  {
    IndexOfFrom(s, pat, 0)
  }

  /**
    s.replace(pat, rep) for a string pattern: the first occurrence of pat is
    replaced by rep, and s is returned unchanged when pat does not occur.
  */
  function ReplaceFirst(s: string, pat: string, rep: string): (r: string)
    ensures (forall j :: !OccursAt(s, pat, j)) ==> r == s
    ensures forall i :: FirstOccurrence(s, pat, i) ==> r == s[..i] + rep + s[i + |pat|..]
  {
    match IndexOf(s, pat)
    case None => s
    case Some(i) =>
      FirstOccurrenceUnique(s, pat, i);
      s[..i] + rep + s[i + |pat|..]
  }

  /** A string has at most one first occurrence of a pattern. */
  lemma FirstOccurrenceUnique(s: string, pat: string, i: int)
    requires FirstOccurrence(s, pat, i)
    ensures forall k :: FirstOccurrence(s, pat, k) ==> k == i
  {
  }

  /** Past a prefix, occurrences in p + x are the occurrences in x, shifted by |p|. */
  lemma OccursAfterPrefix(p: string, x: string, pat: string, j: int)
    requires j >= |p|
    ensures OccursAt(p + x, pat, j) <==> OccursAt(x, pat, j - |p|)
  {
    if j + |pat| <= |p + x| {
      assert (p + x)[j..j + |pat|] == x[j - |p|..j - |p| + |pat|];
    }
  }

  /** s holds no c. */
  predicate Lacks(s: string, c: char)
  {
    forall i :: 0 <= i < |s| ==> s[i] != c
  }

  /** Text built from two parts that lack c lacks c. */
  lemma LacksJoin(a: string, b: string, c: char)
    requires Lacks(a, c) && Lacks(b, c)
    ensures Lacks(a + b, c)
  {
    forall i | 0 <= i < |a + b|
      ensures (a + b)[i] != c
    {
      if i >= |a| {
        assert (a + b)[i] == b[i - |a|];
      }
    }
  }

  /** No occurrence of pat starts inside a prefix that holds no character starting pat. */
  lemma NoOccurrenceInPrefix(p: string, x: string, pat: string)
    requires |pat| > 0 && Lacks(p, pat[0])
    ensures forall j :: 0 <= j < |p| ==> !OccursAt(p + x, pat, j)
  {
    forall j | 0 <= j < |p|
      ensures !OccursAt(p + x, pat, j)
    {
      assert (p + x)[j] == p[j];
    }
  }

  /**
    A prefix holding no character that starts pat is left alone by replace:
    the first occurrence, if any, lies in what follows it.
  */
  lemma ReplaceFirstSkipsPrefix(p: string, x: string, pat: string, rep: string)
    requires |pat| > 0 && Lacks(p, pat[0])
    ensures ReplaceFirst(p + x, pat, rep) == p + ReplaceFirst(x, pat, rep)
  {
    NoOccurrenceInPrefix(p, x, pat);
    match IndexOf(x, pat)
    case None =>
      NoOccurrenceAfterPrefix(p, x, pat);
    case Some(i) =>
      ReplaceAfterPrefix(p, x, pat, rep, i);
  }

  /** When pat first occurs in x at i and not in p, replace in p + x acts on x alone. */
  lemma ReplaceAfterPrefix(p: string, x: string, pat: string, rep: string, i: int)
    requires forall j :: 0 <= j < |p| ==> !OccursAt(p + x, pat, j)
    requires FirstOccurrence(x, pat, i)
    ensures ReplaceFirst(p + x, pat, rep) == p + ReplaceFirst(x, pat, rep)
  {
    assert ReplaceFirst(p + x, pat, rep) == Splice(p + x, |p| + i, |pat|, rep) by {
      FirstOccurrenceAfterPrefix(p, x, pat, i);
      ReplaceAtFirstOccurrence(p + x, pat, rep, |p| + i);
    }
    assert ReplaceFirst(x, pat, rep) == Splice(x, i, |pat|, rep) by {
      ReplaceAtFirstOccurrence(x, pat, rep, i);
    }
    SpliceAfterPrefix(p, x, |pat|, rep, i);
  }

  /** A string that starts with pat has that occurrence replaced. */
  lemma ReplaceAtStart(pat: string, rest: string, rep: string)
    ensures ReplaceFirst(pat + rest, pat, rep) == rep + rest
  {
    var s := pat + rest;
    assert OccursAt(s, pat, 0) by {
      assert s[0..|pat|] == pat;
    }
    ReplaceAtFirstOccurrence(s, pat, rep, 0);
    assert Splice(s, 0, |pat|, rep) == rep + rest by {
      assert s[..0] == [];
      assert s[|pat|..] == rest;
    }
  }

  /** s with its n characters from index i replaced by rep. */
  function Splice(s: string, i: nat, n: nat, rep: string): string
    requires i + n <= |s|
  {
    s[..i] + rep + s[i + n..]
  }

  /** Replace puts rep where the first occurrence was. */
  lemma ReplaceAtFirstOccurrence(s: string, pat: string, rep: string, i: nat)
    requires FirstOccurrence(s, pat, i)
    ensures ReplaceFirst(s, pat, rep) == Splice(s, i, |pat|, rep)
  {
  }

  /** Splicing past a prefix keeps the prefix. */
  lemma SpliceAfterPrefix(p: string, x: string, n: nat, rep: string, i: nat)
    requires i + n <= |x|
    ensures Splice(p + x, |p| + i, n, rep) == p + Splice(x, i, n, rep)
  {
    var s := p + x;
    assert s[..|p| + i] == p + x[..i];
    assert s[|p| + i + n..] == x[i + n..];
  }

  /** Replace acts on pat where it follows a text holding no character that starts pat. */
  lemma ReplaceAfter(p: string, pat: string, rest: string, rep: string)
    requires |pat| > 0 && Lacks(p, pat[0])
    ensures ReplaceFirst(p + pat + rest, pat, rep) == p + rep + rest
  {
    assert p + pat + rest == p + (pat + rest);
    ReplaceFirstSkipsPrefix(p, pat + rest, pat, rep);
    ReplaceAtStart(pat, rest, rep);
    assert p + (rep + rest) == p + rep + rest;
  }

  /** A string holding no character that starts pat is returned unchanged by replace. */
  lemma ReplaceAbsent(s: string, pat: string, rep: string)
    requires |pat| > 0 && Lacks(s, pat[0])
    ensures ReplaceFirst(s, pat, rep) == s
  {
    assert s == s + [];
    ReplaceFirstSkipsPrefix(s, [], pat, rep);
    assert ReplaceFirst([], pat, rep) == [];
  }

  /** When pat occurs neither in p nor in x, it does not occur in p + x. */
  lemma NoOccurrenceAfterPrefix(p: string, x: string, pat: string)
    requires forall j :: 0 <= j < |p| ==> !OccursAt(p + x, pat, j)
    requires forall j :: !OccursAt(x, pat, j)
    ensures forall j :: !OccursAt(p + x, pat, j)
  {
    forall j | j >= |p|
      ensures !OccursAt(p + x, pat, j)
    {
      OccursAfterPrefix(p, x, pat, j);
    }
  }

  /** When pat does not occur in p, the first occurrence in x is the first in p + x, shifted. */
  lemma FirstOccurrenceAfterPrefix(p: string, x: string, pat: string, i: int)
    requires forall j :: 0 <= j < |p| ==> !OccursAt(p + x, pat, j)
    requires FirstOccurrence(x, pat, i)
    ensures FirstOccurrence(p + x, pat, |p| + i)
  {
    forall j | |p| <= j < |p| + i
      ensures !OccursAt(p + x, pat, j)
    {
      OccursAfterPrefix(p, x, pat, j);
    }
    OccursAfterPrefix(p, x, pat, |p| + i);
  }

  // --------------------------------------------------------------- numbers

  predicate IsDigit(c: char)
  {
    '0' <= c <= '9'
  }

  /** The character of a decimal digit. */
  function DigitChar(n: int): (c: char)
    requires 0 <= n < 10
    ensures IsDigit(c) && c as int - '0' as int == n
  {
    ('0' as int + n) as char
  }

  /** The number a string of decimal digits denotes (leading zeros allowed). */
  function DecimalValue(s: string): nat
    requires forall i :: 0 <= i < |s| ==> IsDigit(s[i])
  {
    if s == [] then 0
    else
      assert IsDigit(s[|s| - 1]);
      10 * DecimalValue(s[..|s| - 1]) + (s[|s| - 1] as int - '0' as int)
  }

  /**
    Number::toString of a non-negative whole number: its decimal digits, with no
    leading zero, and DecimalValue reads them back.
  */
  function NatToString(n: nat): (s: string)
    ensures 1 <= |s| && forall i :: 0 <= i < |s| ==> IsDigit(s[i])
    ensures |s| > 1 ==> s[0] != '0'
    ensures DecimalValue(s) == n
  {
    if n < 10 then [DigitChar(n)]
    else
      var prefix := NatToString(n / 10);
      var s := prefix + [DigitChar(n % 10)];
      assert s[..|s| - 1] == prefix;
      s
  }

  /**
    Number::toString of a whole number: the digits of its magnitude, after a
    minus sign when it is negative; every character is a digit or that sign.
  */
  function IntToString(n: int): (s: string)
    ensures forall i :: 0 <= i < |s| ==> IsDigit(s[i]) || s[i] == '-'
    ensures n >= 0 ==> (forall i :: 0 <= i < |s| ==> IsDigit(s[i])) && DecimalValue(s) == n
    ensures n < 0 ==> 2 <= |s| && s[0] == '-' && (forall i :: 1 <= i < |s| ==> IsDigit(s[i]))
                      && DecimalValue(s[1..]) == -n
  {
    if n < 0 then "-" + NatToString(-n) else NatToString(n)
  }

  /** Number::toString of a four-digit number is its four digits, thousands first. */
  lemma FourDigitString(n: int)
    requires 1000 <= n < 10000
    ensures IntToString(n) == [DigitChar(n / 1000), DigitChar(n / 100 % 10), DigitChar(n / 10 % 10), DigitChar(n % 10)]
  {
    var thousands, hundreds, tens := n / 1000, n / 100, n / 10;
    assert hundreds / 10 == thousands && tens / 10 == hundreds;
    assert NatToString(thousands) == [DigitChar(thousands)];
    assert NatToString(hundreds) == NatToString(thousands) + [DigitChar(hundreds % 10)];
    assert NatToString(tens) == NatToString(hundreds) + [DigitChar(tens % 10)];
    assert NatToString(n) == NatToString(tens) + [DigitChar(n % 10)];
  }

  /**
    s.padStart(maxLength, fill) for a one-character fill string: fill characters
    are added in front of s until it is maxLength long.
  */
  function PadStart(s: string, maxLength: nat, fill: char): (r: string)
    ensures |r| == if |s| >= maxLength then |s| else maxLength
    ensures forall i :: 0 <= i < |s| ==> r[|r| - |s| + i] == s[i]
    ensures forall i :: 0 <= i < |r| - |s| ==> r[i] == fill
  {
    if |s| >= maxLength then s else seq(maxLength - |s|, _ => fill) + s
  }
}
