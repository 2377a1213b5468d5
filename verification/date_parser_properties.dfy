/**
  What the Gregorian date parser promises: the exact set of strings it
  accepts, the date it returns for each of the two forms, the round trip from
  a date to its GEDCOM spelling and back, and the dates the source's own
  examples expect.
*/
module DateParserProperties {
  import opened Wrappers
  import opened Calendar
  import opened DateText
  import opened DateParser

  /** `D MON YYYY` with well-formed fields. */
  ghost predicate IsFullDateText(s: string, cutoff: DayCutoff) {
    exists d, m, y :: s == Join([d, m, y]) && IsDayToken(d, cutoff) && m in MonthNames && IsYearToken(y)
  }

  /** `MON YYYY` with well-formed fields. */
  ghost predicate IsMonthYearText(s: string) {
    exists m, y :: s == Join([m, y]) && m in MonthNames && IsYearToken(y)
  }

  lemma DigitsHaveNoSpace(t: string)
    requires AllDigits(t)
    ensures ' ' !in t
  {
  }

  lemma MonthNamesHaveNoSpace(m: string)
    requires m in MonthNames
    ensures ' ' !in m
  {
  }

  /** A well-formed full date parses to its day counted from the first of its month. */
  lemma ParseFullDate(d: string, m: string, y: string, pref: ImpreciseDatePreference, cutoff: DayCutoff)
    requires IsDayToken(d, cutoff) && m in MonthNames && IsYearToken(y)
    ensures Parse(Join([d, m, y]), pref, cutoff)
         == Some(Roll(DigitsValue(y), MonthNumber(m).value, DigitsValue(d)))
  {
    DigitsHaveNoSpace(d);
    DigitsHaveNoSpace(y);
    MonthNamesHaveNoSpace(m);
    SplitJoin([d, m, y]);
  }

  /** A well-formed month and year parses to the preferred day of that month. */
  lemma ParseMonthYear(m: string, y: string, pref: ImpreciseDatePreference, cutoff: DayCutoff)
    requires m in MonthNames && IsYearToken(y)
    ensures Parse(Join([m, y]), pref, cutoff)
         == Some(Date(DigitsValue(y), MonthNumber(m).value,
                      PreferredDay(pref, DigitsValue(y), MonthNumber(m).value)))
  {
    DigitsHaveNoSpace(y);
    MonthNamesHaveNoSpace(m);
    SplitJoin([m, y]);
  }

  /** The parser accepts exactly the two forms of the grammar and nothing else. */
  lemma ParseAcceptsExactlyGrammar(s: string, pref: ImpreciseDatePreference, cutoff: DayCutoff)
    ensures Parse(s, pref, cutoff).Some? <==> IsFullDateText(s, cutoff) || IsMonthYearText(s)
  {
    var f := Split(s);
    JoinSplit(s);
    if Parse(s, pref, cutoff).Some? {
      if |f| == 3 && IsDayToken(f[0], cutoff) && f[1] in MonthNames && IsYearToken(f[2]) {
        assert f == [f[0], f[1], f[2]];
        assert s == Join([f[0], f[1], f[2]]);
      } else {
        assert f == [f[0], f[1]];
        assert s == Join([f[0], f[1]]);
      }
    }
    if IsFullDateText(s, cutoff) {
      var d, m, y :| s == Join([d, m, y]) && IsDayToken(d, cutoff) && m in MonthNames && IsYearToken(y);
      ParseFullDate(d, m, y, pref, cutoff);
    }
    if IsMonthYearText(s) {
      var m, y :| s == Join([m, y]) && m in MonthNames && IsYearToken(y);
      ParseMonthYear(m, y, pref, cutoff);
    }
  }

  /** The GEDCOM spelling `D MON YYYY` of a date with a 3- or 4-digit year. */
  function FormatFull(date: Date): (s: string)
    requires 1 <= date.month <= 12 && date.day >= 0 && date.year >= 0
  {
    Join([NatToDigits(date.day), MonthNames[date.month - 1], NatToDigits(date.year)])
  }

  /** The GEDCOM spelling `MON YYYY`. */
  function FormatMonthYear(y: nat, m: int): (s: string)
    requires 1 <= m <= 12
  {
    Join([MonthNames[m - 1], NatToDigits(y)])
  }

  /** Every existing date of years 100..9999 survives spelling and parsing unchanged. */
  lemma ParseFormatFull(date: Date, pref: ImpreciseDatePreference, cutoff: DayCutoff)
    requires ValidDate(date) && 100 <= date.year <= 9999
    ensures Parse(FormatFull(date), pref, cutoff) == Some(date)
  {
    var d := NatToDigits(date.day);
    var y := NatToDigits(date.year);
    DayTokenSpelled(date.day, cutoff);
    YearTokenSpelled(date.year);
    var m := MonthNames[date.month - 1];
    MonthNameRoundTrip(date.month);
    assert m in MonthNames;
    ParseFullDate(d, m, y, pref, cutoff);
    assert Roll(date.year, date.month, date.day) == date;
  }

  /** A day of a month is spelled as a day field that reads back as that day. */
  lemma DayTokenSpelled(d: nat, cutoff: DayCutoff)
    requires 1 <= d <= 31
    ensures IsDayToken(NatToDigits(d), cutoff) && DigitsValue(NatToDigits(d)) == d
  {
    DigitsRoundTrip(d);
    DigitsLength(d);
  }

  /** A year of 100..9999 is spelled as a year field that reads back as that year. */
  lemma YearTokenSpelled(y: nat)
    requires 100 <= y <= 9999
    ensures IsYearToken(NatToDigits(y)) && DigitsValue(NatToDigits(y)) == y
  {
    DigitsRoundTrip(y);
    DigitsLength(y);
  }

  /** A spelled-out month and year parses back to that month and year. */
  lemma ParseFormatMonthYear(y: nat, m: int, pref: ImpreciseDatePreference, cutoff: DayCutoff)
    requires 1 <= m <= 12 && 100 <= y <= 9999
    ensures Parse(FormatMonthYear(y, m), pref, cutoff) == Some(Date(y, m, PreferredDay(pref, y, m)))
  {
    YearTokenSpelled(y);
    MonthNameRoundTrip(m);
    ParseMonthYear(MonthNames[m - 1], NatToDigits(y), pref, cutoff);
  }
}
