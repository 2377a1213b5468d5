/**
  The source's own Gregorian examples, stated for every admissible day
  cutoff: full dates (including 29 February of a leap and of a common
  century year), month-and-year dates under each preference, and the
  strings the parser must refuse.
*/
module DateParserExamples {
  import opened Wrappers
  import opened Calendar
  import opened DateText
  import opened DateParser
  import opened DateParserProperties

  /** 2016 is a leap year; 1900 is a century not divisible by 400, so it is not. */
  lemma LeapYearExamples()
    ensures IsLeapYear(2016) && !IsLeapYear(1900) && IsLeapYear(2000) && !IsLeapYear(2015)
  {
  }

  /** A full date whose fields spell day `dn`, month `m` and year `yn`. */
  lemma FullDateSpelled(ds: string, dn: nat, m: int, ys: string, yn: nat,
                        pref: ImpreciseDatePreference, cutoff: DayCutoff)
    requires 1 <= m <= 12 && 1 <= dn <= 31 && 100 <= yn <= 9999
    requires NatToDigits(dn) == ds && NatToDigits(yn) == ys
    ensures Parse(Join([ds, MonthNames[m - 1], ys]), pref, cutoff) == Some(Roll(yn, m, dn))
  {
    DigitsRoundTrip(dn);
    DigitsRoundTrip(yn);
    DigitsLength(dn);
    DigitsLength(yn);
    MonthNameRoundTrip(m);
    ParseFullDate(ds, MonthNames[m - 1], ys, pref, cutoff);
  }

  lemma Full17Jul2016(cutoff: DayCutoff)
    ensures ParseDefault("17 JUL 2016", cutoff) == Some(Date(2016, 7, 17))
  {
    assert MonthNames[6] == "JUL";
    assert Join(["17", "JUL", "2016"]) == "17 JUL 2016";
    FullDateSpelled("17", 17, 7, "2016", 2016, Precise, cutoff);
  }

  lemma Full1Jul932(cutoff: DayCutoff)
    ensures ParseDefault("1 JUL 932", cutoff) == Some(Date(932, 7, 1))
  {
    assert MonthNames[6] == "JUL";
    assert Join(["1", "JUL", "932"]) == "1 JUL 932";
    FullDateSpelled("1", 1, 7, "932", 932, Precise, cutoff);
  }

  lemma Full29Feb2016(cutoff: DayCutoff)
    ensures ParseDefault("29 FEB 2016", cutoff) == Some(Date(2016, 2, 29))
  {
    assert MonthNames[1] == "FEB";
    assert Join(["29", "FEB", "2016"]) == "29 FEB 2016";
    FullDateSpelled("29", 29, 2, "2016", 2016, Precise, cutoff);
  }

  /** Full dates: days of four- and three-digit years, and 29 February of the leap year 2016. */
  lemma FullDateExamples(cutoff: DayCutoff)
    ensures ParseDefault("17 JUL 2016", cutoff) == Some(Date(2016, 7, 17))
    ensures ParseDefault("1 JUL 932", cutoff) == Some(Date(932, 7, 1))
    ensures ParseDefault("29 FEB 2016", cutoff) == Some(Date(2016, 2, 29))
  {
    Full17Jul2016(cutoff);
    Full1Jul932(cutoff);
    Full29Feb2016(cutoff);
  }

  /** 29 February of the common year 1900 is carried over to 1 March rather than refused. */
  lemma LeapDayRollsOverInCommonYear(cutoff: DayCutoff)
    ensures ParseDefault("29 FEB 1900", cutoff) == Some(Date(1900, 3, 1))
  {
    assert MonthNames[1] == "FEB";
    assert Join(["29", "FEB", "1900"]) == "29 FEB 1900";
    FullDateSpelled("29", 29, 2, "1900", 1900, Precise, cutoff);
    assert DaysInMonth(1900, 2) == 28;
    assert Roll(1900, 2, 29) == Roll(1900, 3, 1);
  }

  lemma PreciseJul2016(cutoff: DayCutoff)
    ensures ParseDefault("JUL 2016", cutoff) == Some(Date(2016, 7, 1))
  {
    assert MonthNames[6] == "JUL";
    assert Join(["JUL", "2016"]) == "JUL 2016";
    assert DaysInMonth(2016, 7) == 31;
    assert NatToDigits(2016) == "2016";
    assert FormatMonthYear(2016, 7) == Join([MonthNames[6], "2016"]);
    ParseFormatMonthYear(2016, 7, Precise, cutoff);
  }

  lemma PreciseJul932(cutoff: DayCutoff)
    ensures ParseDefault("JUL 932", cutoff) == Some(Date(932, 7, 1))
  {
    assert MonthNames[6] == "JUL";
    assert Join(["JUL", "932"]) == "JUL 932";
    assert DaysInMonth(932, 7) == 31;
    assert NatToDigits(932) == "932";
    assert FormatMonthYear(932, 7) == Join([MonthNames[6], "932"]);
    ParseFormatMonthYear(932, 7, Precise, cutoff);
  }

  lemma PreciseFeb2016(cutoff: DayCutoff)
    ensures ParseDefault("FEB 2016", cutoff) == Some(Date(2016, 2, 1))
  {
    assert MonthNames[1] == "FEB";
    assert Join(["FEB", "2016"]) == "FEB 2016";
    assert DaysInMonth(2016, 2) == 29;
    assert NatToDigits(2016) == "2016";
    assert FormatMonthYear(2016, 2) == Join([MonthNames[1], "2016"]);
    ParseFormatMonthYear(2016, 2, Precise, cutoff);
  }

  lemma PreciseFeb1900(cutoff: DayCutoff)
    ensures ParseDefault("FEB 1900", cutoff) == Some(Date(1900, 2, 1))
  {
    assert MonthNames[1] == "FEB";
    assert Join(["FEB", "1900"]) == "FEB 1900";
    assert DaysInMonth(1900, 2) == 28;
    assert NatToDigits(1900) == "1900";
    assert FormatMonthYear(1900, 2) == Join([MonthNames[1], "1900"]);
    ParseFormatMonthYear(1900, 2, Precise, cutoff);
  }

  /** Without a preference a month stands for its first day. */
  lemma MonthYearPreciseExamples(cutoff: DayCutoff)
    ensures ParseDefault("JUL 2016", cutoff) == Some(Date(2016, 7, 1))
    ensures ParseDefault("JUL 932", cutoff) == Some(Date(932, 7, 1))
    ensures ParseDefault("FEB 2016", cutoff) == Some(Date(2016, 2, 1))
    ensures ParseDefault("FEB 1900", cutoff) == Some(Date(1900, 2, 1))
  {
    PreciseJul2016(cutoff);
    PreciseJul932(cutoff);
    PreciseFeb2016(cutoff);
    PreciseFeb1900(cutoff);
  }

  lemma FavorEarliestJul2016(cutoff: DayCutoff)
    ensures Parse("JUL 2016", FavorEarliest, cutoff) == Some(Date(2016, 7, 1))
  {
    assert MonthNames[6] == "JUL";
    assert Join(["JUL", "2016"]) == "JUL 2016";
    assert DaysInMonth(2016, 7) == 31;
    assert NatToDigits(2016) == "2016";
    assert FormatMonthYear(2016, 7) == Join([MonthNames[6], "2016"]);
    ParseFormatMonthYear(2016, 7, FavorEarliest, cutoff);
  }

  lemma FavorEarliestJul932(cutoff: DayCutoff)
    ensures Parse("JUL 932", FavorEarliest, cutoff) == Some(Date(932, 7, 1))
  {
    assert MonthNames[6] == "JUL";
    assert Join(["JUL", "932"]) == "JUL 932";
    assert DaysInMonth(932, 7) == 31;
    assert NatToDigits(932) == "932";
    assert FormatMonthYear(932, 7) == Join([MonthNames[6], "932"]);
    ParseFormatMonthYear(932, 7, FavorEarliest, cutoff);
  }

  lemma FavorEarliestFeb2016(cutoff: DayCutoff)
    ensures Parse("FEB 2016", FavorEarliest, cutoff) == Some(Date(2016, 2, 1))
  {
    assert MonthNames[1] == "FEB";
    assert Join(["FEB", "2016"]) == "FEB 2016";
    assert DaysInMonth(2016, 2) == 29;
    assert NatToDigits(2016) == "2016";
    assert FormatMonthYear(2016, 2) == Join([MonthNames[1], "2016"]);
    ParseFormatMonthYear(2016, 2, FavorEarliest, cutoff);
  }

  lemma FavorEarliestFeb1900(cutoff: DayCutoff)
    ensures Parse("FEB 1900", FavorEarliest, cutoff) == Some(Date(1900, 2, 1))
  {
    assert MonthNames[1] == "FEB";
    assert Join(["FEB", "1900"]) == "FEB 1900";
    assert DaysInMonth(1900, 2) == 28;
    assert NatToDigits(1900) == "1900";
    assert FormatMonthYear(1900, 2) == Join([MonthNames[1], "1900"]);
    ParseFormatMonthYear(1900, 2, FavorEarliest, cutoff);
  }

  /** Favouring the earliest day picks the first of the month. */
  lemma MonthYearEarliestExamples(cutoff: DayCutoff)
    ensures Parse("JUL 2016", FavorEarliest, cutoff) == Some(Date(2016, 7, 1))
    ensures Parse("JUL 932", FavorEarliest, cutoff) == Some(Date(932, 7, 1))
    ensures Parse("FEB 2016", FavorEarliest, cutoff) == Some(Date(2016, 2, 1))
    ensures Parse("FEB 1900", FavorEarliest, cutoff) == Some(Date(1900, 2, 1))
  {
    FavorEarliestJul2016(cutoff);
    FavorEarliestJul932(cutoff);
    FavorEarliestFeb2016(cutoff);
    FavorEarliestFeb1900(cutoff);
  }

  lemma FavorLatestJul2016(cutoff: DayCutoff)
    ensures Parse("JUL 2016", FavorLatest, cutoff) == Some(Date(2016, 7, 31))
  {
    assert MonthNames[6] == "JUL";
    assert Join(["JUL", "2016"]) == "JUL 2016";
    assert DaysInMonth(2016, 7) == 31;
    assert NatToDigits(2016) == "2016";
    assert FormatMonthYear(2016, 7) == Join([MonthNames[6], "2016"]);
    ParseFormatMonthYear(2016, 7, FavorLatest, cutoff);
  }

  lemma FavorLatestJul932(cutoff: DayCutoff)
    ensures Parse("JUL 932", FavorLatest, cutoff) == Some(Date(932, 7, 31))
  {
    assert MonthNames[6] == "JUL";
    assert Join(["JUL", "932"]) == "JUL 932";
    assert DaysInMonth(932, 7) == 31;
    assert NatToDigits(932) == "932";
    assert FormatMonthYear(932, 7) == Join([MonthNames[6], "932"]);
    ParseFormatMonthYear(932, 7, FavorLatest, cutoff);
  }

  lemma FavorLatestFeb2016(cutoff: DayCutoff)
    ensures Parse("FEB 2016", FavorLatest, cutoff) == Some(Date(2016, 2, 29))
  {
    assert MonthNames[1] == "FEB";
    assert Join(["FEB", "2016"]) == "FEB 2016";
    assert DaysInMonth(2016, 2) == 29;
    assert NatToDigits(2016) == "2016";
    assert FormatMonthYear(2016, 2) == Join([MonthNames[1], "2016"]);
    ParseFormatMonthYear(2016, 2, FavorLatest, cutoff);
  }

  lemma FavorLatestFeb1900(cutoff: DayCutoff)
    ensures Parse("FEB 1900", FavorLatest, cutoff) == Some(Date(1900, 2, 28))
  {
    assert MonthNames[1] == "FEB";
    assert Join(["FEB", "1900"]) == "FEB 1900";
    assert DaysInMonth(1900, 2) == 28;
    assert NatToDigits(1900) == "1900";
    assert FormatMonthYear(1900, 2) == Join([MonthNames[1], "1900"]);
    ParseFormatMonthYear(1900, 2, FavorLatest, cutoff);
  }

  /** Favouring the latest day picks the month's last day: 29 February only in a leap year. */
  lemma MonthYearLatestExamples(cutoff: DayCutoff)
    ensures Parse("JUL 2016", FavorLatest, cutoff) == Some(Date(2016, 7, 31))
    ensures Parse("JUL 932", FavorLatest, cutoff) == Some(Date(932, 7, 31))
    ensures Parse("FEB 2016", FavorLatest, cutoff) == Some(Date(2016, 2, 29))
    ensures Parse("FEB 1900", FavorLatest, cutoff) == Some(Date(1900, 2, 28))
  {
    FavorLatestJul2016(cutoff);
    FavorLatestJul932(cutoff);
    FavorLatestFeb2016(cutoff);
    FavorLatestFeb1900(cutoff);
  }

  lemma FavorMidpointJul2016(cutoff: DayCutoff)
    ensures Parse("JUL 2016", FavorMidpoint, cutoff) == Some(Date(2016, 7, 15))
  {
    assert MonthNames[6] == "JUL";
    assert Join(["JUL", "2016"]) == "JUL 2016";
    assert DaysInMonth(2016, 7) == 31;
    assert NatToDigits(2016) == "2016";
    assert FormatMonthYear(2016, 7) == Join([MonthNames[6], "2016"]);
    ParseFormatMonthYear(2016, 7, FavorMidpoint, cutoff);
  }

  lemma FavorMidpointJul932(cutoff: DayCutoff)
    ensures Parse("JUL 932", FavorMidpoint, cutoff) == Some(Date(932, 7, 15))
  {
    assert MonthNames[6] == "JUL";
    assert Join(["JUL", "932"]) == "JUL 932";
    assert DaysInMonth(932, 7) == 31;
    assert NatToDigits(932) == "932";
    assert FormatMonthYear(932, 7) == Join([MonthNames[6], "932"]);
    ParseFormatMonthYear(932, 7, FavorMidpoint, cutoff);
  }

  lemma FavorMidpointFeb2016(cutoff: DayCutoff)
    ensures Parse("FEB 2016", FavorMidpoint, cutoff) == Some(Date(2016, 2, 14))
  {
    assert MonthNames[1] == "FEB";
    assert Join(["FEB", "2016"]) == "FEB 2016";
    assert DaysInMonth(2016, 2) == 29;
    assert NatToDigits(2016) == "2016";
    assert FormatMonthYear(2016, 2) == Join([MonthNames[1], "2016"]);
    ParseFormatMonthYear(2016, 2, FavorMidpoint, cutoff);
  }

  lemma FavorMidpointFeb1900(cutoff: DayCutoff)
    ensures Parse("FEB 1900", FavorMidpoint, cutoff) == Some(Date(1900, 2, 14))
  {
    assert MonthNames[1] == "FEB";
    assert Join(["FEB", "1900"]) == "FEB 1900";
    assert DaysInMonth(1900, 2) == 28;
    assert NatToDigits(1900) == "1900";
    assert FormatMonthYear(1900, 2) == Join([MonthNames[1], "1900"]);
    ParseFormatMonthYear(1900, 2, FavorMidpoint, cutoff);
  }

  /** Favouring the midpoint picks half the month's length, rounded down. */
  lemma MonthYearMidpointExamples(cutoff: DayCutoff)
    ensures Parse("JUL 2016", FavorMidpoint, cutoff) == Some(Date(2016, 7, 15))
    ensures Parse("JUL 932", FavorMidpoint, cutoff) == Some(Date(932, 7, 15))
    ensures Parse("FEB 2016", FavorMidpoint, cutoff) == Some(Date(2016, 2, 14))
    ensures Parse("FEB 1900", FavorMidpoint, cutoff) == Some(Date(1900, 2, 14))
  {
    FavorMidpointJul2016(cutoff);
    FavorMidpointJul932(cutoff);
    FavorMidpointFeb2016(cutoff);
    FavorMidpointFeb1900(cutoff);
  }

  lemma RefusesSlashes(pref: ImpreciseDatePreference, cutoff: DayCutoff)
    ensures Parse("07/17/2016", pref, cutoff) == None
  {
    SplitSingle("07/17/2016");
  }

  lemma RefusesHyphens(pref: ImpreciseDatePreference, cutoff: DayCutoff)
    ensures Parse("2016-07-17", pref, cutoff) == None
  {
    SplitSingle("2016-07-17");
  }

  lemma RefusesYearFirst(pref: ImpreciseDatePreference, cutoff: DayCutoff)
    ensures Parse("2016 JUL 17", pref, cutoff) == None
  {
    assert Join(["2016", "JUL", "17"]) == "2016 JUL 17";
    SplitJoin(["2016", "JUL", "17"]);
  }

  lemma RefusesDay41(pref: ImpreciseDatePreference, cutoff: DayCutoff)
    ensures Parse("41 JUL 2016", pref, cutoff) == None
  {
    assert Join(["41", "JUL", "2016"]) == "41 JUL 2016";
    SplitJoin(["41", "JUL", "2016"]);
    assert NatToDigits(41) == "41";
    DigitsRoundTrip(41);
  }

  lemma RefusesTwoDigitYear(pref: ImpreciseDatePreference, cutoff: DayCutoff)
    ensures Parse("5 JUL 15", pref, cutoff) == None
  {
    assert Join(["5", "JUL", "15"]) == "5 JUL 15";
    SplitJoin(["5", "JUL", "15"]);
  }

  /** Strings outside the grammar give no date: slashes, hyphens, year first, a day of 41 and a two-digit year. */
  lemma UnsupportedFormats(pref: ImpreciseDatePreference, cutoff: DayCutoff)
    ensures Parse("07/17/2016", pref, cutoff) == None
    ensures Parse("2016-07-17", pref, cutoff) == None
    ensures Parse("2016 JUL 17", pref, cutoff) == None
    ensures Parse("41 JUL 2016", pref, cutoff) == None
    ensures Parse("5 JUL 15", pref, cutoff) == None
  {
    RefusesSlashes(pref, cutoff);
    RefusesHyphens(pref, cutoff);
    RefusesYearFirst(pref, cutoff);
    RefusesDay41(pref, cutoff);
    RefusesTwoDigitYear(pref, cutoff);
  }
}
