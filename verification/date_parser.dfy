/**
  Parsing of single Gregorian GEDCOM dates (`DateParser.parse`): the forms
  `D MON YYYY` and `MON YYYY` of the DATE_GREG production of GEDCOM 5.5.1.
  A month with no day is resolved to one day of that month according to an
  `ImpreciseDatePreference`; a day past the end of its month is carried into
  the next month, as a lenient calendar does. Input outside the grammar gives
  `None`, the source's `null`.
*/
module DateParser {
  import opened Wrappers
  import opened Calendar
  import opened DateText

  /** Which day stands for a date that names only a month. */
  datatype ImpreciseDatePreference = Precise | FavorEarliest | FavorLatest | FavorMidpoint

  /**
    The largest day number the grammar lets through. The source rejects 41
    and must accept 31; the exact cutoff between them is left open.
  */
  type DayCutoff = n: int | 31 <= n <= 40 witness 31

  /** A day field: one or two digits naming a day from 1 to the cutoff. */
  predicate IsDayToken(t: string, cutoff: DayCutoff) {
    1 <= |t| <= 2 && AllDigits(t) && 1 <= DigitsValue(t) <= cutoff
  }

  /** A year field: three or four digits; two-digit years are refused. */
  predicate IsYearToken(t: string) {
    3 <= |t| <= 4 && AllDigits(t)
  }

  /** The day chosen for `MON YYYY` under preference `pref`. */
  function PreferredDay(pref: ImpreciseDatePreference, y: int, m: int): (d: int)
    requires 1 <= m <= 12
    ensures ValidDate(Date(y, m, d))
    ensures pref == Precise || pref == FavorEarliest ==> !ValidDate(Date(y, m, d - 1))
    ensures pref == FavorLatest ==> !ValidDate(Date(y, m, d + 1))
    ensures pref == FavorMidpoint ==> 2 * d <= DaysInMonth(y, m) < 2 * d + 2
  {
    match pref
    case Precise => 1
    case FavorEarliest => 1
    case FavorLatest => DaysInMonth(y, m)
    case FavorMidpoint => DaysInMonth(y, m) / 2
  }

  /**
    `DateParser.parse(s, pref)` for a Gregorian date: `Some` of a date that
    exists, or `None` when `s` is not one of the two accepted forms.
  */
  function Parse(s: string, pref: ImpreciseDatePreference, cutoff: DayCutoff): (r: Option<Date>)
    ensures r.Some? ==> ValidDate(r.value)
  {
    var f := Split(s);
    if |f| == 3 && IsDayToken(f[0], cutoff) && f[1] in MonthNames && IsYearToken(f[2]) then
      Some(Roll(DigitsValue(f[2]), MonthNumber(f[1]).value, DigitsValue(f[0])))
    else if |f| == 2 && f[0] in MonthNames && IsYearToken(f[1]) then
      var y := DigitsValue(f[1]);
      var m := MonthNumber(f[0]).value;
      Some(Date(y, m, PreferredDay(pref, y, m)))
    else
      None
  }

  /**
    `DateParser.parse(s)`: the single-argument form uses the precise
    preference, which for every input agrees with favouring the earliest day.
  */
  function ParseDefault(s: string, cutoff: DayCutoff): (r: Option<Date>)
    ensures r.Some? ==> ValidDate(r.value)
    ensures r == Parse(s, FavorEarliest, cutoff)
  {
    Parse(s, Precise, cutoff)
  }
}
