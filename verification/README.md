# gedcom4j: Gregorian date parsing and header validation

This project models two parts of the gedcom4j GEDCOM library in Dafny and proves properties about them.

**Gregorian date parsing.** This is `DateParser.parse(String)` and `DateParser.parse(String, ImpreciseDatePreference)`.
- A single Gregorian GEDCOM date is either `D MON YYYY` or `MON YYYY`, following the DATE_GREG and MONTH productions of chapter 2 of the GEDCOM 5.5.1 standard.
- Parsing gives a year, a month and a day, or `None` (the library's `null`).
- For `MON YYYY` the day comes from the preference:
  - PRECISE and FAVOR_EARLIEST pick the first day;
  - FAVOR_LATEST picks the last day;
  - FAVOR_MIDPOINT picks half the month's length.
- A day past the end of its month carries into the next month, the way Java's lenient calendar does.
- Leap years follow the Gregorian rule.

**Header validation.** This is the header and submitter rules that the root validator runs from `validate()`, with automatic repair off.
- A document has:
  - an optional character set, whose name and custom-tag collection are each optional;
  - optional copyright data, where absent and empty are different states;
  - a map of submitters keyed by cross-reference;
  - the header's submitter reference.
- `validate()` throws away the previous findings and rebuilds them from the current document.
- Tests ask whether some finding has a given severity and a message containing every keyword. That query is modelled as `Findings.Has`.

The modules follow the library's structure:
- `Calendar`: leap years, month lengths, a day count, and rollover.
- `DateText`: digits, month names, and fields.
- `DateParser`, with properties in `DateParserProperties` and the library's own examples in `DateParserExamples`.
- `Findings`: severities, problems, messages, and the keyword query.
- `GedcomModel`: the object model.
- `Validator`, with properties in `ValidatorProperties` and examples in `ValidatorExamples`.

`SupportedEncodings` stands for the library's encoding catalogue. It is a parameter: any set of names that contains "ASCII" and the default "ANSEL" and leaves out "FRYINGPAN".

The largest day number the parser accepts is also a parameter, `DayCutoff`, between 31 and 40. The library is only known to accept every real day and to reject 41.

## Model

| member | source | states |
|---|---|---|
| Calendar.DaysInMonth | src/test/java/org/gedcom4j/parser/DateParserGregorianTest.java:94-100 | every month has between 28 and 31 days |
| Calendar.YearLength | src/test/java/org/gedcom4j/parser/DateParserGregorianTest.java:83-84 | a year has 366 days exactly when it is divisible by 4 and, if it is a century, by 400; the closed Gregorian day count agrees with the sum of the month lengths |
| Calendar.YearCountStep | src/test/java/org/gedcom4j/parser/DateParserGregorianTest.java:83-84 | gives `IsLeapYear` its meaning: the 400-year-cycle day count grows by 366 across year y exactly when `IsLeapYear(y)` holds, and by 365 otherwise |
| Calendar.Roll | src/test/java/org/gedcom4j/parser/DateParserGregorianTest.java:53-56 | a day number past the end of the month rolls into later months: the result is a date that exists, lies exactly d-1 days after the first of the month, and is the date itself when that date exists |
| Calendar.RollUnique | src/test/java/org/gedcom4j/parser/DateParserGregorianTest.java:55-56 | the rolled-over date is the only existing date at that distance from the first of the month |
| Calendar.OrdinalInjective | src/test/java/org/gedcom4j/parser/DateParserGregorianTest.java:143-151 | two existing dates with the same day number are the same year, month and day |
| Calendar.OrdinalBounds | src/test/java/org/gedcom4j/parser/DateParserGregorianTest.java:143-151 | an existing date's day number lies within its own year and its own month |
| DateText.DigitsRoundTrip | src/test/java/org/gedcom4j/parser/DateParserGregorianTest.java:51-52 | reading back the decimal spelling of a number gives the number |
| DateText.MonthNumber | src/test/java/org/gedcom4j/parser/DateParserGregorianTest.java:51-56 | a field names month m exactly when it is the m-th of JAN..DEC, and it names none when it is not a month name |
| DateText.MonthNameRoundTrip | src/test/java/org/gedcom4j/parser/DateParserGregorianTest.java:51-56 | the month named by the m-th month name is m |
| DateText.Split | src/test/java/org/gedcom4j/parser/DateParserGregorianTest.java:124-126 | splitting gives at least one field, and no field contains a space |
| DateText.JoinSplit | src/test/java/org/gedcom4j/parser/DateParserGregorianTest.java:124-126 | gluing the fields back with single spaces gives the original string |
| DateText.SplitJoin | src/test/java/org/gedcom4j/parser/DateParserGregorianTest.java:51-52 | fields without spaces, glued with single spaces, split back into the same fields |
| DateParser.PreferredDay | src/test/java/org/gedcom4j/parser/DateParserGregorianTest.java:63-115 | the chosen day exists. Under PRECISE or FAVOR_EARLIEST it has no day before it in the month. Under FAVOR_LATEST it has no day after it. Under FAVOR_MIDPOINT it is half the month's length, rounded down |
| DateParser.Parse | src/test/java/org/gedcom4j/parser/DateParserGregorianTest.java:143-151 | every successful parse is a date that exists: month 1..12 and a day within that month |
| DateParser.ParseDefault | src/test/java/org/gedcom4j/parser/DateParserGregorianTest.java:63-85 | the one-argument parse gives a date that exists and agrees on every input with FAVOR_EARLIEST |
| DateParserProperties.ParseFullDate | src/test/java/org/gedcom4j/parser/DateParserGregorianTest.java:49-56 | a well-formed `D MON YYYY` parses to that day counted from the first of that month, under every preference |
| DateParserProperties.ParseMonthYear | src/test/java/org/gedcom4j/parser/DateParserGregorianTest.java:63-115 | a well-formed `MON YYYY` parses to that month and year on the day the preference chooses |
| DateParserProperties.ParseAcceptsExactlyGrammar | src/test/java/org/gedcom4j/parser/DateParserGregorianTest.java:122-129 | the parser succeeds exactly on the strings that are a day, month and year field, or a month and year field, joined by single spaces |
| DateParserProperties.ParseFormatFull | src/test/java/org/gedcom4j/parser/DateParserGregorianTest.java:49-54 | every existing date with a three- or four-digit year, spelled as `D MON YYYY`, parses back to itself |
| DateParserProperties.ParseFormatMonthYear | src/test/java/org/gedcom4j/parser/DateParserGregorianTest.java:63-115 | every month of a three- or four-digit year, spelled as `MON YYYY`, parses back to that month and year |
| DateParserExamples.LeapYearExamples | src/test/java/org/gedcom4j/parser/DateParserGregorianTest.java:53-55 | 2016 and 2000 are leap years, while 1900 and 2015 are not |
| DateParserExamples.FullDateExamples | src/test/java/org/gedcom4j/parser/DateParserGregorianTest.java:49-54 | "17 JUL 2016", "1 JUL 932" and "29 FEB 2016" parse to exactly those dates |
| DateParserExamples.LeapDayRollsOverInCommonYear | src/test/java/org/gedcom4j/parser/DateParserGregorianTest.java:55-56 | "29 FEB 1900" parses to 1 March 1900 |
| DateParserExamples.MonthYearPreciseExamples | src/test/java/org/gedcom4j/parser/DateParserGregorianTest.java:63-70 | the one-argument parse gives day 1 for JUL 2016, JUL 932, FEB 2016 and FEB 1900 |
| DateParserExamples.MonthYearEarliestExamples | src/test/java/org/gedcom4j/parser/DateParserGregorianTest.java:77-85 | FAVOR_EARLIEST gives day 1 for the same four months |
| DateParserExamples.MonthYearLatestExamples | src/test/java/org/gedcom4j/parser/DateParserGregorianTest.java:92-100 | FAVOR_LATEST gives 31 for July, 29 for February 2016 and 28 for February 1900 |
| DateParserExamples.MonthYearMidpointExamples | src/test/java/org/gedcom4j/parser/DateParserGregorianTest.java:107-115 | FAVOR_MIDPOINT gives 15 for July and 14 for February in both 2016 and 1900 |
| DateParserExamples.UnsupportedFormats | src/test/java/org/gedcom4j/parser/DateParserGregorianTest.java:122-129 | slashes, hyphens, year-first order, day 41 and a two-digit year are each refused under every preference |
| Findings.Rank | test/org/gedcom4j/validate/HeaderValidatorTest.java:57 | ERROR is the highest severity and INFO the lowest |
| Findings.NoIssuesDefault | test/org/gedcom4j/validate/HeaderValidatorTest.java:61 | no finding at or above INFO means no finding at all |
| Findings.CountAppend | test/org/gedcom4j/validate/HeaderValidatorTest.java:56 | the findings of rules run one after another are counted by adding the counts of each rule |
| Findings.CountPositive | test/org/gedcom4j/validate/HeaderValidatorTest.java:57 | a problem is counted at least once exactly when some finding reports it |
| Findings.PhrasesContained | test/org/gedcom4j/validate/HeaderValidatorTest.java:65 | a message built from phrases contains every one of them |
| Findings.MessageKeywords | test/org/gedcom4j/validate/HeaderValidatorTest.java:57-112 | each problem's message contains the keywords the library's tests look for |
| ValidatorProperties.NewStringValid | test/org/gedcom4j/validate/HeaderValidatorTest.java:71-73 | a string with custom tags built from any value, as `new StringWithCustomTags(v)` builds it, passes the shared string rule |
| ValidatorProperties.NewCharacterSetValid | test/org/gedcom4j/validate/HeaderValidatorTest.java:59-61 | a new character set is valid under every encoding catalogue: its default name is supported and both custom-tag collections exist, so the character-set checks report nothing |
| ValidatorProperties.NewHeaderFindings | test/org/gedcom4j/validate/HeaderValidatorTest.java:106-112 | under a new header, the header rule reports only that no submitter is named, plus the missing submitter records when the document has none |
| ValidatorProperties.NewGedcomFindings | test/org/gedcom4j/validate/HeaderValidatorTest.java:106-112 | a new document gets exactly two findings: no submitter named in the header, and no submitter records |
| GedcomModel.Put | test/org/gedcom4j/validate/HeaderValidatorTest.java:117 | after a put, the map holds the submitter under its key; entries under other keys are kept, and keys stay unique |
| Validator.CustomTagsRule | test/org/gedcom4j/validate/HeaderValidatorTest.java:75-77 | a missing custom-tag collection gives exactly one finding, and a present one gives none |
| Validator.StringRule | test/org/gedcom4j/validate/HeaderValidatorTest.java:67-73 | the shared rule for a string with custom tags reports nothing exactly when its collection exists, and otherwise reports exactly one finding |
| Validator.CharacterSetRule | test/org/gedcom4j/validate/HeaderValidatorTest.java:54-77 | an absent character set yields exactly one finding. The rule reports nothing exactly when the set is present with tags and names a supported encoding whose own tags are present. Every finding is an ERROR about the character set |
| Validator.CopyrightRule | test/org/gedcom4j/validate/HeaderValidatorTest.java:93-101 | absent copyright data is reported, and present data, even empty, is not |
| Validator.SubmitterReferenceRule | test/org/gedcom4j/validate/HeaderValidatorTest.java:119-122 | the rule reports nothing exactly when the header names a submitter that the document holds, and otherwise reports once |
| Validator.SubmittersPresentRule | test/org/gedcom4j/validate/HeaderValidatorTest.java:110-112 | the rule reports nothing exactly when the document has at least one submitter |
| Validator.HeaderRule | test/org/gedcom4j/validate/HeaderValidatorTest.java:54-112 | the header rule unit reports nothing exactly when the character set is valid, copyright data exists, the header names a submitter the document holds, and there is at least one submitter; every finding is an ERROR |
| Validator.SubmitterRule | test/org/gedcom4j/validate/HeaderValidatorTest.java:116 | a submitter is reported exactly when it has a name whose custom-tag collection is missing |
| Validator.SubmittersRule | test/org/gedcom4j/validate/HeaderValidatorTest.java:116-117 | a submitter key is reported exactly when some submitter with that key is invalid, and nothing is reported when every submitter is valid |
| Validator.DocumentFindings | test/org/gedcom4j/validate/HeaderValidatorTest.java:56-122 | a run reports nothing exactly when the document is valid, and every finding is an ERROR |
| Validator.Validate | test/org/gedcom4j/validate/HeaderValidatorTest.java:56-61 | validate leaves the document unchanged, reports nothing exactly when the document is valid, and reports only ERRORs when repair is off |
| ValidatorProperties.CharacterSetCounts | test/org/gedcom4j/validate/HeaderValidatorTest.java:54-77 | gives the exact number of times each character-set problem is reported, for every shape of character set |
| ValidatorProperties.HeaderCounts | test/org/gedcom4j/validate/HeaderValidatorTest.java:54-112 | gives the exact number of times the header rule reports each problem |
| ValidatorProperties.DocumentCounts | test/org/gedcom4j/validate/HeaderValidatorTest.java:54-122 | gives the exact number of times a run reports each header problem, and says which submitter keys it reports |
| ValidatorExamples.ValidateForgetsEarlierFindings | test/org/gedcom4j/validate/HeaderValidatorTest.java:56-61 | two validators over the same document agree after validate(), whatever findings they held before |
| ValidatorExamples.ValidateIdempotent | test/org/gedcom4j/validate/HeaderValidatorTest.java:95-101 | validating twice is the same as validating once |
| ValidatorExamples.AbsentCharacterSetShortCircuits | test/org/gedcom4j/validate/HeaderValidatorTest.java:54-57 | with no character set, "not specified" is reported once and no check inside the character set runs |
| ValidatorExamples.ReportedHas | test/org/gedcom4j/validate/HeaderValidatorTest.java:57 | gives `Findings.Has`, the tests' severity-and-keywords query, its meaning: any reported problem whose message contains the keywords satisfies it |
| ValidatorExamples.ExampleDocumentValid | test/org/gedcom4j/validate/HeaderValidatorTest.java:44-52 | the tests' document, with submitter @SUBM0001@ named in the header, is valid |
| ValidatorExamples.CharacterSetNullReported | test/org/gedcom4j/validate/HeaderValidatorTest.java:54-57 | removing the character set gives an ERROR mentioning "character set" |
| ValidatorExamples.NewCharacterSetNoIssues | test/org/gedcom4j/validate/HeaderValidatorTest.java:59-61 | a new character set gives no findings, whatever the previous run reported |
| ValidatorExamples.CharacterSetNameNullReported | test/org/gedcom4j/validate/HeaderValidatorTest.java:63-65 | with no character-set name, an ERROR mentions "character set", "name", "not" and "defined" |
| ValidatorExamples.UnsupportedEncodingReported | test/org/gedcom4j/validate/HeaderValidatorTest.java:67-69 | the name "FRYINGPAN" gives an ERROR mentioning "character set", "not" and "supported" |
| ValidatorExamples.AsciiEncodingNoIssues | test/org/gedcom4j/validate/HeaderValidatorTest.java:71-73 | the ASCII name gives no findings |
| ValidatorExamples.CharacterSetTagsNullReported | test/org/gedcom4j/validate/HeaderValidatorTest.java:75-77 | a character set with no custom-tag collection gives an ERROR mentioning "custom tag" and "is null" |
| ValidatorExamples.CopyrightNullReported | test/org/gedcom4j/validate/HeaderValidatorTest.java:93-96 | absent copyright data gives an ERROR mentioning "copyright" |
| ValidatorExamples.EmptyCopyrightNoIssues | test/org/gedcom4j/validate/HeaderValidatorTest.java:98-101 | empty copyright data gives no findings |
| ValidatorExamples.NoSubmittersReported | test/org/gedcom4j/validate/HeaderValidatorTest.java:106-112 | a new document gives an ERROR mentioning "submitter" and "not specified" |
| ValidatorExamples.AddedSubmitterNoIssues | test/org/gedcom4j/validate/HeaderValidatorTest.java:114-122 | after adding submitter @SUBM0001@ and naming it in the header, there are no findings |

## Left out

- Dates are modelled as a year, month and day. The library returns a `java.util.Date` with the time of day cleared; that representation, its time zone and its time fields are not modelled.
- Calendar.IsLeapYear: uses the proleptic Gregorian rule for every year, and the calendar has no cutover. Java's default calendar uses the Julian rule before October 1582, so years such as 900 or 1500 are leap years there. It also skips 5 to 14 October 1582, so a lenient parse of "5 OCT 1582" gives 15 October there, while `Calendar.ValidDate` accepts that date and `Calendar.Roll` returns it unchanged. No example reaches that range with a rollover, a February or the skipped days.
- DateParser.IsDayToken: the largest accepted day number is a parameter between 31 and 40. The library is only known to reject 41.
- DateParser.Parse: only the two single-date Gregorian forms are modelled. Left out: year-only dates, dual years such as 1750/51, B.C. dates, calendar escapes such as @#DJULIAN@, ranges, periods, approximations, and interpreted dates. None of them has an example to pin down.
- DateParser.Parse: month names are matched in upper case only, and fields are separated by single spaces. Any case folding or whitespace trimming the library may do is not modelled.
- DateParser.IsYearToken: a year field made only of zeros, such as "000", is accepted and gives year 0 in the model. Java's calendar has no year 0: it reads such a date as 1 BC, or refuses it. The model does not follow either behaviour.
- DateParser.Parse: years are limited to three or four digits. That is the only year width the examples show accepted; two digits are refused.
- Automatic repair: every example turns it off, so the repaired values and the INFO findings it would produce are not modelled.
- Validator.SupportedEncodings: the encoding catalogue is a parameter. It is known to contain ASCII and the default ANSEL, and not FRYINGPAN.
- Findings.Message: the exact wording of the messages is not known. Each message is built from lower-case phrases that contain the keywords the examples look for.
- Validator.SubmitterRule: only the shared custom-tag check of a submitter's name is modelled. The submitter validator's other checks are not visible.
- Validator.DocumentFindings: only the header and submitter rules run. The validators for individuals, families, sources, notes and the other record types are not part of this model.
- The textual GEDCOM parser, file and character-set I/O, the writer, and the test harness with its assertion helpers are not part of this model.
- GedcomModel.Header: the header refers to its submitter by cross-reference string rather than by object, so a header submitter that differs from the map's entry under the same key cannot be expressed.
- Validator.CharacterSetRule: HeaderValidatorTest.java:75 sets the character set's own `customTags` to null. The model checks that collection, and it also checks the name's collection through the shared string rule.
