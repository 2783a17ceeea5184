# Verification of the vandelay importers

A Dafny model of the parts of vandelay that decide what is imported and how servers are talked to, with proofs of the
properties those parts are for. `dafny verify dfyconfig.toml` checks everything.

Four groups of code are modelled.

* **Recurrences.** The expander of Microsoft Graph recurrences (`Expand`) is proved against a definition of a series day
  by day (`Series`): periods, which days of a period a pattern hits, which periods are visited, and where a count ends
  the series. `SeriesLaws`, `WeeklyCounts` and `Ranks` say what that definition means for each kind of pattern, and
  `WrittenPatterns` what the words and numbers of a recurrence mean, by the names of days (`DayNames`, `RankWords`).
  `Translate` proves when a Graph pattern survives being stored as a JSCalendar rule and read back (`RangeEnds`: what
  becomes of its end), and `EwsRecurrence` and `EwsRules` when the converter for Exchange Web Services makes rules of
  the same meaning; `EwsWords` and `EwsRuleMeaning` say what words and rules mean. Dates are a year, a month and a day,
  and a day number (`Calendar`); `DateText`, `DateReading` and `ClockTexts` hold the notations.
* **Calendar arithmetic and overrides.** `Durations` and `AllDaySpan` take the two day counts of the program apart.
  `OverridePatch` proves that the difference between an occurrence and its series gives the occurrence back when it is
  applied. JSON objects are maps.
* **Parsers and printers.** IMAP sequence-sets, strings and tags (`UidSets`, `Commands`, `LiteralSearch`),
  percent-encoded hrefs over UTF-8 (`Hrefs`, `Utf8`, `Scalars`), DNS names and SRV responses (`DnsNames`,
  `DnsRoundTrip`, `CompressedNames`, `SrvResponses`), the filter for forbidden control characters in a byte stream
  (`ControlStripping`), and the capture of Exchange items as XML text (`XmlText`, `XmlCapture`, `XmlRoundTrip`,
  `XmlMessages`, `ReplyNames`). Each printed form has a reader written from the standard it belongs to, and round trips
  are between the two. XML is a sequence of events as the XML reader reports them.
* **Request loops.** One call of the Exchange client (`EwsClient`) and the three loops of the WebDAV client
  (`DavClient`). The server is an arbitrary function of the number of the request and of the request, so the laws hold
  for every server, also one that reacts to everything sent so far. Each loop is proved equal to a recursive `Run`, and
  the laws are about that; `EwsReplies` (with `CodeTexts`) and `DavReplies` say what follows each fault and each status.

Code that works step by step is modelled by methods with loops, and by classes where it updates fields; each such method
ensures that it computes a function, and the lemmas are about the function.

Where the code does something other than what its documentation, its names or the standards suggest, the model follows
the code, and a lemma says exactly when the two agree:

* a numbered weekly series is cut at the end of a week, not at its last occurrence, and a weekday listed twice uses up
  the count twice (`WeeklyCounts.WeeklyCountExact`);
* a relative pattern that leaves its index to the default does not survive translation, and neither does an end of the
  range that belongs to another range type, or an end date with a zone or without padding
  (`Translate.TranslationKeepsMeaning`);
* from recurrences that say the same the two converters make rules that differ where weeks are skipped and do not begin
  on Monday, where the day of the month is 0, and where a relative pattern names several single weekdays
  (`EwsRules.ConvertersMeanTheSame`);
* an end date or time that does not exist is passed on (`ClockTexts.UntilIsDateTime`);
* the length of an all-day event is a day off between months of different classes (`AllDaySpan.SpanIsExact`);
* a null in an occurrence cannot be told from a missing member (`OverridePatch.PatchMakesOccurrence`);
* a UID of 0 is printed although no sequence-set holds it (`UidSets.PrintedSetIsTheSet`);
* an argument that is not sent as a literal may be taken for one (`LiteralSearch.ArgumentLooksLiteral`);
* DNS names with labels of 192 bytes or more, empty labels or a dot at the end are not read back
  (`DnsRoundTrip.EncodedNameReadsBack`);
* references in captured attributes are escaped a second time (`XmlMessages.CaptureReadsBack`), and a message text keeps
  only its last piece (`XmlMessages.FieldIsWhole`).

## Model

| member | source | states |
|---|---|---|
| Expand.ExpectedDates | src/exchange_graph/expand.rs:12-150 | Nothing for a recurrence that cannot be read; otherwise exactly the members of its series that lie in the window, sorted and without repeats. |
| WrittenPatterns.ReadsTheReadable | src/exchange_graph/expand.rs:12-52 | What is read: a recurrence with a start date and a pattern of one of the six types that has what its type needs, a known day name if weekly, the day of the month if absolute, the month if yearly. |
| WrittenPatterns.ExpandsAsWritten | src/exchange_graph/expand.rs:12-150 | In a window that ends less than 200,000 days after the start and without a number of occurrences the dates are exactly those, from the start to the end date, whose English names or days of the month the pattern gives, in the weeks, months and years it comes to; names are told from the calendar (1970-01-05 is a Monday), weeks begin on the named day or else on Sunday, ranks are counted among the listed days of the month. |
| WrittenPatterns.CountsAsWritten | src/exchange_graph/expand.rs:12-150 | With a number of occurrences, and apart from weekly patterns, the first so many of these. |
| WrittenPatterns.DailyStops | src/exchange_graph/expand.rs:10-57 | A daily series goes on for exactly 200,000 days. |
| WrittenPatterns.WeekdayIsName | src/exchange_graph/expand.rs:169-180 | A name is the weekday of a day exactly when it is the name of that day, in letters of any case. |
| Text.CapitalsBecomeSmall | src/exchange_graph/expand.rs:169-180 | Letters of any case: the capitals from A to Z become small, and nothing else changes. |
| Expand.Loop | src/exchange_graph/expand.rs:53-145 | The loop returns that clip, and goes round at most once for each day from the start to the end of the window, and once more. |
| Expand.Round | src/exchange_graph/expand.rs:58-128 | One round adds exactly the occurrences of the period the cursor is in, counts them all (outside the window too), and moves the cursor to the first day of the next period to visit; it fails exactly for the patterns that cannot be read. |
| Expand.PushWeek | src/exchange_graph/expand.rs:64-78 | A week's round adds every admitted listed weekday of the week, in the order of the list, and counts a weekday listed twice twice. |
| Expand.Push | src/exchange_graph/expand.rs:38-51 | A date before the start or after the limit changes nothing; any other is counted, and kept exactly when it is in the window. |
| Expand.NthWeekdayOfMonth | src/exchange_graph/expand.rs:226-249 | The result is the one day of the month that has the asked rank among the days on the given weekdays, and None exactly when there is none. |
| Expand.ClampedDayIs | src/exchange_graph/expand.rs:202-208 | `clamped_day` is the only day of its month that the clamping rule describes; None for a bad month or day 0. |
| Expand.LastDayOfMonthIs | src/exchange_graph/expand.rs:210-217 | The day before the first of the next month is the number of days of the month. |
| Expand.AddMonthsIs | src/exchange_graph/expand.rs:219-224 | Adding months to any date of a month gives the first of the month that many months later, backwards too. |
| Expand.StartOfWeekIs | src/exchange_graph/expand.rs:191-200 | The start of the week is the first day of the seven-day period the date is in. |
| SeriesLaws.ExpansionIsOccurrences | src/exchange_graph/expand.rs:12-150 | Without a count and within 200,000 days of the start the result is sound and complete for all six kinds: exactly the days in window and limits that the pattern hits in a visited period. |
| SeriesLaws.WindowClips | src/exchange_graph/expand.rs:38-51 | A smaller window gives the part of the result inside it and nothing else. |
| SeriesLaws.StepsAreDays | src/exchange_graph/expand.rs:54-57 | A day is visited in a round no later than its distance from the start in days, so `MAX_STEPS` cuts off nothing within 200,000 days. |
| SeriesLaws.HitIsUnique | src/exchange_graph/expand.rs:79-128 | Apart from weekly patterns a kind has at most one date in each period. |
| SeriesLaws.CountTakesFirst | src/exchange_graph/expand.rs:132-136 | Apart from weekly patterns a numbered series is exactly the first n occurrences. |
| SeriesLaws.CountIsExact | src/exchange_graph/expand.rs:132-136 | Its number of dates up to any day is the number of occurrences, or n if that is less. |
| WeeklyCounts.WeeklyCutAtWeek | src/exchange_graph/expand.rs:64-78 | A numbered weekly series holds exactly the occurrences in weeks up to and including that of the day whose listings reach the count, also where weekdays are listed twice. |
| WeeklyCounts.WeeklyOvershoot | src/exchange_graph/expand.rs:64-78 | So fewer listings are counted beyond n than the pattern has, those of the last date itself included, whatever the list. |
| WeeklyCounts.WeeklyCountExact | src/exchange_graph/expand.rs:132-136 | A series without an end date has exactly n dates if and only if the closed form `Total` is n: the different weekdays left in the first week, and all of them for each further week it takes, by listings, to reach n. |
| WeeklyCounts.WeeklyTotal | src/exchange_graph/expand.rs:53-145 | `Total` is the number of its dates, for every list of weekdays and every count, the step cap included. |
| WeeklyCounts.WeeklyCountOfDistinct | src/exchange_graph/expand.rs:132-136 | With no weekday listed twice and r of them left in the first week the count n is kept if and only if n is r, or n is more than r and n - r a multiple of the number of weekdays that is reached within the step cap. |
| WeeklyCounts.LimitClips | src/exchange_graph/expand.rs:38-51 | For all kinds an end date takes away exactly the dates after it, so a series that has one is that without, cut. |
| WeeklyCounts.WeeklyCountOvershoots | src/exchange_graph/expand.rs:71-75 | An input that gives more: one occurrence on Mondays, Wednesdays and Fridays gives three dates. |
| WeeklyCounts.RepeatedDayUndershoots | src/exchange_graph/expand.rs:71-75 | An input that gives fewer: two occurrences on Mondays, listed twice, give one date. |
| Ranks.NthWeekday | src/exchange_graph/expand.rs:226-249 | The nth of a weekday is day 1 + ((w - weekday of the 1st) mod 7) + 7(n - 1), and no other day. |
| Ranks.NthWeekdayExists | src/exchange_graph/expand.rs:226-249 | First to fourth exist in every month and fall by the 28th. |
| Ranks.LastWeekday | src/exchange_graph/expand.rs:226-249 | The last of a weekday is the one in the last seven days of the month. |
| Ranks.LastWeekdayExists | src/exchange_graph/expand.rs:226-249 | It exists in every month. |
| Translate.TranslationKeepsMeaning | src/exchange_graph/expand.rs:432-535 | Graph pattern to JSCalendar rule and back always succeeds for whatever the expander can read, and is read as the same series if and only if the rule can carry the pattern (a known index and weekday where the kind is relative, and numbers that are not 0 and fit in 64 bits with a sign, or that the start happens to agree with) and the range (no end of another type, and an end date that the expander can read exactly when it begins with a date in ten characters). |
| Translate.TranslationKeepsDates | src/exchange_graph/expand.rs:584-636 | Then the dates are the same before and after, in every window; other series may happen to have the same dates, as in the next row but one. |
| RangeEnds.SeriesBack | src/exchange_graph/expand.rs:517-535 | Whatever the range holds, a pattern that the rule can carry comes back with exactly the end that the range type names: the count of a numbered range, the date that an end date begins with, and no other. |
| RangeEnds.TypeBack | src/exchange_graph/expand.rs:517-535 | The range that comes back has a count, an end date or neither, and its type says which. |
| RangeEnds.NumberedRangeKeepsDates | src/exchange_graph/expand.rs:517-535 | A numbered range loses its end date; its dates are the same in every window if and only if the count ends the series by that date. |
| Translate.RangeSurvives | src/exchange_graph/recurrence.rs:84-101 | Start, end date and count come back if and only if the range has no end of another type, and its end date can be read exactly when it begins with a date in ten characters. |
| Translate.IntervalKept | src/exchange_graph/recurrence.rs:28-34 | An interval of 1 is left out, and any other is kept. |
| Translate.UntilReads | src/exchange/date.rs:9-19 | What comes back of any text as end date: the date its first ten characters are, if they are one. |
| Translate.ZonedEndDateGainsLimit | src/exchange/date.rs:9-19 | A family outside the condition: a date with a zone after it is no limit to the expander, and the date comes back as one. |
| Translate.ShortEndDateIsLost | src/exchange/date.rs:9-19 | Another: a date without all of its ten characters is a limit to the expander, and the range comes back without an end. |
| Translate.FirstOfAugustIsLost | src/exchange/date.rs:9-19 | One of them: 2026-8-1. |
| Translate.UntilKeepsDate | src/exchange/date.rs:9-19 | A date that an end date begins with, in ten characters, survives as the date part of `until`. |
| DefaultIndex.DefaultIndexIsLost | src/exchange_graph/recurrence.rs:72-81 | An input outside the condition: a relative pattern without an index comes back as the first of the month, and expands to other dates. |
| EwsRecurrence.InsertRelativeByDay | src/exchange_ews/recurrence.rs:126-165 | The loop builds the list of distinct short weekdays, with a set position if a name stands for a set and with `nthOfPeriod` on each entry if not; an unknown index adds neither. |
| EwsRuleMeaning.EwsRuleSays | src/exchange_ews/recurrence.rs:12-193 | A rule made from an Exchange pattern of any of the six kinds has its frequency, its interval, its day of the month and the number of the month it names, and selects the days its words mean: all named days, or the first to fourth or last of a named set, or of each named weekday, in the month or the year. |
| EwsWords.RelativeSelects | src/exchange_ews/recurrence.rs:126-176 | For relative patterns, a word that is no rank selects all the named days, and names that are none leave all days. |
| EwsWords.ExpandDayMeans | src/exchange_ews/recurrence.rs:110-124 | A name of a day, whole or its first two letters, means the days of that name; the three names of sets mean all days, Monday to Friday, and Saturday and Sunday. |
| EwsWords.MonthNamedIs | src/exchange_ews/recurrence.rs:178-194 | A month has the number of its place in the year. |
| EwsRecurrence.EwsRuleSelects | src/exchange_ews/recurrence.rs:126-176 | Under section 4.3.3 of RFC 8984 the rule selects the ranked day of the set, or the ranked day of each weekday on its own, in the month or, for a yearly rule without a month, in the year. |
| EwsRecurrence.ShortIsName | src/exchange_ews/recurrence.rs:110-124 | A day is written with the first two letters of its name. |
| EwsRecurrence.GraphRuleSelects | src/exchange_graph/recurrence.rs:72-81 | The rule made from a Graph pattern selects, in every month, the day the expander picks, and without a month the day of that rank in every year. |
| EwsRecurrence.ConvertersAgree | src/exchange_ews/recurrence.rs:126-176 | The rule selects the ranked day among all the named weekdays, in months and in years, if and only if a name stands for a set or only one weekday is named. |
| EwsRules.ConvertersMeanTheSame | src/exchange_ews/recurrence.rs:12-108 | From an Exchange and a Graph recurrence whose words and numbers say the same, of all six kinds, the two converters make rules with the same frequency, interval, months, days, count and end, if and only if no weeks are skipped from another day than Monday on, the day of the month is not 0, and a relative pattern names a set or days of one name. |
| EwsRules.RelativeRulesAgree | src/exchange_ews/recurrence.rs:126-176 | In particular their relative rules select the same days if and only if a name stands for a set or all named days have one name. |
| DateText.RecurrenceUntil | src/exchange/date.rs:9-57 | What comes out has the form of a local date-time, for every input; anything else is None. |
| ClockTexts.UntilIsDateTime | src/exchange/date.rs:9-57 | It is a date-time that exists if and only if the text begins with a date of the calendar and the time after it, if a time can be read, is at most 23:59:59. |
| ClockTexts.NoSuchDayPasses | src/exchange/date.rs:9-19 | A text for which it is not: 2021-99-99. |
| DateText.ClockTime | src/exchange/date.rs:31-57 | What comes out has the form of a time. |
| ClockTexts.FullClockReads | src/exchange/date.rs:31-57 | Hours, minutes and seconds come out as written, whatever fraction and zone follow. |
| ClockTexts.MinutesRead | src/exchange/date.rs:31-57 | Seconds left out are 00, whatever zone follows. |
| ClockTexts.HoursRead | src/exchange/date.rs:31-57 | And so are minutes. |
| DateText.RecurrenceUntilIdempotent | src/exchange/date.rs:9-19 | Applying it to its own result changes nothing. |
| DateReading.PlainDateReads | src/exchange_graph/expand.rs:152-155 | What the expander reads as a date: a year of one to four digits, a month and a day of one or two, blanks before each, and nothing after. |
| DateReading.SignedDateReads | src/exchange_graph/expand.rs:152-155 | And with a sign any digits of a year, from -262143 to 262142. |
| DateReading.ReadDateHasForm | src/exchange_graph/expand.rs:152-155 | And only text of these forms. |
| DateReading.CalendarDateReads | src/exchange_graph/expand.rs:152-155 | A date in ten characters is read as what it names, after blanks, and not at all when something follows. |
| DateReading.LeadingDateReads | src/exchange_graph/expand.rs:152-155 | Where text begins with such a date, the expander reads that date or none. |
| DateReading.ParseFormat | src/exchange_graph/expand.rs:152-155 | A date of any of these years parses back from its printed form. |
| DateText.FormatNames | src/exchange_graph/expand.rs:152-155 | The printed form of a date of years 0 to 9999 is ten characters that name it. |
| DateText.NamedIsFormat | src/exchange_graph/expand.rs:152-155 | And ten characters that name a date are its printed form. |
| Calendar.DaysFromCivilIsNumber | src/exchange_graph/calendar_map.rs:531-539 | The closed formula counts the days of the Gregorian calendar from 1970-01-01, in all years including negative ones. |
| Calendar.NextIsSuccessor | src/exchange_graph/calendar_map.rs:531-539 | From each valid date to the next it increases by exactly one. |
| Calendar.DaysFromCivilIsMonotone | src/exchange_graph/calendar_map.rs:531-539 | It is strictly monotone in year, month and day, and injective. |
| Durations.PrintedDurationIsExact | src/exchange_graph/calendar_map.rs:470-492 | The printed hours, minutes and seconds are a duration of section 1.4.6 of RFC 8984 and read as exactly the seconds printed. |
| Durations.DurationIsElapsed | src/exchange_graph/calendar_map.rs:470-492 | A duration comes out if and only if both texts parse and the end is later, and it stands for the difference. |
| Durations.ParseDateTimeText | src/exchange_graph/calendar_map.rs:516-529 | A local date-time of years 0 to 9999 parses to its seconds. |
| Durations.ParseLooseText | src/exchange_graph/calendar_map.rs:516-529 | So it does without seconds, and with Zs and a fraction behind it. |
| Durations.DurationOnCalendar | src/exchange_graph/calendar_map.rs:470-539 | So between two local date-times it is the days and seconds between them on the calendar. |
| AllDaySpan.CountsDiffer | src/exchange_ews/calendar_map.rs:500-509 | For years from -4799 on the second day count is off from the first by 2440710 in Feb, Apr, Jun, Sep and Nov and by 2440711 in the other months. |
| AllDaySpan.SpanOnCalendar | src/exchange_ews/calendar_map.rs:489-515 | The span is the days between two dates, one more or fewer when only one of them is in such a month, and at least 1. |
| AllDaySpan.SpanIsExact | src/exchange_ews/calendar_map.rs:489-515 | It is at most one off, and right if and only if both months are in the same class or the event is one day out of a long month into a short one. |
| AllDaySpan.SpanIsPositive | src/exchange_ews/calendar_map.rs:511-515 | For any two texts it is at least 1, unless both parse and their counts are a positive multiple of 2 to the 32nd apart. |
| AllDaySpan.SmallSpanIsPositive | src/exchange_ews/calendar_map.rs:489-515 | Which they never are when the numbers have up to four digits, dates or not. |
| AllDaySpan.SpanMayWrap | src/exchange_ews/calendar_map.rs:489-515 | But may be when they have more: from 1970-01-00 to 1971-01-4294966931 the span is 0. |
| AllDaySpan.ParseU32Of | src/exchange_ews/calendar_map.rs:493-499 | Months and days may have a plus sign, and have to fit in 32 bits. |
| AllDaySpan.LastOfAprilTakesTwoDays | src/exchange_ews/calendar_map.rs:489-515 | An input for which it is wrong: 30 April to 1 May. |
| OverridePatch.OverridePatch | src/exchange_ews/calendar_map.rs:378-407 | The two loops build the patch that holds, key by key, the difference between occurrence and inherited event. |
| OverridePatch.PatchMakesOccurrence | src/exchange_ews/calendar_map.rs:378-407 | Applied as a PatchObject (section 1.4.9 of RFC 8984) it gives the occurrence's value of a key, if and only if the key is not a start the occurrence lacks nor a null it does not inherit; for every key an override may hold. |
| OverridePatch.PatchKeepsExcluded | src/exchange/jscalendar.rs:9-21 | It holds no excluded key and leaves those keys as inherited. |
| OverridePatch.PatchIsMinimal | src/exchange_ews/calendar_map.rs:378-407 | Every other patch with the same effect on a key holds that key too. |
| OverridePatch.BuildRecurrenceOverrides | src/exchange_ews/calendar_map.rs:334-376 | For every key: a deletion of it wins as an exclusion, otherwise the last modification of it makes its patch from the full event or from the times; the property is absent rather than empty. |
| OverridePatch.FullEventIsFirst | src/exchange_ews/calendar_map.rs:345-366 | The full event of an occurrence is that of the first entry with its id. |
| OverridePatch.DeletedIsExcluded | src/exchange_ews/calendar_map.rs:362-371 | A deleted occurrence has the override that sets excluded to true. |
| OverridePatch.ExcludedKeys | src/exchange/jscalendar.rs:9-61 | Which keys an override never holds, written out. |
| UidSets.FormatUidSet | src/imap/command.rs:252-290 | The nested loops print the maximal runs of the sorted list without repeats, or of the list as it is when the caller says it is sorted. |
| UidSets.FindRunEnd | src/imap/command.rs:271-277 | The inner loop stops at the end of the run, and its `end + 1` never leaves u32. |
| UidSets.PrintedSetIsTheSet | src/imap/command.rs:252-290 | Read as a sequence-set (section 9 of RFC 3501) the text is exactly the set of the given UIDs; it is no sequence-set if and only if the list is empty or holds 0. Its ranges increase and neither overlap nor touch, so that no fewer would do, if and only if a list said to be sorted is strictly increasing. |
| UidSets.SeparatedIsFewest | src/imap/command.rs:252-290 | No list of ranges for the same numbers is shorter than a separated one. |
| Commands.QuoteAstring | src/imap/command.rs:46-62 | The buffer ends up as the quoted string, or as a non-synchronising literal where a byte is not printable. |
| Commands.AstringReadsBack | src/imap/command.rs:46-62 | Whatever follows, the form sent reads back as the string and leaves what follows (section 4.3 of RFC 3501, section 3 of RFC 7888). |
| Commands.FormOfAstring | src/imap/command.rs:46-62 | Text of bytes from 0x20 to 0x7E is sent quoted, and any other text as a literal. |
| Commands.QuotedHasNoLineBreak | src/imap/command.rs:46-62 | The quoted form holds no CR and no LF. |
| Commands.LoginReadsBack | src/imap/command.rs:84-86 | User name and password arrive unchanged, whatever they hold. |
| Commands.ContainsLiteral | src/imap/command.rs:64-82 | True if and only if somewhere an opening brace, digits or none, an optional plus and a closing brace stand in a row, with two more bytes after the opening brace. |
| Commands.LiteralIsFound | src/imap/command.rs:64-82 | A command with a literal from `quote_astring` anywhere in it is recognised. |
| LiteralSearch.ArgumentLooksLiteral | src/imap/command.rs:46-82 | An argument is taken for a literal if and only if it is sent as one, or itself holds an opening brace, digits, an optional plus and a closing brace. |
| LiteralSearch.LoginLooksLiteral | src/imap/command.rs:64-86 | And a LOGIN command if and only if one of its arguments is. |
| Commands.QuotedMayLookLiteral | src/imap/command.rs:64-82 | An input that is taken for a literal and is none: the quoted string "{5}". |
| Commands.CommandBuilder.NextTag | src/imap/command.rs:29-33 | The tag is the one for the number of commands sent so far, wrapping around without reaching 0. |
| Commands.TagsAsWritten | src/imap/command.rs:29-33 | The first tag is A0001, and after A9999 comes A10000. |
| Commands.NumbersWrapAround | src/imap/command.rs:29-33 | After 4,294,967,295 comes 1 again. |
| Commands.CommandBuilder.Build | src/imap/command.rs:35-43 | The command is the tag, a space, the text and CR LF, and uses up one tag. |
| Commands.TagsDoNotRepeat | src/imap/command.rs:29-33 | Two of any 4,294,967,295 consecutive tags differ. |
| Hrefs.PercentEncodeSafe | src/dav/href.rs:130-142 | The loop gives the encoding, byte by byte. |
| Hrefs.PercentDecode | src/dav/href.rs:108-128 | The loop gives the bytes with well-formed escapes resolved, and then repaired to valid UTF-8. |
| Hrefs.DecodeEncode | src/dav/href.rs:108-142 | Decoding undoes encoding for every valid UTF-8 string. |
| Hrefs.EncodeIsInjective | src/dav/href.rs:130-142 | Two strings never have the same encoding. |
| Hrefs.EncodedIsEncoded | src/dav/href.rs:130-162 | An encoding consists of unreserved characters, slashes, at signs and escapes in capitals, so nothing in it ends a path; and text of such characters alone is left as it is. |
| Hrefs.NormaliseIsIdempotent | src/dav/href.rs:65-73 | Normalising a normal path changes nothing, for every path. |
| Hrefs.NormaliseIsNormal | src/dav/href.rs:65-73 | The result is always the encoding of some valid text, for every path. |
| Hrefs.ParentAndComponent | src/dav/href.rs:92-106 | A normal href is its parent, the encoding of its last component and its trailing slashes, if and only if a slash stands before that component. |
| Scalars.ValidIsEncoded | src/dav/href.rs:108-128 | Text is taken as UTF-8 exactly when it is the bytes of some scalar values (section 3 of RFC 3629). |
| Scalars.ReplacedPiece | src/dav/href.rs:108-128 | What is repaired to one U+FFFD is the longest piece that such bytes begin with, or one byte. |
| Utf8.LossyIsValid | src/dav/href.rs:108-128 | The repair gives valid UTF-8 for all bytes. |
| Utf8.LossyOfValid | src/dav/href.rs:108-128 | The repair leaves valid UTF-8 alone. |
| DnsNames.SkipName | src/exchange_ews/autodiscover.rs:330-344 | The loop stays inside any buffer and ends; a name that leaves the buffer is None. |
| DnsNames.ReadName | src/exchange_ews/autodiscover.rs:346-382 | The loop stays inside any buffer and ends, by at most eight pointers and forward steps between them. |
| DnsNames.EncodeQname | src/exchange_ews/autodiscover.rs:275-284 | Trimmed of dots and cut at dots, each label is written after its length byte, and a zero byte follows. |
| DnsRoundTrip.EncodedNameReadsBack | src/exchange_ews/autodiscover.rs:346-382 | `read_name` gives back the name that was encoded if and only if the name has no empty label, no dot at its end and no 192 bytes without a dot, for every name that is text. |
| DnsRoundTrip.EncodedLabelsReadBack | src/exchange_ews/autodiscover.rs:346-382 | Wherever an encoded name stands, after any pointers, its labels are read back if and only if all are shorter than 192 bytes. |
| DnsRoundTrip.ReadHasShortRuns | src/exchange_ews/autodiscover.rs:346-382 | Whatever a buffer holds, nothing read from it has 192 bytes without a dot. |
| DnsNames.EncodedNameReads | src/exchange_ews/autodiscover.rs:346-382 | Reading an encoded name with labels of 1 to 191 bytes gives its labels joined by dots, after what was read before. |
| DnsNames.EncodedNameSkips | src/exchange_ews/autodiscover.rs:330-344 | Skipping it lands just past it. |
| DnsNames.PointerReads | src/exchange_ews/autodiscover.rs:346-382 | A compressed name (section 4.1.4 of RFC 1035) reads as what its pointer leads to, and is two bytes long. |
| DnsNames.LongLabelIsLost | src/exchange_ews/autodiscover.rs:275-284 | Labels of any multiple of 256 bytes end the name where they begin. |
| SrvResponses.ParseSrvResponse | src/exchange_ews/autodiscover.rs:286-328 | Every index is inside the buffer, for all buffers, and the result is the question count skipped and the answers read. |
| SrvResponses.ResponseReads | src/exchange_ews/autodiscover.rs:286-328 | A response parses to exactly its SRV records in order, with targets in full or compressed, if and only if no target takes more than eight pointers; whatever its questions, whatever names own the records, whatever other records are among them and whatever follows. |
| CompressedNames.NameReads | src/exchange_ews/autodiscover.rs:346-388 | A name in full, or one that continues through pointers, reads as all of its labels joined by dots, if and only if the pointers are no more than are left. |
| CompressedNames.CompressedNameIsPassed | src/exchange_ews/autodiscover.rs:330-344 | Owners may be labels followed by a pointer. |
| CompressedNames.FullNameIsPassed | src/exchange_ews/autodiscover.rs:330-344 | Or names in full. |
| ControlStripping.ControlStrippingReader.Read | src/dav/parse.rs:599-619 | In place in the caller's buffer: what it returns and the stripped rest are the stripped whole, for every chunking below; 0 only at the end. |
| ControlStripping.ReadToEnd | src/dav/parse.rs:599-619 | Through buffers of any sizes the output is the stripped source. |
| ControlStripping.Compact | src/dav/parse.rs:604-616 | The compaction with read and write indices keeps exactly the allowed bytes, in order. |
| ControlStripping.StripAsciiControlChars | src/dav/parse.rs:572-583 | The result is the input without forbidden bytes, also when it is returned unchanged. |
| ControlStripping.StripConcat | src/dav/parse.rs:572-590 | Stripping parts and joining them is stripping the whole. |
| ControlStripping.StripLeavesAllowed | src/dav/parse.rs:572-590 | No forbidden byte is left, and only input without them is left alone. |
| ControlStripping.ByteIsKept | src/dav/parse.rs:570-587 | A byte is kept exactly when it is tab, line feed, carriage return or at least 0x20 (section 2.2 of XML 1.0). |
| XmlCapture.ParseResponseMessages | src/exchange_ews/parse.rs:591-618 | The loop over the reader's events returns the messages that `AllMessagesAreFound` describes. |
| XmlCapture.ParseOneResponseMessage | src/exchange_ews/parse.rs:620-720 | The loop and its counters leave the reader where the message ends, with the fields that `MessageIsRead` describes; `depth` always exceeds `capture_depth`, so the test for depth 0 before the decrement never holds. |
| XmlMessages.AllMessagesAreFound | src/exchange_ews/parse.rs:591-618 | In every well-formed reply exactly the elements of the asked name are found, in order, each with its own content. |
| ReplyNames.ReplyAsWritten | src/exchange_ews/parse.rs:591-729 | An ordinary message with whatever prefixes, in letters of any case, is read: its class as success or not, its code, its text and what its Items, Attachments or Folders hold. |
| ReplyNames.MessagesByName | src/exchange_ews/parse.rs:602-603 | An element is one of a name exactly when it is in the namespace of messages and its name is that one, in letters of any case, with or without a prefix. |
| ReplyNames.ReadByName | src/exchange_ews/parse.rs:639-650 | The two fields and the three captured elements are those so named. |
| ReplyNames.SuccessByName | src/exchange_ews/parse.rs:604-606 | A message is a success exactly when the first attribute named ResponseClass, with or without a prefix, is Success or Warning, or there is none. |
| CodeTexts.CodeIsRead | src/exchange_ews/types.rs:245-309 | Each of the twenty known codes is read from its own text and no other, and any other text is kept: reading undoes writing. |
| XmlMessages.MessageIsRead | src/exchange_ews/parse.rs:620-720 | A message ends at exactly its own end tag, whatever is nested in it, and its inner text is what stands inside its outermost Items, Attachments and Folders, written event by event. |
| XmlMessages.InsideCapture | src/exchange_ews/parse.rs:634-700 | Inside a capture all of the content is copied, and the capture is as deep after it as before. |
| XmlMessages.CaptureKeepsLevel | src/exchange_ews/parse.rs:634-700 | For any events at all, `depth - capture_depth` is constant while a capture lasts and at the tag that ends it. |
| XmlMessages.CaptureReadsBack | src/exchange_ews/parse.rs:722-790 | Reading the copy gives the captured nesting, attributes and accumulated text, with every attribute value as it was written; it gives the values themselves if and only if no attribute is one that escaping again changes. |
| XmlMessages.WrappedReads | src/exchange_ews/parse.rs:722-729 | With its wrapper it reads as one element around that; an empty copy stays empty. |
| XmlMessages.WrapperAsWritten | src/exchange_ews/parse.rs:722-729 | The wrapper is named vandelay-inner and declares the two namespaces. |
| XmlMessages.FieldIsLastPiece | src/exchange_ews/parse.rs:686-696 | A field is the last piece of plain text in its element. |
| XmlMessages.FieldIsWhole | src/exchange_ews/parse.rs:686-712 | A message text is read whole, CDATA and references included, if and only if every piece but the last of plain text stands for no characters. |
| XmlMessages.ReferenceCutsMessageText | src/exchange_ews/parse.rs:686-696 | An input that is not: what stands before an entity reference is lost. |
| XmlRoundTrip.ReadsBack | src/exchange_ews/parse.rs:731-790 | The same for any sequence of events, nested or not. |
| XmlRoundTrip.EventsRead | src/exchange_ews/parse.rs:731-790 | Whatever follows the written events is read as it would be alone. |
| XmlRoundTrip.AttributeSurvives | src/exchange_ews/parse.rs:731-770 | Escaping a raw value keeps its meaning if and only if it has no "&", or has one that is no reference and no tab or line break. |
| XmlRoundTrip.EscapedValueReads | src/exchange_ews/parse.rs:731-770 | An escaped raw value always resolves, to the raw value. |
| XmlRoundTrip.ReferenceInAttributeIsLost | src/exchange_ews/parse.rs:738-746 | An input for which it does not: a value written "&amp;amp;" comes back with the entity spelt out. |
| EwsClient.Client.Execute | src/exchange_ews/client.rs:193-341 | Result, versions sent, version kept and retries counted are those of the run that the laws below are about, for every server. |
| EwsClient.Client.OnFault | src/exchange_ews/client.rs:343-406 | Fatal and authentication faults fail, a refused version steps down the ladder or fails at its foot, and only a retryable fault counts an attempt. |
| EwsReplies.FaultByText | src/exchange_ews/client.rs:193-406 | After a fault: the seven transient codes send the same version again and count a retry while one is left, the four version codes send the next older version without a retry, ErrorAuthenticationRequired and every other code end the call; codes are given by their texts. |
| EwsReplies.ReplyByStatus | src/exchange_ews/client.rs:193-341 | After a reply without a fault: 401 and 456 end the call for authentication, 429 and 502 to 504 are tried again, other statuses outside 2xx end it with their number, and a body is returned with the version that its build numbers mean, which the client then holds. |
| EwsReplies.TransportRepeats | src/exchange_ews/client.rs:193-341 | A failure of the transport is tried again. |
| EwsClient.EnvelopesArePaidFor | src/exchange_ews/client.rs:193-341 | Envelopes sent = 1 + steps down the ladder + retries taken, so at most max_retries + rank of the first version + 1, for every server. |
| EwsClient.BoundIsReached | src/exchange_ews/client.rs:193-341 | A server that needs exactly that many, for every starting version and retry limit. |
| EwsClient.CallFollowsReplies | src/exchange_ews/client.rs:193-406 | Each envelope repeats the version of the one before or steps to the next lower, as the reply asks; the last reply decides the result; a call that gives up has counted one more than max_retries. |
| EwsClient.VersionNeverRises | src/exchange_ews/client.rs:193-341 | No envelope has a higher version than an earlier one of the same call. |
| EwsClient.VersionKept | src/exchange_ews/client.rs:213-216 | Afterwards the client holds the version it sent last, or the one reported by the body it returns. |
| EwsClient.SpokenVersionIsFound | src/exchange_ews/client.rs:343-406 | A server that speaks one version is answered if and only if that version is not above the first one, one envelope a step and with no retry even when none is left. |
| EwsClient.Lower | src/exchange_ews/types.rs:137-148 | The ladder goes down one release at a time and ends only at the oldest. |
| DavClient.Client.GetStream | src/dav/client.rs:164-251 | The loop is the run of its reading of replies; it ends although `handle_status` would let it go round uncounted after success, because it is not called then. |
| DavClient.Client.Execute | src/dav/client.rs:253-407 | The loop is the run of its reading of replies; its `unreachable!` is unreachable. |
| DavClient.Client.StreamMultistatus | src/dav/client.rs:409-581 | The loop is the run of its reading of replies, its `unreachable!` is unreachable, and hrefs are resolved against the given base unless a redirect changed the address. |
| DavReplies.StreamByStatus | src/dav/client.rs:164-251 | What reading a stream does after a reply of each status: 2xx, 404 and 410 end it, 301, 302, 303, 307 and 308 with a location go on there, 401 and 403 end it for authentication unless a limit on use is reported, 403 with one and 423, 429, 502, 503, 504 and 507 are tried again, all others are errors. |
| DavReplies.ExchangeByStatus | src/dav/client.rs:253-407 | And a plain exchange, where 404 and 410 have a body and a redirect without a location is an error of its own. |
| DavReplies.MultistatusByStatus | src/dav/client.rs:409-581 | And a multistatus, where a redirect comes before the body, and the body has to be readable and after 2xx a multistatus. |
| DavReplies.TransportFails | src/dav/client.rs:630-658 | In each of them a failure of the transport that no retry helps ends the run, and any other is tried again. |
| DavReplies.FirstRedirectIsFollowed | src/dav/client.rs:164-581 | A first reply with one of the five statuses and a location: the run is that request and the one to the location, and its result is that of the second reply if that ends the run. |
| DavReplies.OtherRedirectsEnd | src/dav/client.rs:886-888 | Any other status from 300 to 399 ends the run with that status as its error. |
| DavReplies.SixRequestsAtMost | src/dav/client.rs:164-581 | Five redirects are followed, and a sixth is too many. |
| DavClient.Client.HandleStatus | src/dav/client.rs:583-628 | An attempt is counted exactly for a retryable status, and the call fails when the retries are used up. |
| DavClient.Client.HandleTransport | src/dav/client.rs:630-658 | Connection failures fail at once; others count an attempt. |
| DavClient.Classify | src/dav/retry.rs:20-43 | Which statuses mean success, nothing there, no permission and try again, where 403 depends on the body; the rest is fatal. |
| DavClient.RequestsAreBounded | src/dav/client.rs:164-581 | At most one request, one more for each redirect and one for each retry, for every server and all three loops; giving up means one more reply counted than retries allowed. |
| DavClient.BoundIsReached | src/dav/client.rs:164-581 | A server that needs exactly that many. |
| DavClient.RunFollowsReplies | src/dav/client.rs:164-581 | Each request repeats the one before or follows its redirect, as the reply asks; the last reply decides the result. |
| DavClient.HeaderStaysHome | src/dav/client.rs:201-228 | A request carries the Authorization header if and only if no redirect so far led to another host and port than the original one; so its address is the original or on that host. |
| DavClient.WholeRunIsSafe | src/dav/client.rs:164-581 | From the start of any run: at most 1 + max_retries + 5 requests, the header only at home, and never back once dropped. |
| DavClient.ResponseIsGenuine | src/dav/client.rs:164-581 | A response is the last reply, and its status is 2xx, 404 or 410. |
| DavClient.StreamAndExchangeRuns | src/dav/client.rs:164-407 | Against every server the two loops send the same requests and count the same retries, and their results differ if and only if the last reply is 404, 410 or a redirect without a location. |
| DavClient.MultistatusAndExchangeRuns | src/dav/client.rs:253-581 | Against every server a multistatus sends a first part of the requests of a plain exchange, and the runs are the same if and only if its last reply is a redirect, a transport failure, 2xx with a body that parses, or another readable one that is neither 404 nor 410. |
| DavClient.RunsCompared | src/dav/client.rs:164-581 | So it is for any two readings of replies of which one stops wherever they differ. |

## Left out

- HTTP, TLS, sockets, sleeping, back-off, jitter, `Retry-After`, rate limits and logging: a reply is a value, and so are
  whether an error body can be read and what it holds.
- Threads that share one client: the bounds of the request loops hold for one call at a time.
- Overflow of 32-bit counters in the request loops and in the XML depth, which needs four thousand million of something;
  the wrap-around of IMAP tags and the end of a run of UIDs are modelled.
- Expand.ExpectedDates: days are unbounded; where an interval takes the next period beyond chrono's dates (the year
  262142) the source returns None, and in yearly patterns it casts the interval to 32 bits.
- Recurrence.Interval: the cast to 64 bits with a sign, which makes intervals of 2 to the 63rd and more negative.
- JSON: values of another type than expected count as missing, and so do numbers that are no integers.
- AllDaySpan.SpanIsPositive: years are unbounded; the source's 64 bits overflow on years of sixteen digits and more.
- DnsRoundTrip.EncodedNameReadsBack: names are valid UTF-8, as Rust's strings are.
- OverridePatch.PatchMakesOccurrence: for member names without "/" and "~", which are all the program uses; a name with
  one of them would be a path into a member.
- UidSets.FormatUidSet: in a list said to be sorted only the last number may be 4294967295, since the source adds 1 to
  the others; sequence-sets with "*" are not read.
- Hrefs.NormaliseIsIdempotent: on the path of an address; resolving an href against its base belongs to the URL library.
- DavClient.HeaderStaysHome: joining addresses and reading their host and port are arbitrary functions.
- XmlRoundTrip.ReadsBack: namespaces of prefixes, comments and processing instructions are not compared; text is not
  trimmed, as in the parsers of messages, events and contacts (the parser of folders does trim).
- XmlCapture.ParseResponseMessages: tokenizing, errors of the XML reader and names that are no names belong to the XML
  library; attributes are those it accepts, and their values are normalized as section 3.3.3 of XML 1.0 says.
- The parsers of captured items, and of WebDAV multistatus bodies: table look-ups over events.
- Time zones: `to_local_datetime_in` and its data, and the two-step conversion of UTC times.
- `drop_calendar_address_dependents`, addresses of attendees, participants, alerts, colours: look-ups and copying.
- The database, command line, OAuth, secrets, error tables, contacts and folder roles: plumbing.
- The other IMAP commands, and SASL: concatenation.
- Synchronisation (`src/sync`) and the JMAP client.
