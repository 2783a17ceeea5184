/** Spans of time between two local date-times: the duration printer of the Graph importer
    (src/exchange_graph/calendar_map.rs) and the day count of the EWS importer (src/exchange_ews/calendar_map.rs). */
module Durations {
  import opened Wrappers
  import opened Text
  import opened Calendar
  import opened DateText

  // ----- parsing

  /** The first piece of a split, and the text after the separator if there is one. */
  function Cut(s: string, c: char): (string, Option<string>) {
    var first := BeforeFirst(s, c);
    (first, After(s, first))
  }

  function NextPart(rest: Option<string>, c: char): Option<(string, Option<string>)> {
    match rest
    case Some(s) => Some(Cut(s, c))
    case None => None
  }

  /** `trim_end_matches('Z')`. */
  function TrimZ(s: string): string {
    if s != [] && s[|s| - 1] == 'Z' then TrimZ(s[..|s| - 1]) else s
  }

  /** `parse_naive_seconds`: the seconds from 1970-01-01T00:00:00. */
  function ParseNaiveSeconds(s: string): Option<int> {
    var (date, rest) := Cut(s, 'T');
    var timeText :- rest;
    var (y, afterYear) := Cut(date, '-');
    var year :- ParseInt(y);
    var (m, afterMonth) :- NextPart(afterYear, '-');
    var month :- ParseInt(m);
    var (d, _) :- NextPart(afterMonth, '-');
    var day :- ParseInt(d);
    var time := TrimZ(BeforeFirst(timeText, '.'));
    var (h, afterHour) := Cut(time, ':');
    var hh :- ParseInt(h);
    var (mi, afterMinute) :- NextPart(afterHour, ':');
    var mm :- ParseInt(mi);
    var ss :- if afterMinute.Some? then ParseInt(BeforeFirst(afterMinute.value, ':')) else ParseInt("0");
    Some(DaysFromCivil(year, month, day) * 86400 + hh * 3600 + mm * 60 + ss)
  }

  // ----- printing

  /** The units that are not zero, and an inner zero where the grammar wants one. */
  function PrintUnits(hours: nat, minutes: nat, seconds: nat): string {
    (if hours > 0 then Decimal(hours) + "H" else "")
    + ((if minutes > 0 || (hours > 0 && seconds > 0) then Decimal(minutes) + "M" else "")
       + (if seconds > 0 || (hours == 0 && minutes == 0) then Decimal(seconds) + "S" else ""))
  }

  function PrintDuration(total: nat): string {
    "PT" + PrintUnits(total / 3600, total % 3600 / 60, total % 60)
  }

  /** `duration_iso8601` of the Graph importer. */
  function DurationIso8601(start: string, end: string): Option<string> {
    var s :- ParseNaiveSeconds(start);
    var e :- ParseNaiveSeconds(end);
    if e <= s then None else Some(PrintDuration(e - s))
  }

  // ----- reading a duration, by the grammar of section 1.4.6 of RFC 8984 (the part of it below a day)

  function TakeDigits(s: string): (r: (string, string))
    ensures r.0 + r.1 == s && AllDigits(r.0)
  {
    if s != [] && IsDigit(s[0]) then
      var (d, rest) := TakeDigits(s[1..]);
      assert [s[0]] + d + rest == [s[0]] + (d + rest) == s;
      ([s[0]] + d, rest)
    else ([], s)
  }

  /** A number and its unit. */
  function TakeUnit(s: string, unit: char): Option<(nat, string)> {
    var (d, rest) := TakeDigits(s);
    if d != [] && rest != [] && rest[0] == unit then Some((DecimalValue(d), rest[1..])) else None
  }

  function ReadSeconds(s: string): Option<nat> {
    var (n, rest) :- TakeUnit(s, 'S');
    if rest == [] then Some(n) else None
  }

  function ReadMinutes(s: string): Option<nat> {
    var (n, rest) :- TakeUnit(s, 'M');
    if rest == [] then Some(60 * n) else
      var more :- ReadSeconds(rest);
      Some(60 * n + more)
  }

  function ReadHours(s: string): Option<nat> {
    var (n, rest) :- TakeUnit(s, 'H');
    if rest == [] then Some(3600 * n) else
      var more :- ReadMinutes(rest);
      Some(3600 * n + more)
  }

  /** The seconds a duration stands for: hours, minutes and seconds, where an inner unit is not left out. */
  function ReadDuration(s: string): Option<nat> {
    if !("PT" <= s) then None
    else
      var t := s[2..];
      if ReadHours(t).Some? then ReadHours(t) else if ReadMinutes(t).Some? then ReadMinutes(t) else ReadSeconds(t)
  }

  lemma TakeOneDigit(c: char, s: string)
    requires IsDigit(c)
    ensures TakeDigits([c] + s) == ([c] + TakeDigits(s).0, TakeDigits(s).1)
  {
    assert ([c] + s)[1..] == s;
  }

  lemma TakeNoDigit(rest: string)
    requires rest == [] || !IsDigit(rest[0])
    ensures TakeDigits(rest) == ([], rest)
  {
  }

  lemma {:induction false} TakeDigitsOf(d: string, rest: string)
    requires AllDigits(d) && (rest == [] || !IsDigit(rest[0]))
    ensures TakeDigits(d + rest) == (d, rest)
  {
    hide TakeDigits;
    if d == [] {
      assert d + rest == rest;
      TakeNoDigit(rest);
    } else {
      var c, more := d[0], d[1..];
      assert c in d && d == [c] + more;
      TakeDigitsOf(more, rest);
      TakeOneDigit(c, more + rest);
      Associative([c], more, rest);
    }
  }

  lemma TakeUnitOf(n: nat, c: char, rest: string, unit: char)
    requires !IsDigit(c)
    ensures TakeUnit(Decimal(n) + [c] + rest, unit) == if c == unit then Some((n, rest)) else None
  {
    TakeDigitsOf(Decimal(n), [c] + rest);
    assert Decimal(n) + [c] + rest == Decimal(n) + ([c] + rest);
  }

  lemma ReadSecondsOf(n: nat)
    ensures ReadSeconds(Decimal(n) + "S") == Some(n)
    ensures ReadMinutes(Decimal(n) + "S") == None && ReadHours(Decimal(n) + "S") == None
  {
    TakeUnitOf(n, 'S', "", 'S');
    TakeUnitOf(n, 'S', "", 'M');
    TakeUnitOf(n, 'S', "", 'H');
    assert Decimal(n) + "S" + "" == Decimal(n) + "S";
  }

  lemma ReadMinutesOf(n: nat, rest: string)
    ensures rest == "" ==> ReadMinutes(Decimal(n) + "M" + rest) == Some(60 * n)
    ensures rest != "" && ReadSeconds(rest).Some? ==>
      ReadMinutes(Decimal(n) + "M" + rest) == Some(60 * n + ReadSeconds(rest).value)
    ensures ReadHours(Decimal(n) + "M" + rest) == None
  {
    TakeUnitOf(n, 'M', rest, 'M');
    TakeUnitOf(n, 'M', rest, 'H');
  }

  lemma ReadHoursOf(n: nat, rest: string)
    ensures rest == "" ==> ReadHours(Decimal(n) + "H" + rest) == Some(3600 * n)
    ensures rest != "" && ReadMinutes(rest).Some? ==>
      ReadHours(Decimal(n) + "H" + rest) == Some(3600 * n + ReadMinutes(rest).value)
  {
    TakeUnitOf(n, 'H', rest, 'H');
  }

  lemma UnitsRead(hours: nat, minutes: nat, seconds: nat)
    ensures var t := PrintUnits(hours, minutes, seconds);
      var total := 3600 * hours + 60 * minutes + seconds;
      if hours > 0 then ReadHours(t) == Some(total)
      else if minutes > 0 then ReadHours(t) == None && ReadMinutes(t) == Some(total)
      else ReadHours(t) == None && ReadMinutes(t) == None && ReadSeconds(t) == Some(total)
  {
    hide ReadHours, ReadMinutes, ReadSeconds, Decimal;
    ReadSecondsOf(seconds);
    var s := if seconds > 0 || (hours == 0 && minutes == 0) then Decimal(seconds) + "S" else "";
    ReadMinutesOf(minutes, s);
    var m := if minutes > 0 || (hours > 0 && seconds > 0) then Decimal(minutes) + "M" else "";
    ReadHoursOf(hours, m + s);
    assert "" + s == s && "" + (m + s) == m + s;
  }

  lemma TimeParts(total: nat)
    ensures total == 3600 * (total / 3600) + 60 * (total % 3600 / 60) + total % 60
  {
  }

  /** The printed form is in the grammar and stands for exactly the seconds it was printed from. */
  lemma PrintedDurationIsExact(total: nat)
    ensures ReadDuration(PrintDuration(total)) == Some(total)
  {
    hide ReadHours, ReadMinutes, ReadSeconds, PrintUnits;
    TimeParts(total);
    var hours, minutes, seconds := total / 3600, total % 3600 / 60, total % 60;
    UnitsRead(hours, minutes, seconds);
    assert PrintDuration(total)[2..] == PrintUnits(hours, minutes, seconds);
  }

  /** A duration comes out exactly when both ends parse and the end is later, and it is the time between them. */
  lemma DurationIsElapsed(start: string, end: string)
    ensures DurationIso8601(start, end).Some? <==>
      ParseNaiveSeconds(start).Some? && ParseNaiveSeconds(end).Some?
      && ParseNaiveSeconds(start).value < ParseNaiveSeconds(end).value
    ensures DurationIso8601(start, end).Some? ==>
      ReadDuration(DurationIso8601(start, end).value)
      == Some(ParseNaiveSeconds(end).value - ParseNaiveSeconds(start).value)
  {
    hide ParseNaiveSeconds, ReadDuration, PrintDuration;
    if DurationIso8601(start, end).Some? {
      PrintedDurationIsExact(ParseNaiveSeconds(end).value - ParseNaiveSeconds(start).value);
    }
  }

  // ----- what the texts stand for

  lemma ParseDigits(s: string, n: nat)
    requires s != [] && AllDigits(s) && DecimalValue(s) == n && IsI64(n)
    ensures ParseInt(s) == Some(n)
  {
    assert s[0] in s;
  }

  lemma ParsePad2(n: int)
    requires 0 <= n <= 99
    ensures ParseInt(Pad2(n)) == Some(n)
  {
    var s := Pad2(n);
    assert s[..1] == [DigitChar(n / 10)] && s[..1][..0] == [];
    assert DecimalValue(s[..1]) == n / 10;
    ParseDigits(s, n);
  }

  lemma ParsePad4(n: int)
    requires 0 <= n <= 9999
    ensures ParseInt(Pad4(n)) == Some(n)
  {
    var s := Pad4(n);
    var a, b := n / 100, n % 100;
    assert s[..1] == [DigitChar(a / 10)] && s[..1][..0] == [] && DecimalValue(s[..1]) == a / 10;
    assert s[..2][..1] == s[..1] && s[1] == DigitChar(a % 10) && DecimalValue(s[..2]) == a;
    assert s[..3][..2] == s[..2] && s[2] == DigitChar(b / 10) && DecimalValue(s[..3]) == 10 * a + b / 10;
    assert s[3] == DigitChar(b % 10) && DecimalValue(s) == n;
    ParseDigits(s, n);
  }

  /** A piece of digits comes off in front of its separator. */
  lemma CutPiece(piece: string, c: char, rest: string)
    requires AllDigits(piece) && !IsDigit(c)
    ensures Cut(piece + [c] + rest, c) == (piece, Some(rest))
  {
    assert c !in piece;
    BeforeFirstAt(piece, c, rest);
  }

  lemma CutLast(piece: string, c: char)
    requires AllDigits(piece) && !IsDigit(c)
    ensures Cut(piece, c) == (piece, None)
  {
    assert c !in piece;
  }

  /** The local date-time text of a moment in years 0 to 9999. */
  function DateTimeText(day: int, hh: nat, mm: nat, ss: nat): string
    requires hh <= 99 && mm <= 99 && ss <= 99
  {
    FormatDate(day) + ['T'] + JoinClock(Pad2(hh), Pad2(mm), Pad2(ss))
  }

  lemma PiecesCut(y: string, m: string, d: string)
    requires AllDigits(y) && AllDigits(m) && AllDigits(d)
    ensures
      var s := y + ['-'] + (m + ['-'] + d);
      && 'T' !in s
      && Cut(s, '-') == (y, Some(m + ['-'] + d))
      && Cut(m + ['-'] + d, '-') == (m, Some(d))
      && Cut(d, '-') == (d, None)
  {
    hide Cut;
    CutPiece(y, '-', m + ['-'] + d);
    CutPiece(m, '-', d);
    CutLast(d, '-');
  }

  lemma DateCuts(n: int)
    requires 0 <= YearOf(n) <= 9999
    ensures 'T' !in FormatDate(n)
    ensures var (y, r) := Cut(FormatDate(n), '-');
      && ParseInt(y) == Some(YearOf(n)) && r.Some?
      && var (m, r') := Cut(r.value, '-');
      && ParseInt(m) == Some(MonthOfYear(n)) && r'.Some?
      && ParseInt(Cut(r'.value, '-').0) == Some(DayOf(n))
  {
    var y, m, d := Pad4(YearOf(n)), Pad2(MonthOfYear(n)), Pad2(DayOf(n));
    ParsePad4(YearOf(n));
    ParsePad2(MonthOfYear(n));
    ParsePad2(DayOf(n));
    PiecesCut(y, m, d);
    hide ParseInt, Pad4, Pad2, YearOf, MonthOfYear, DayOf, Cut, AllDigits;
    assert FormatDate(n) == y + ['-'] + (m + ['-'] + d);
  }

  lemma ClockCuts(hh: nat, mm: nat, ss: nat)
    requires hh <= 99 && mm <= 99 && ss <= 99
    ensures var time := JoinClock(Pad2(hh), Pad2(mm), Pad2(ss));
      && TrimZ(BeforeFirst(time, '.')) == time
      && var (h, r) := Cut(time, ':');
      && ParseInt(h) == Some(hh) && r.Some?
      && var (m, r') := Cut(r.value, ':');
      && ParseInt(m) == Some(mm) && r'.Some?
      && ParseInt(BeforeFirst(r'.value, ':')) == Some(ss)
  {
    var h, m, x := Pad2(hh), Pad2(mm), Pad2(ss);
    ParsePad2(hh);
    ParsePad2(mm);
    ParsePad2(ss);
    ClockText(h, m, x);
    hide ParseInt, Pad2, Cut, JoinClock, TrimZ, IsClock;
    CutPiece(h, ':', m + [':'] + x);
    CutPiece(m, ':', x);
    NotIn(x, ':');
  }

  lemma ClockText(h: string, m: string, x: string)
    requires |h| == |m| == |x| == 2 && AllDigits(h) && AllDigits(m) && AllDigits(x)
    ensures JoinClock(h, m, x) == h + [':'] + (m + [':'] + x)
    ensures TrimZ(BeforeFirst(JoinClock(h, m, x), '.')) == JoinClock(h, m, x)
  {
    var time := JoinClock(h, m, x);
    assert time == h + [':'] + (m + [':'] + x);
    assert time[7] == x[1] && x[1] in x;
    NotIn(time, '.');
    hide BeforeFirst;
  }

  lemma DateTimeCut(day: int, hh: nat, mm: nat, ss: nat)
    requires 0 <= YearOf(day) <= 9999 && hh <= 99 && mm <= 99 && ss <= 99
    ensures Cut(DateTimeText(day, hh, mm, ss), 'T') == (FormatDate(day), Some(JoinClock(Pad2(hh), Pad2(mm), Pad2(ss))))
  {
    DateCuts(day);
    hide FormatDate, JoinClock, Pad2, YearOf, ParseInt;
    BeforeFirstAt(FormatDate(day), 'T', JoinClock(Pad2(hh), Pad2(mm), Pad2(ss)));
  }

  lemma CivilOfDay(day: int)
    ensures DaysFromCivil(YearOf(day), MonthOfYear(day), DayOf(day)) == day
  {
    DaysFromCivilIsNumber(DateOf(day));
  }

  /** A printed local date-time parses to its seconds on the calendar. */
  lemma ParseDateTimeText(day: int, hh: nat, mm: nat, ss: nat)
    requires 0 <= YearOf(day) <= 9999 && hh <= 99 && mm <= 99 && ss <= 99
    ensures ParseNaiveSeconds(DateTimeText(day, hh, mm, ss)) == Some(day * 86400 + hh * 3600 + mm * 60 + ss)
  {
    hide FormatDate, JoinClock, ParseInt, TrimZ, BeforeFirst, DaysFromCivil, Cut, Pad2, DateTimeText, YearOf,
      MonthOfYear, DayOf, MonthOf, IsClock, AllDigits;
    DateCuts(day);
    ClockCuts(hh, mm, ss);
    DateTimeCut(day, hh, mm, ss);
    CivilOfDay(day);
  }

  // ----- the other notations that are taken

  /** Hours and minutes, perhaps with seconds. */
  function ShortClock(h: string, m: string, x: Option<string>): string {
    h + [':'] + (if x.Some? then m + [':'] + x.value else m)
  }

  predicate AreZs(s: string) {
    forall i :: 0 <= i < |s| ==> s[i] == 'Z'
  }

  lemma {:induction false} TrimZOf(s: string, zs: string)
    requires AreZs(zs) && s != [] && s[|s| - 1] != 'Z'
    ensures TrimZ(s + zs) == s
    decreases |zs|
  {
    if zs == [] {
      assert s + zs == s;
    } else {
      assert (s + zs)[..|s + zs| - 1] == s + zs[..|zs| - 1];
      TrimZOf(s, zs[..|zs| - 1]);
    }
  }

  lemma ShortClockText(h: string, m: string, x: Option<string>, zs: string, fraction: string)
    requires |h| == |m| == 2 && AllDigits(h) && AllDigits(m) && (x.Some? ==> |x.value| == 2 && AllDigits(x.value))
    requires AreZs(zs) && (fraction == "" || fraction[0] == '.')
    ensures TrimZ(BeforeFirst(ShortClock(h, m, x) + zs + fraction, '.')) == ShortClock(h, m, x)
  {
    var clock := ShortClock(h, m, x);
    var last := if x.Some? then x.value else m;
    assert clock[|clock| - 1] == last[1] && last[1] in last;
    assert '.' !in clock + zs;
    if fraction == "" {
      assert clock + zs + fraction == clock + zs;
    } else {
      assert clock + zs + fraction == clock + zs + ['.'] + fraction[1..];
      BeforeFirstAt(clock + zs, '.', fraction[1..]);
    }
    TrimZOf(clock, zs);
  }

  lemma ShortClockCuts(hh: nat, mm: nat, ss: Option<nat>)
    requires hh <= 99 && mm <= 99 && (ss.Some? ==> ss.value <= 99)
    ensures
      var x := if ss.Some? then Some(Pad2(ss.value)) else None;
      var (h, r) := Cut(ShortClock(Pad2(hh), Pad2(mm), x), ':');
      && ParseInt(h) == Some(hh) && r.Some?
      && var (m, r') := Cut(r.value, ':');
      && ParseInt(m) == Some(mm) && (r'.Some? <==> ss.Some?)
      && (ss.Some? ==> ParseInt(BeforeFirst(r'.value, ':')) == Some(ss.value))
  {
    var h, m := Pad2(hh), Pad2(mm);
    ParsePad2(hh);
    ParsePad2(mm);
    hide ParseInt, Cut;
    if ss.Some? {
      var x := Pad2(ss.value);
      ParsePad2(ss.value);
      hide Pad2;
      CutPiece(h, ':', m + [':'] + x);
      CutPiece(m, ':', x);
      NotIn(x, ':');
    } else {
      hide Pad2;
      CutPiece(h, ':', m);
      CutLast(m, ':');
    }
  }

  /** Seconds that are left out are 0; what stands after a point is passed over, and so is a Z. */
  lemma ParseLooseText(day: int, hh: nat, mm: nat, ss: Option<nat>, zs: string, fraction: string)
    requires 0 <= YearOf(day) <= 9999 && hh <= 99 && mm <= 99 && (ss.Some? ==> ss.value <= 99)
    requires AreZs(zs) && (fraction == "" || fraction[0] == '.')
    ensures
      var clock := ShortClock(Pad2(hh), Pad2(mm), if ss.Some? then Some(Pad2(ss.value)) else None);
      ParseNaiveSeconds(FormatDate(day) + ['T'] + (clock + zs + fraction))
      == Some(day * 86400 + hh * 3600 + mm * 60 + ss.GetOr(0))
  {
    hide FormatDate, ParseInt, TrimZ, BeforeFirst, DaysFromCivil, Pad2, YearOf, MonthOfYear, DayOf, MonthOf, AllDigits,
      ShortClock, AreZs, Cut;
    var x := if ss.Some? then Some(Pad2(ss.value)) else None;
    PadsAreDigits(hh, mm, ss);
    ShortClockText(Pad2(hh), Pad2(mm), x, zs, fraction);
    ShortClockCuts(hh, mm, ss);
    ZeroText();
    DateCuts(day);
    DateCut(day, ShortClock(Pad2(hh), Pad2(mm), x) + zs + fraction);
    CivilOfDay(day);
  }

  lemma PadsAreDigits(hh: nat, mm: nat, ss: Option<nat>)
    requires hh <= 99 && mm <= 99 && (ss.Some? ==> ss.value <= 99)
    ensures |Pad2(hh)| == 2 && |Pad2(mm)| == 2 && AllDigits(Pad2(hh)) && AllDigits(Pad2(mm))
    ensures ss.Some? ==> |Pad2(ss.value)| == 2 && AllDigits(Pad2(ss.value))
  {
  }

  lemma DateCut(day: int, tail: string)
    requires 0 <= YearOf(day) <= 9999
    ensures Cut(FormatDate(day) + ['T'] + tail, 'T') == (FormatDate(day), Some(tail))
  {
    DateCuts(day);
    hide FormatDate, YearOf, ParseInt;
    BeforeFirstAt(FormatDate(day), 'T', tail);
  }

  lemma ZeroText()
    ensures ParseInt("0") == Some(0)
  {
    assert "0"[..0] == [];
  }

  /** Between two local date-times the duration is the days between them, to the second. */
  lemma DurationOnCalendar(day: int, h: nat, m: nat, s: nat, day': int, h': nat, m': nat, s': nat)
    requires 0 <= YearOf(day) <= 9999 && 0 <= YearOf(day') <= 9999
    requires h <= 23 && m <= 59 && s <= 59 && h' <= 23 && m' <= 59 && s' <= 59
    ensures var elapsed := (day' - day) * 86400 + (h' - h) * 3600 + (m' - m) * 60 + (s' - s);
      var d := DurationIso8601(DateTimeText(day, h, m, s), DateTimeText(day', h', m', s'));
      if elapsed <= 0 then d == None else d.Some? && ReadDuration(d.value) == Some(elapsed)
  {
    hide *;
    ParseDateTimeText(day, h, m, s);
    ParseDateTimeText(day', h', m', s');
    DurationIsElapsed(DateTimeText(day, h, m, s), DateTimeText(day', h', m', s'));
  }
}
