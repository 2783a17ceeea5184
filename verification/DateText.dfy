/** Dates and times of day as text: src/exchange/date.rs, and chrono's printing of dates. */
module DateText {
  import opened Wrappers
  import opened Text
  import opened Calendar

  // ----- printed dates

  function Pad2(n: int): (s: string)
    requires 0 <= n <= 99
    ensures |s| == 2 && AllDigits(s)
  {
    [DigitChar(n / 10), DigitChar(n % 10)]
  }

  function Pad4(n: int): (s: string)
    requires 0 <= n <= 9999
    ensures |s| == 4 && AllDigits(s)
  {
    Pad2(n / 100) + Pad2(n % 100)
  }

  function Read2(s: string): (n: int)
    requires |s| == 2 && AllDigits(s)
    ensures 0 <= n <= 99
  {
    10 * DigitValue(s[0]) + DigitValue(s[1])
  }

  function Read4(s: string): (n: int)
    requires |s| == 4 && AllDigits(s)
    ensures 0 <= n <= 9999
  {
    100 * Read2(s[..2]) + Read2(s[2..])
  }

  /** A year is four digits when it fits; otherwise it carries a sign. */
  function FormatYear(y: int): string {
    if 0 <= y <= 9999 then Pad4(y)
    else
      var abs := if y < 0 then -y else y;
      [if y < 0 then '-' else '+'] + if abs <= 9999 then Pad4(abs) else Decimal(abs)
  }

  function FormatDate(n: int): string {
    FormatYear(YearOf(n)) + "-" + Pad2(MonthOfYear(n)) + "-" + Pad2(DayOf(n))
  }

  /** The text looks like YYYY-MM-DD: `is_calendar_date`. */
  predicate IsCalendarDate(s: string) {
    && |s| == 10
    && AllDigits(s[..4]) && s[4] == '-' && AllDigits(s[5..7]) && s[7] == '-' && AllDigits(s[8..10])
  }

  /** The date that such text names, if there is one. */
  function CalendarDate(s: string): Option<int>
    requires IsCalendarDate(s)
  {
    FromYmd(Read4(s[..4]), Read2(s[5..7]), Read2(s[8..10]))
  }

  lemma ReadPad2(n: int)
    requires 0 <= n <= 99
    ensures Read2(Pad2(n)) == n
  {
  }

  lemma PadRead2(s: string)
    requires |s| == 2 && AllDigits(s)
    ensures Pad2(Read2(s)) == s
  {
    var a, b := DigitValue(s[0]), DigitValue(s[1]);
    assert (10 * a + b) / 10 == a && (10 * a + b) % 10 == b;
  }

  lemma ReadPad4(n: int)
    requires 0 <= n <= 9999
    ensures Read4(Pad4(n)) == n
  {
    assert Pad4(n)[..2] == Pad2(n / 100) && Pad4(n)[2..] == Pad2(n % 100);
    ReadPad2(n / 100);
    ReadPad2(n % 100);
  }

  lemma PadRead4(s: string)
    requires |s| == 4 && AllDigits(s)
    ensures Pad4(Read4(s)) == s
  {
    var a, b := Read2(s[..2]), Read2(s[2..]);
    assert (100 * a + b) / 100 == a && (100 * a + b) % 100 == b;
    PadRead2(s[..2]);
    PadRead2(s[2..]);
    assert s == s[..2] + s[2..];
  }

  /** A printed date of years 0 to 9999 names that date. */
  lemma FormatNames(n: int)
    requires 0 <= YearOf(n) <= 9999
    ensures IsCalendarDate(FormatDate(n)) && CalendarDate(FormatDate(n)) == Some(n)
  {
    var s := FormatDate(n);
    var y, m, d := YearOf(n), MonthOfYear(n), DayOf(n);
    assert |s| == 10 && s[..4] == Pad4(y) && s[5..7] == Pad2(m) && s[8..10] == Pad2(d);
    ReadPad4(y);
    ReadPad2(m);
    ReadPad2(d);
    assert DateOf(n) == Date(y, m, d);
  }

  /** Ten-character text that names a date is the printed form of it. */
  lemma NamedIsFormat(s: string)
    requires IsCalendarDate(s) && CalendarDate(s).Some?
    ensures FormatDate(CalendarDate(s).value) == s
    ensures 0 <= YearOf(CalendarDate(s).value) <= 9999
  {
    var y, m, d := Read4(s[..4]), Read2(s[5..7]), Read2(s[8..10]);
    var n := Number(Date(y, m, d));
    NumberInverse(Date(y, m, d));
    assert DateOf(n) == Date(YearOf(n), MonthOfYear(n), DayOf(n));
    PadRead4(s[..4]);
    PadRead2(s[5..7]);
    PadRead2(s[8..10]);
    assert s == s[..4] + "-" + s[5..7] + "-" + s[8..10];
  }

  // ----- recurrence_until

  const END_OF_DAY := "23:59:59"

  /** `two_digits`. */
  function TwoDigits(value: string): (r: Option<string>)
    ensures r.Some? ==> |r.value| == 2 && AllDigits(r.value)
  {
    var v := Trim(value);
    if |v| == 2 && AllDigits(v) then Some(v) else None
  }

  /** Up to the zone designator: the first `Z`, `z` or `+`, or else the first `-`. */
  function BeforeZone(rest: string): string {
    var r := BeforeFirst(BeforeFirst(BeforeFirst(rest, 'Z'), 'z'), '+');
    if r == rest then BeforeFirst(rest, '-') else r
  }

  function After(s: string, prefix: string): Option<string>
    requires prefix <= s
  {
    if |prefix| < |s| then Some(s[|prefix| + 1..]) else None
  }

  function JoinClock(h: string, m: string, s: string): (r: string)
    requires |h| == |m| == |s| == 2 && AllDigits(h) && AllDigits(m) && AllDigits(s)
    ensures IsClock(r)
  {
    var r := h + ":" + m + ":" + s;
    assert r[..2] == h && r[3..5] == m && r[6..8] == s;
    r
  }

  function JoinDateTime(date: string, time: string): (r: string)
    requires IsCalendarDate(date) && IsClock(time)
    ensures IsLocalDateTime(r)
    ensures r[..10] == date && r[11..] == time
  {
    var r := date + "T" + time;
    assert r[..10] == date && r[11..] == time;
    r
  }

  /** `clock_time`: hours, minutes and seconds, the last two optional. */
  function ClockTime(rest: string): (r: Option<string>)
    ensures r.Some? ==> IsClock(r.value)
  {
    hide IsClock;
    ReadClock(BeforeZone(rest))
  }

  /** The part of it after the zone is cut off. */
  function ReadClock(raw: string): (r: Option<string>)
    ensures r.Some? ==> IsClock(r.value)
  {
    hide IsClock, AllDigits, TwoDigits;
    var first := BeforeFirst(raw, ':');
    var hour :- TwoDigits(first);
    var tail := After(raw, first);
    var second := if tail.Some? then BeforeFirst(tail.value, ':') else "00";
    var minute :- TwoDigits(second);
    var tail2 := if tail.Some? then After(tail.value, second) else None;
    var sec :- if tail2.Some? then TwoDigits(BeforeFirst(BeforeFirst(tail2.value, ':'), '.')) else Some("00");
    Some(JoinClock(hour, minute, sec))
  }

  lemma EndOfDayIsClock()
    ensures IsClock(END_OF_DAY)
  {
  }

  /** `recurrence_until`: a date, or a date and time in any of several notations, as a local date-time. */
  function RecurrenceUntil(raw: string): (r: Option<string>)
    ensures r.Some? ==> IsLocalDateTime(r.value)
  {
    EndOfDayIsClock();
    hide ClockTime, Trim, IsClock, IsCalendarDate, IsLocalDateTime, AllDigits, JoinDateTime;
    var trimmed := Trim(raw);
    if |trimmed| >= 10 && IsCalendarDate(trimmed[..10]) then
      var time :=
        if |trimmed| > 10 && (trimmed[10] == 'T' || trimmed[10] == 't')
        then ClockTime(trimmed[11..]).GetOr(END_OF_DAY)
        else END_OF_DAY;
      Some(JoinDateTime(trimmed[..10], time))
    else None
  }

  /** The text looks like hh:mm:ss. */
  predicate IsClock(s: string) {
    && |s| == 8
    && AllDigits(s[..2]) && s[2] == ':' && AllDigits(s[3..5]) && s[5] == ':' && AllDigits(s[6..8])
  }

  /** The shape of a LocalDateTime, section 1.4.4 of RFC 8984. */
  predicate IsLocalDateTime(s: string) {
    |s| == 19 && IsCalendarDate(s[..10]) && s[10] == 'T' && IsClock(s[11..])
  }

  lemma NoTrim(s: string)
    requires s != [] && !IsSpace(s[0]) && !IsSpace(s[|s| - 1])
    ensures Trim(s) == s
  {
  }

  lemma TwoDigitsFixed(s: string)
    requires |s| == 2 && AllDigits(s)
    ensures TwoDigits(s) == Some(s)
  {
    assert s[0] in s && s[1] in s;
    NoTrim(s);
  }

  lemma NotIn(s: string, c: char)
    requires c !in s
    ensures BeforeFirst(s, c) == s
  {
  }

  lemma NoZone(s: string)
    requires forall c :: c in s ==> IsDigit(c) || c == ':'
    ensures BeforeZone(s) == s
  {
    NotIn(s, 'Z');
    NotIn(s, 'z');
    NotIn(s, '+');
    NotIn(s, '-');
  }

  lemma ClockParts(h: string, m: string, x: string)
    requires |h| == |m| == |x| == 2 && AllDigits(h) && AllDigits(m) && AllDigits(x)
    ensures var s := JoinClock(h, m, x);
            && (forall c :: c in s ==> IsDigit(c) || c == ':')
            && BeforeFirst(s, ':') == h
            && s[3..] == m + [':'] + x
            && BeforeFirst(s[3..], ':') == m
            && s[3..][3..] == x
  {
    assert JoinClock(h, m, x) == h + [':'] + (m + [':'] + x);
    BeforeFirstAt(h, ':', m + [':'] + x);
    assert JoinClock(h, m, x)[3..] == m + [':'] + x;
    BeforeFirstAt(m, ':', x);
  }

  lemma ClockTimeFixed(h: string, m: string, x: string)
    requires |h| == |m| == |x| == 2 && AllDigits(h) && AllDigits(m) && AllDigits(x)
    ensures ClockTime(JoinClock(h, m, x)) == Some(JoinClock(h, m, x))
  {
    ClockParts(h, m, x);
    NoZone(JoinClock(h, m, x));
    NotIn(x, ':');
    NotIn(x, '.');
    TwoDigitsFixed(h);
    TwoDigitsFixed(m);
    TwoDigitsFixed(x);
  }

  lemma ClockFixed(t: string)
    requires IsClock(t)
    ensures ClockTime(t) == Some(t)
  {
    assert t == JoinClock(t[..2], t[3..5], t[6..8]);
    ClockTimeFixed(t[..2], t[3..5], t[6..8]);
  }

  lemma NoTrimDateTime(date: string, time: string)
    requires IsCalendarDate(date) && IsClock(time)
    ensures Trim(JoinDateTime(date, time)) == JoinDateTime(date, time)
  {
    assert date[..4][0] in date[..4];
    assert time[6..8][1] in time[6..8];
    NoTrim(JoinDateTime(date, time));
  }

  lemma LocalDateTimeFixed(date: string, time: string)
    requires IsCalendarDate(date) && IsClock(time)
    ensures RecurrenceUntil(JoinDateTime(date, time)) == Some(JoinDateTime(date, time))
  {
    NoTrimDateTime(date, time);
    ClockFixed(time);
  }

  /** The normal form is a fixed point: text already in it is left alone. */
  lemma RecurrenceUntilIdempotent(raw: string)
    requires RecurrenceUntil(raw).Some?
    ensures RecurrenceUntil(RecurrenceUntil(raw).value) == RecurrenceUntil(raw)
  {
    var s := RecurrenceUntil(raw).value;
    assert s == JoinDateTime(s[..10], s[11..]);
    LocalDateTimeFixed(s[..10], s[11..]);
  }
}
