/** What the date-times that `recurrence_until` (src/exchange/date.rs:9-57) makes stand for. */
module ClockTexts {
  import opened Wrappers
  import opened Text
  import opened Calendar
  import opened DateText

  // ----- notations of a time of day

  /** A fraction of a second, or none. */
  predicate IsFraction(s: string) {
    s == "" || (s[0] == '.' && AllDigits(s[1..]))
  }

  /** A zone designator, or none: a letter, or an offset of digits and colons. */
  predicate IsZone(s: string) {
    s in {"", "Z", "z"} || (s[0] in {'+', '-'} && forall c :: c in s[1..] ==> IsDigit(c) || c == ':')
  }

  predicate IsClockChar(c: char) {
    IsDigit(c) || c == ':' || c == '.'
  }

  lemma {:induction false} UpTo(s: string, c: char, rest: string)
    requires c !in s && (rest == "" || rest[0] == c)
    ensures BeforeFirst(s + rest, c) == s
  {
    if rest == "" {
      assert s + rest == s;
    } else {
      assert s + rest == s + [c] + rest[1..];
      BeforeFirstAt(s, c, rest[1..]);
    }
  }

  lemma NotWithin(s: string, rest: string, c: char)
    requires c !in s && c !in rest
    ensures BeforeFirst(s + rest, c) == s + rest
  {
    NotIn(s + rest, c);
  }

  /** Whatever the zone, it is cut off. */
  lemma ZoneIsCut(s: string, zone: string)
    requires (forall c :: c in s ==> IsClockChar(c)) && IsZone(zone)
    ensures BeforeZone(s + zone) == s
  {
    hide BeforeFirst;
    if zone == "" {
      assert s + zone == s;
      NotIn(s, 'Z');
      NotIn(s, 'z');
      NotIn(s, '+');
      NotIn(s, '-');
    } else {
      assert zone == [zone[0]] + zone[1..];
      if zone == "Z" {
        UpTo(s, 'Z', zone);
        NotIn(s, 'z');
        NotIn(s, '+');
        assert s + zone != s;
      } else if zone == "z" {
        NotWithin(s, zone, 'Z');
        UpTo(s, 'z', zone);
        NotIn(s, '+');
        assert s + zone != s;
      } else {
        NotWithin(s, zone, 'Z');
        NotWithin(s, zone, 'z');
        if zone[0] == '+' {
          UpTo(s, '+', zone);
          assert s + zone != s;
        } else {
          NotWithin(s, zone, '+');
          UpTo(s, '-', zone);
        }
      }
    }
  }

  /** Hours, minutes and seconds come out as written, without fraction and zone. */
  lemma FullClockReads(h: string, m: string, x: string, fraction: string, zone: string)
    requires |h| == |m| == |x| == 2 && AllDigits(h) && AllDigits(m) && AllDigits(x)
    requires IsFraction(fraction) && IsZone(zone)
    ensures ClockTime(h + ([':'] + (m + ([':'] + (x + fraction)))) + zone) == Some(JoinClock(h, m, x))
  {
    hide BeforeZone, ReadClock, IsFraction, IsClockChar, IsZone;
    ClockChars(h, m, x, fraction);
    ZoneIsCut(h + ([':'] + (m + ([':'] + (x + fraction)))), zone);
    FullClock(h, m, x, fraction);
  }

  lemma FullClock(h: string, m: string, x: string, fraction: string)
    requires |h| == |m| == |x| == 2 && AllDigits(h) && AllDigits(m) && AllDigits(x) && IsFraction(fraction)
    ensures ReadClock(h + ([':'] + (m + ([':'] + (x + fraction))))) == Some(JoinClock(h, m, x))
  {
    hide IsFraction, BeforeFirst, TwoDigits, JoinClock;
    var seconds := x + fraction;
    var rest := m + ([':'] + seconds);
    var s := h + ([':'] + rest);
    ClockChars(h, m, x, fraction);
    FractionStarts(fraction);
    UpTo(h, ':', [':'] + rest);
    UpTo(m, ':', [':'] + seconds);
    assert s[|h| + 1..] == rest && rest[|m| + 1..] == seconds;
    NotWithin(x, fraction, ':');
    UpTo(x, '.', fraction);
    TwoDigitsFixed(h);
    TwoDigitsFixed(m);
    TwoDigitsFixed(x);
  }

  lemma FractionStarts(fraction: string)
    requires IsFraction(fraction)
    ensures fraction == "" || fraction[0] == '.'
  {
  }

  lemma ClockChars(h: string, m: string, x: string, fraction: string)
    requires AllDigits(h) && AllDigits(m) && AllDigits(x) && IsFraction(fraction)
    ensures forall c :: c in h + ([':'] + (m + ([':'] + (x + fraction)))) ==> IsClockChar(c)
    ensures ':' !in fraction && ':' !in h && ':' !in m && ':' !in x && '.' !in x
  {
    if fraction != "" {
      assert fraction == [fraction[0]] + fraction[1..];
    }
  }

  /** Seconds left out are none. */
  lemma MinutesRead(h: string, m: string, zone: string)
    requires |h| == |m| == 2 && AllDigits(h) && AllDigits(m) && IsZone(zone)
    ensures ClockTime(h + ([':'] + m) + zone) == Some(JoinClock(h, m, "00"))
  {
    hide BeforeZone, ReadClock, IsZone;
    ZoneIsCut(h + ([':'] + m), zone);
    HoursAndMinutes(h, m);
  }

  lemma HoursAndMinutes(h: string, m: string)
    requires |h| == |m| == 2 && AllDigits(h) && AllDigits(m)
    ensures ReadClock(h + ([':'] + m)) == Some(JoinClock(h, m, "00"))
  {
    hide BeforeFirst, TwoDigits, JoinClock;
    var s := h + ([':'] + m);
    UpTo(h, ':', [':'] + m);
    assert s[|h| + 1..] == m;
    NotIn(m, ':');
    TwoDigitsFixed(h);
    TwoDigitsFixed(m);
  }

  /** And so are minutes. */
  lemma HoursRead(h: string, zone: string)
    requires |h| == 2 && AllDigits(h) && IsZone(zone)
    ensures ClockTime(h + zone) == Some(JoinClock(h, "00", "00"))
  {
    ZoneIsCut(h, zone);
    hide BeforeZone, IsZone;
    NotIn(h, ':');
    TwoDigitsFixed(h);
    TwoDigitsFixed("00");
    hide BeforeFirst, TwoDigits;
  }

  // ----- date-times of the calendar

  /** The numbers of a clock text are a time of day. */
  predicate IsTimeOfDay(clock: string)
    requires IsClock(clock)
  {
    Read2(clock[..2]) <= 23 && Read2(clock[3..5]) <= 59 && Read2(clock[6..8]) <= 59
  }

  /** A LocalDateTime of section 1.4.4 of RFC 8984 that exists. */
  predicate IsDateTime(s: string) {
    IsLocalDateTime(s) && CalendarDate(s[..10]).Some? && IsTimeOfDay(s[11..])
  }

  /** The time that stands after the date, if one does. */
  function GivenClock(raw: string): (r: Option<string>)
    ensures r.Some? ==> IsClock(r.value)
  {
    var trimmed := Trim(raw);
    if |trimmed| > 10 && (trimmed[10] == 'T' || trimmed[10] == 't') then ClockTime(trimmed[11..]) else None
  }

  /** `recurrence_until` checks the form of dates and times and not their numbers: so what comes out is a date-time of
      the calendar exactly when what stands there is one. */
  lemma UntilIsDateTime(raw: string)
    ensures
      RecurrenceUntil(raw).Some? && IsDateTime(RecurrenceUntil(raw).value)
      <==>
      && |Trim(raw)| >= 10 && IsCalendarDate(Trim(raw)[..10]) && CalendarDate(Trim(raw)[..10]).Some?
      && (GivenClock(raw).Some? ==> IsTimeOfDay(GivenClock(raw).value))
  {
    hide ClockTime, Trim, FromYmd, IsTimeOfDay;
    EndOfDayIsTime();
  }

  /** The 99th day of a 99th month comes out as it stands. */
  lemma NoSuchDayPasses()
    ensures RecurrenceUntil("2021-99-99") == Some("2021-99-99T23:59:59") && !IsDateTime("2021-99-99T23:59:59")
  {
    var raw := "2021-99-99";
    NoTrim(raw);
    assert raw[..10] == raw && raw[..4] == "2021" && raw[5..7] == "99" && raw[8..10] == "99";
    assert IsCalendarDate(raw);
    assert RecurrenceUntil(raw) == Some(JoinDateTime(raw, END_OF_DAY));
    assert JoinDateTime(raw, END_OF_DAY) == raw + "T" + END_OF_DAY;
    var until := "2021-99-99T23:59:59";
    assert raw + "T" + END_OF_DAY == until;
    assert until[..10] == raw;
    assert Read2("99") == 99;
    hide RecurrenceUntil, Trim;
  }

  lemma EndOfDayIsTime()
    ensures IsClock(END_OF_DAY) && IsTimeOfDay(END_OF_DAY)
  {
  }
}
