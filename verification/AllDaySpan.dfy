/** The day count of the EWS importer (src/exchange_ews/calendar_map.rs, `all_day_span_days`), measured against
    the calendar. Its month term is short by one in five months, so it is not the calendar's day number. */
module AllDaySpan {
  import opened Wrappers
  import opened Text
  import opened Calendar
  import opened DateText
  import opened Durations

  /** `to_days`. */
  function ToDays(year: int, month: int, d: int): int {
    var y := (if month <= 2 then year - 1 else year) + 4800;
    var m := if month <= 2 then month + 12 else month;
    var mm := m + 1;
    365 * y + TruncDiv(y, 4) - TruncDiv(y, 100) + TruncDiv(y, 400) + 30 * mm + 3 * (mm + 1) / 5 + d - 32045
  }

  /** `str::parse::<u32>`. */
  function ParseU32(s: string): Option<nat> {
    var digits := if s != [] && s[0] == '+' then s[1..] else s;
    if digits != [] && AllDigits(digits) && DecimalValue(digits) < 0x1_0000_0000 then Some(DecimalValue(digits))
    else None
  }

  /** A number may have a plus sign, and has to fit in 32 bits. */
  lemma ParseU32Of(digits: string)
    requires digits != "" && AllDigits(digits)
    ensures ParseU32(digits) == (if DecimalValue(digits) <= 0xFFFF_FFFF then Some(DecimalValue(digits)) else None)
    ensures ParseU32(['+'] + digits) == ParseU32(digits)
  {
    assert digits[0] in digits;
    assert (['+'] + digits)[1..] == digits;
    hide DecimalValue, AllDigits;
  }

  /** `ymd`. */
  function Ymd(s: string): Option<(int, nat, nat)> {
    var (y, afterYear) := Cut(s, '-');
    var year :- ParseInt(y);
    var (m, afterMonth) :- NextPart(afterYear, '-');
    var month :- ParseU32(m);
    var (d, _) :- NextPart(afterMonth, '-');
    var day :- ParseU32(d);
    Some((year, month, day))
  }

  /** The difference of the two day counts, before it is clamped and cast. */
  function SpanOf(s: (int, nat, nat), e: (int, nat, nat)): int {
    ToDays(e.0, e.1, e.2) - ToDays(s.0, s.1, s.2)
  }

  /** `all_day_span_days`; the cast to `u32` keeps the low 32 bits. */
  function AllDaySpanDays(start: string, end: string): nat {
    var s, e := Ymd(BeforeFirst(start, 'T')), Ymd(BeforeFirst(end, 'T'));
    if s.None? || e.None? then 1
    else
      var diff := SpanOf(s.value, e.value);
      if diff <= 0 then 1 else diff % 0x1_0000_0000
  }

  // ----- against the calendar

  /** February, April, June, September and November. */
  predicate IsShortMonth(m: int) {
    m == 2 || m == 4 || m == 6 || m == 9 || m == 11
  }

  /** What a date in a short month lacks. */
  function Surplus(n: int): int {
    if IsShortMonth(MonthOfYear(n)) then 1 else 0
  }

  lemma SurplusIs(n: int)
    ensures Surplus(n) == if IsShortMonth(MonthOfYear(n)) then 1 else 0
  {
  }

  lemma ShiftBy4800(y: int)
    ensures (y + 4800) / 4 == y / 4 + 1200 && (y + 4800) / 100 == y / 100 + 48 && (y + 4800) / 400 == y / 400 + 12
  {
  }

  lemma YearTerms(y: int)
    requires y >= -4800
    ensures
      365 * (y + 4800) + TruncDiv(y + 4800, 4) - TruncDiv(y + 4800, 100) + TruncDiv(y + 4800, 400)
      == MarchFirst(y) + 2472632
  {
    ShiftBy4800(y);
  }

  lemma MonthTerms(m: int)
    requires 1 <= m <= 12
    ensures
      var fromMarch := if m <= 2 then m + 12 else m;
      30 * (fromMarch + 1) + 3 * (fromMarch + 2) / 5
      == MonthOffset(fromMarch - 3) + (if IsShortMonth(m) then 122 else 123)
  {
  }

  /** The two counts differ by a constant in the long months and by one less in the short ones. */
  lemma CountsDiffer(y: int, m: int, d: int)
    requires y >= -4799 && 1 <= m <= 12
    ensures ToDays(y, m, d) - DaysFromCivil(y, m, d) == if IsShortMonth(m) then 2440710 else 2440711
  {
    CivilForm(y, m, d);
    hide DaysFromCivil;
    YearTerms(if m <= 2 then y - 1 else y);
    MonthTerms(m);
    hide MarchFirst, TruncDiv, MonthOffset, IsShortMonth;
  }

  lemma CountOfDay(n: int)
    requires YearOf(n) >= -4799
    ensures ToDays(YearOf(n), MonthOfYear(n), DayOf(n)) == n + if IsShortMonth(MonthOfYear(n)) then 2440710 else 2440711
  {
    CountsDiffer(YearOf(n), MonthOfYear(n), DayOf(n));
    CivilOfDay(n);
    hide *;
  }

  // ----- on date texts

  lemma ParseU32Digits(s: string)
    requires s != [] && AllDigits(s) && ParseInt(s).Some? && ParseInt(s).value < 0x1_0000_0000
    ensures ParseU32(s) == Some(ParseInt(s).value)
  {
    assert s[0] in s;
  }

  lemma YmdOfDate(n: int)
    requires 0 <= YearOf(n) <= 9999
    ensures Ymd(FormatDate(n)) == Some((YearOf(n), MonthOfYear(n), DayOf(n)))
  {
    var y, m, d := Pad4(YearOf(n)), Pad2(MonthOfYear(n)), Pad2(DayOf(n));
    ParsePad4(YearOf(n));
    ParsePad2(MonthOfYear(n));
    ParsePad2(DayOf(n));
    ParseU32Digits(m);
    ParseU32Digits(d);
    assert FormatDate(n) == y + ['-'] + (m + ['-'] + d);
    hide ParseInt, ParseU32, Pad4, Pad2, YearOf, MonthOfYear, DayOf, Cut, FormatDate;
    CutPiece(y, '-', m + ['-'] + d);
    CutPiece(m, '-', d);
    CutLast(d, '-');
  }

  /** The text of a date, with or without a time after it. */
  predicate IsTextOf(text: string, n: int) {
    text == FormatDate(n) || FormatDate(n) + ['T'] <= text
  }

  lemma BeforeSeparator(text: string, date: string, c: char)
    requires c !in date && (text == date || date + [c] <= text)
    ensures BeforeFirst(text, c) == date
  {
    if text != date {
      var rest := text[|date| + 1..];
      assert text == date + [c] + rest;
      BeforeFirstAt(date, c, rest);
    }
  }

  lemma DateOnly(text: string, n: int)
    requires 0 <= YearOf(n) <= 9999 && IsTextOf(text, n)
    ensures BeforeFirst(text, 'T') == FormatDate(n)
  {
    hide FormatDate, YearOf, BeforeFirst, Cut, ParseInt, MonthOfYear, DayOf;
    DateCuts(n);
    BeforeSeparator(text, FormatDate(n), 'T');
  }

  lemma YearsBoundDays(n: int)
    requires 0 <= YearOf(n) <= 9999
    ensures -719528 <= n < 2932897
  {
    MonthStep(MonthOf(n));
    CivilMonthIsFirst(MonthOf(n), YearOf(n), MonthOfYear(n));
    var y, m := YearOf(n), MonthOfYear(n);
    assert n == CivilMonth(y, m) + DayOf(n) - 1;
    hide MonthOf, FirstOfMonth, YearOf, MonthOfYear, DayOf, MonthLength;
    CivilMonthBounds(y, m);
  }

  lemma CivilMonthBounds(y: int, m: int)
    requires 0 <= y <= 9999 && 1 <= m <= 12
    ensures -719528 <= CivilMonth(y, m) <= 2932866
  {
  }

  lemma SpanOfParts(start: string, end: string, s: (int, nat, nat), e: (int, nat, nat))
    requires Ymd(BeforeFirst(start, 'T')) == Some(s) && Ymd(BeforeFirst(end, 'T')) == Some(e)
    ensures var diff := ToDays(e.0, e.1, e.2) - ToDays(s.0, s.1, s.2);
      AllDaySpanDays(start, end) == if diff <= 0 then 1 else diff % 0x1_0000_0000
  {
    hide Ymd, BeforeFirst, ToDays;
  }

  lemma Fits(diff: int)
    requires 0 < diff < 0x1_0000_0000
    ensures diff % 0x1_0000_0000 == diff
  {
  }

  /** For any two texts the span is at least one day, unless both parse and their counts are a positive multiple of 2 to
      the 32nd apart, which the cast takes to 0. */
  lemma SpanIsPositive(start: string, end: string)
    ensures
      AllDaySpanDays(start, end) >= 1
      <==>
      var s, e := Ymd(BeforeFirst(start, 'T')), Ymd(BeforeFirst(end, 'T'));
      !(s.Some? && e.Some? && SpanOf(s.value, e.value) > 0 && SpanOf(s.value, e.value) % 0x1_0000_0000 == 0)
    ensures Ymd(BeforeFirst(start, 'T')).None? || Ymd(BeforeFirst(end, 'T')).None? ==> AllDaySpanDays(start, end) == 1
  {
    hide Ymd, BeforeFirst, SpanOf;
  }

  /** The numbers have at most four digits. */
  predicate AreSmall(s: (int, nat, nat)) {
    0 <= s.0 <= 9999 && s.1 <= 9999 && s.2 <= 9999
  }

  lemma CountOfSmall(s: (int, nat, nat))
    requires AreSmall(s)
    ensures 0 <= ToDays(s.0, s.1, s.2) < 0x1000_0000
  {
  }

  /** That takes numbers of more digits than dates have, though they need not be dates. */
  lemma SmallSpanIsPositive(start: string, end: string)
    requires
      var s := Ymd(BeforeFirst(start, 'T')); s.Some? ==> AreSmall(s.value)
    requires
      var e := Ymd(BeforeFirst(end, 'T')); e.Some? ==> AreSmall(e.value)
    ensures AllDaySpanDays(start, end) >= 1
  {
    hide Ymd, BeforeFirst, ToDays, AreSmall;
    var s, e := Ymd(BeforeFirst(start, 'T')), Ymd(BeforeFirst(end, 'T'));
    if s.Some? && e.Some? {
      CountOfSmall(s.value);
      CountOfSmall(e.value);
      if SpanOf(s.value, e.value) > 0 {
        Fits(SpanOf(s.value, e.value));
      }
    }
  }

  lemma ValueOneMore(s: string, c: char, n: nat)
    requires AllDigits(s) && DecimalValue(s) == n && IsDigit(c)
    ensures AllDigits(s + [c]) && DecimalValue(s + [c]) == 10 * n + DigitValue(c)
  {
    assert (s + [c])[..|s|] == s;
  }

  lemma ValueOfOne(c: char)
    requires IsDigit(c)
    ensures AllDigits([c]) && DecimalValue([c]) == DigitValue(c)
  {
    assert [] + [c] == [c];
    ValueOneMore([], c, 0);
  }

  lemma ValueOfTwoDigits(a: char, b: char)
    requires IsDigit(a) && IsDigit(b)
    ensures AllDigits([a, b]) && DecimalValue([a, b]) == 10 * DigitValue(a) + DigitValue(b)
  {
    ValueOfOne(a);
    ValueOneMore([a], b, DigitValue(a));
    assert [a] + [b] == [a, b];
  }

  lemma ValueOfYears()
    ensures AllDigits("197") && DecimalValue("197") == 197
    ensures AllDigits("1970") && DecimalValue("1970") == 1970
    ensures AllDigits("1971") && DecimalValue("1971") == 1971
  {
    ValueOfTwoDigits('1', '9');
    ValueOneMore("19", '7', 19);
    assert "19" + ['7'] == "197";
    ValueOneMore("197", '0', 197);
    ValueOneMore("197", '1', 197);
    assert "197" + ['0'] == "1970" && "197" + ['1'] == "1971";
  }

  lemma ValueOfManyDays()
    ensures AllDigits("4294966931") && DecimalValue("4294966931") == 4_294_966_931
  {
    ValueOfTwoDigits('4', '2');
    hide AllDigits, DecimalValue;
    ValueOneMore("42", '9', 42);
    assert "42" + ['9'] == "429";
    ValueOneMore("429", '4', 429);
    assert "429" + ['4'] == "4294";
    ValueOneMore("4294", '9', 4294);
    assert "4294" + ['9'] == "42949";
    ValueOneMore("42949", '6', 42949);
    assert "42949" + ['6'] == "429496";
    ValueOneMore("429496", '6', 429496);
    assert "429496" + ['6'] == "4294966";
    ValueOneMore("4294966", '9', 4294966);
    assert "4294966" + ['9'] == "42949669";
    ValueOneMore("42949669", '3', 42949669);
    assert "42949669" + ['3'] == "429496693";
    ValueOneMore("429496693", '1', 429496693);
    assert "429496693" + ['1'] == "4294966931";
  }

  /** Digits with hyphens between them parse as their numbers, dates or not. */
  lemma YmdOfDigits(y: string, m: string, d: string)
    requires AllDigits(y) && y != [] && DecimalValue(y) < 0x1_0000_0000
    requires AllDigits(m) && m != [] && DecimalValue(m) < 0x1_0000_0000
    requires AllDigits(d) && d != [] && DecimalValue(d) < 0x1_0000_0000
    ensures
      var s := y + ['-'] + (m + ['-'] + d);
      BeforeFirst(s, 'T') == s && Ymd(s) == Some((DecimalValue(y), DecimalValue(m), DecimalValue(d)))
  {
    hide DecimalValue;
    ParseDigits(y, DecimalValue(y));
    ParseDigits(m, DecimalValue(m));
    ParseDigits(d, DecimalValue(d));
    ParseU32Digits(m);
    ParseU32Digits(d);
    PiecesCut(y, m, d);
    hide ParseInt, ParseU32, Cut, AllDigits, BeforeFirst;
    NotIn(y + ['-'] + (m + ['-'] + d), 'T');
  }

  lemma WrappingCounts()
    ensures SpanOf((1970, 1, 0), (1971, 1, 4_294_966_931)) == 0x1_0000_0000
  {
  }

  /** Day 4,294,966,931 of January 1971 is 2 to the 32nd days after day 0 of January 1970. */
  lemma SpanMayWrap()
    ensures AllDaySpanDays("1970-01-00", "1971-01-4294966931") == 0
  {
    ValueOfYears();
    ValueOfManyDays();
    ValueOfTwoDigits('0', '0');
    ValueOfTwoDigits('0', '1');
    WrappingCounts();
    hide DecimalValue, AllDigits, SpanOf, Ymd, BeforeFirst;
    YmdOfDigits("1970", "01", "00");
    YmdOfDigits("1971", "01", "4294966931");
    WrappingTexts();
  }

  lemma WrappingTexts()
    ensures "1970" + ['-'] + ("01" + ['-'] + "00") == "1970-01-00"
    ensures "1971" + ['-'] + ("01" + ['-'] + "4294966931") == "1971-01-4294966931"
  {
  }

  /** What the code computes for two dates: the days between them, one more when only the first is in a short
      month, one fewer when only the second is, and never less than one. */
  lemma SpanOnCalendar(start: string, end: string, a: int, b: int)
    requires 0 <= YearOf(a) <= 9999 && 0 <= YearOf(b) <= 9999
    requires IsTextOf(start, a) && IsTextOf(end, b)
    ensures
      var raw := b - a + Surplus(a) - Surplus(b);
      AllDaySpanDays(start, end) == if raw <= 0 then 1 else raw
  {
    SurplusIs(a);
    SurplusIs(b);
    hide *;
    DateOnly(start, a);
    DateOnly(end, b);
    YmdOfDate(a);
    YmdOfDate(b);
    CountOfDay(a);
    CountOfDay(b);
    YearsBoundDays(a);
    YearsBoundDays(b);
    SpanOfParts(start, end, (YearOf(a), MonthOfYear(a), DayOf(a)), (YearOf(b), MonthOfYear(b), DayOf(b)));
    var raw := b - a + Surplus(a) - Surplus(b);
    if raw > 0 {
      Fits(raw);
    }
  }

  /** The span of an event that ends after it starts is right exactly when both dates are in months of the same
      kind, or when it is a single day that goes from a long month into a short one. */
  lemma SpanIsExact(start: string, end: string, a: int, b: int)
    requires 0 <= YearOf(a) <= 9999 && 0 <= YearOf(b) <= 9999 && a < b
    requires IsTextOf(start, a) && IsTextOf(end, b)
    ensures AllDaySpanDays(start, end) >= 1
    ensures -1 <= AllDaySpanDays(start, end) - (b - a) <= 1
    ensures AllDaySpanDays(start, end) == b - a <==>
      || (IsShortMonth(MonthOfYear(a)) <==> IsShortMonth(MonthOfYear(b)))
      || (b == a + 1 && !IsShortMonth(MonthOfYear(a)) && IsShortMonth(MonthOfYear(b)))
  {
    SurplusIs(a);
    SurplusIs(b);
    hide *;
    SpanOnCalendar(start, end, a, b);
  }

  /** The all-day event of 30 April 1970, which ends when May begins, gets two days. */
  lemma LastOfAprilTakesTwoDays()
    ensures DateOf(119) == Date(1970, 4, 30) && DateOf(120) == Date(1970, 5, 1)
    ensures AllDaySpanDays(FormatDate(119), FormatDate(120)) == 2
  {
    AprilAndMay();
    SurplusIs(119);
    SurplusIs(120);
    hide FormatDate, YearOf, MonthOfYear, DateOf, AllDaySpanDays;
    assert IsTextOf(FormatDate(119), 119) && IsTextOf(FormatDate(120), 120);
    SpanOnCalendar(FormatDate(119), FormatDate(120), 119, 120);
  }

  lemma AprilAndMay()
    ensures DateOf(119) == Date(1970, 4, 30) && DateOf(120) == Date(1970, 5, 1)
    ensures YearOf(119) == YearOf(120) == 1970 && IsShortMonth(MonthOfYear(119)) && !IsShortMonth(MonthOfYear(120))
  {
    MonthStep(EPOCH_MONTH);
    MonthStep(EPOCH_MONTH + 1);
    MonthStep(EPOCH_MONTH + 2);
    MonthStep(EPOCH_MONTH + 3);
    assert Number(Date(1970, 4, 30)) == 119 && Number(Date(1970, 5, 1)) == 120;
    NumberInverse(Date(1970, 4, 30));
    NumberInverse(Date(1970, 5, 1));
    hide FirstOfMonth, MonthOf, MonthLength;
  }
}
