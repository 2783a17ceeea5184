/** A recurrence that the translation does not keep: a relative pattern whose index is left to its default. */
module DefaultIndex {
  import opened Wrappers
  import opened Text
  import opened Calendar
  import opened DateText
  import opened DateReading
  import opened Ranks
  import opened Recurrence
  import opened Series
  import opened Translate

  /** The first Thursday of every month, from 1970-01-01. */
  function FirstThursdays(): (s: Series)
    ensures s.Valid()
  {
    Series(RelativeMonthly([4], Nth(1)), 1, 0, None, None)
  }

  /** The first day of every month, from 1970-01-01. */
  function FirstDays(): (s: Series)
    ensures s.Valid()
  {
    Series(AbsoluteMonthly(1), 1, 0, None, None)
  }

  lemma Early1970()
    ensures FirstOfMonth(EPOCH_MONTH) == 0 && FirstOfMonth(EPOCH_MONTH + 1) == 31 && FirstOfMonth(EPOCH_MONTH + 2) == 59
    ensures MonthOf(0) == EPOCH_MONTH
  {
    MonthStep(EPOCH_MONTH);
    MonthStep(EPOCH_MONTH + 1);
  }

  lemma February1970(n: int)
    requires 31 <= n <= 37
    ensures MonthOf(n) == EPOCH_MONTH + 1 && DayOf(n) == n - 30
  {
    Early1970();
    hide FirstOfMonth;
    MonthOfUnique(n, EPOCH_MONTH + 1);
  }

  lemma FebruaryBeginsOnSunday()
    ensures FirstOffset(EPOCH_MONTH + 1, 4) == 4
  {
    Early1970();
  }

  lemma RankOfFebruary(n: int)
    requires 31 <= n <= 37
    ensures IsRankedDay(n, [4], Nth(1)) <==> n == 35
  {
    February1970(n);
    FebruaryBeginsOnSunday();
    hide FirstOfMonth, MonthOf, IsRankedDay, FirstOffset, DayOf;
    NthWeekday(n, 4, 1);
  }

  lemma FirstThursdayOfFebruary(n: int)
    requires 31 <= n <= 37
    ensures Member(FirstThursdays(), n) <==> n == 35
  {
    February1970(n);
    Early1970();
    RankOfFebruary(n);
    hide FirstOfMonth, MonthOf, IsRankedDay, DayOf, Matches, WeekdayOf;
    var s := FirstThursdays();
    assert PeriodOf(s.kind, n) == EPOCH_MONTH + 1 && PeriodOf(s.kind, s.start) == EPOCH_MONTH;
    assert StepOf(s, n) == 1 && Visited(s, EPOCH_MONTH + 1);
  }

  lemma FirstDayOfFebruary(n: int)
    requires 31 <= n <= 37
    ensures Member(FirstDays(), n) <==> n == 31
  {
    February1970(n);
    Early1970();
    hide FirstOfMonth, MonthOf, DayOf;
  }

  lemma ExpandFebruary()
    ensures Expansion(FirstThursdays(), 31, 37) == [35]
    ensures Expansion(FirstDays(), 31, 37) == [31]
  {
    hide Member, Expansion;
    forall n | 31 <= n <= 37
      ensures Member(FirstThursdays(), n) <==> n == 35
      ensures Member(FirstDays(), n) <==> n == 31
    {
      FirstThursdayOfFebruary(n);
      FirstDayOfFebruary(n);
    }
    ExpansionUnique(FirstThursdays(), 31, 37, [35]);
    ExpansionUnique(FirstDays(), 31, 37, [31]);
  }

  lemma StartText()
    ensures DateIn(Some(FormatDate(0))) == Some(0)
    ensures DayOf(0) == 1
  {
    Early1970();
    hide MonthOf, FirstOfMonth, ParseDate, FormatDate;
    ParseFormat(0);
    FormatHasNoT(0);
    NotIn(FormatDate(0), 'T');
  }

  lemma ThursdayPattern(p: Pattern)
    requires p == EMPTY_PATTERN.(kind := Some("relativeMonthly"), daysOfWeek := Some(["thursday"]))
    ensures ReadKind(p) == Some(RelativeMonthly([4], Nth(1)))
  {
    RelativeMonthlyKind(p);
    NamesAreLower();
    hide ReadKind, KindCarries, HasRank;
    assert ParseWeekday("thursday") == Some(4);
    assert ["thursday"][1..] == [];
    assert ParseWeekdays(["thursday"]) == [4];
    assert RankOf("first") == Nth(1);
  }

  lemma RoundTripOfThursdays(g: Recurrence)
    requires g.pattern == Some(EMPTY_PATTERN.(kind := Some("relativeMonthly"), daysOfWeek := Some(["thursday"])))
    requires g.range == Some(Range(Some("noEnd"), Some(FormatDate(0)), None, None))
    requires Read(g) == Some(FirstThursdays())
    ensures RoundTrip(g).Some? && Read(RoundTrip(g).value) == Some(FirstDays())
  {
    var p := g.pattern.value;
    StartText();
    hide FormatDate, ParseDate;
    ConvertMirrors(g);
    RelativeMonthlyBack(Convert(g).value, p, 0);
    AbsoluteMonthlyKind(PatternFor(Convert(g).value, 0).value);
    RangeSurvives(g, 0);
    AsU32Small(1);
    hide PatternFor, Mirrors, Weekdays, SetPositionFor;
    assert RangeCarries(g.range.value);
    assert DateIn(None) == None && Positive(None) == None;
    hide PatternFor, RangeFor, DateIn, DayOf, ReadKind, Mirrors, Weekdays, AsU32, Positive, RangeCarries,
      SetPositionFor;
  }

  /** With the index left to its default, which is the first, the first Thursday of every month comes back as
      the first day of every month: in February 1970 that is the 1st (day 31) instead of the 5th (day 35). */
  lemma DefaultIndexIsLost(g: Recurrence)
    requires g.pattern == Some(EMPTY_PATTERN.(kind := Some("relativeMonthly"), daysOfWeek := Some(["thursday"])))
    requires g.range == Some(Range(Some("noEnd"), Some(FormatDate(0)), None, None))
    ensures Read(g) == Some(FirstThursdays()) && RoundTrip(g).Some?
    ensures Read(RoundTrip(g).value) == Some(FirstDays())
    ensures Expansion(FirstThursdays(), 31, 37) == [35] && Expansion(FirstDays(), 31, 37) == [31]
  {
    StartText();
    ThursdayPattern(g.pattern.value);
    assert Read(g) == Some(FirstThursdays()) by {
      hide ReadKind;
    }
    ExpandFebruary();
    RoundTripOfThursdays(g);
  }
}
