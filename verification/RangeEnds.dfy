/** What the round trip through a rule does to the end of a series, and what that does to its dates. */
module RangeEnds {
  import opened Wrappers
  import opened Text
  import opened Calendar
  import opened Sorting
  import opened DateText
  import opened DateReading
  import opened Series
  import opened WeeklyCounts
  import opened Recurrence
  import opened Translate

  /** The limit that comes back. */
  function LimitBack(range: Range): Option<int> {
    if range.kind != Some("endDate") || range.endDate.None? || !LeadsWithDate(range.endDate.value) then None
    else CalendarDate(Trim(range.endDate.value)[..10])
  }

  /** The count that comes back. */
  function CountBack(range: Range): (r: Option<nat>)
    ensures r.Some? ==> r.value > 0
  {
    if range.kind == Some("numbered") then Positive(range.numberOfOccurrences) else None
  }

  lemma RangeBack(pr: Recurrence, start: int)
    requires pr.pattern.Some? && pr.range.Some? && DateIn(pr.range.value.startDate) == Some(start)
    ensures var range, back := pr.range.value, RangeFor(Convert(pr).value, start);
      && DateIn(back.startDate) == Some(start)
      && DateIn(back.endDate) == LimitBack(range)
      && Positive(back.numberOfOccurrences) == CountBack(range)
  {
    hide FormatDate, ParseDate, RecurrenceUntil, ShortDays, DayShort, SetPositionFor, IntText, DateIn, LeadsWithDate,
      CalendarDate, Trim;
    var range := pr.range.value;
    StartSurvives(range, start);
    NoDate();
    if range.endDate.Some? {
      UntilReads(range.endDate.value);
    }
  }

  /** Whatever a range holds, a pattern that the rule format can carry comes back with the one end that the type of the
      range names, and no other. */
  lemma SeriesBack(g: Recurrence)
    requires Read(g).Some? && KindCarries(g.pattern.value, Read(g).value.start)
    ensures RoundTrip(g).Some?
    ensures Read(RoundTrip(g).value) ==
      Some(Read(g).value.(limit := LimitBack(g.range.value), count := CountBack(g.range.value)))
  {
    var start := Read(g).value.start;
    PatternSurvives(g, start);
    RangeBack(g, start);
    hide PatternFor, RangeFor, ReadKind, KindCarries, Interval, DateIn, Positive, LimitBack, CountBack;
  }

  /** The range that comes back says of itself what it holds: a count, an end date, or neither. */
  lemma TypeBack(g: Recurrence)
    requires Read(g).Some?
    ensures RoundTrip(g).Some? ==>
      var range, back := g.range.value, RoundTrip(g).value.range.value;
      && back.numberOfOccurrences
         == (if range.kind == Some("numbered") then AsU64(range.numberOfOccurrences) else None)
      && (back.endDate.Some? <==>
            range.kind == Some("endDate") && range.endDate.Some? && RecurrenceUntil(range.endDate.value).Some?)
      && back.kind
         == Some(if back.numberOfOccurrences.Some? then "numbered"
                 else if back.endDate.Some? then "endDate"
                 else "noEnd")
  {
    hide PatternFor, Read, FormatDate, RecurrenceUntil, ShortDays, DayShort, SetPositionFor, IntText, BeforeFirst,
      FrequencyFor;
  }

  ghost predicate SameMembers(s: Series, t: Series)
    requires s.Valid() && t.Valid()
  {
    forall n :: Member(s, n) <==> Member(t, n)
  }

  ghost predicate SameInAllWindows(s: Series, t: Series)
    requires s.Valid() && t.Valid()
  {
    forall lo, hi :: Expansion(s, lo, hi) == Expansion(t, lo, hi)
  }

  /** Two series have the same dates in every window exactly when they have the same members. */
  lemma SameDates(s: Series, t: Series)
    requires s.Valid() && t.Valid()
    ensures SameInAllWindows(s, t) <==> SameMembers(s, t)
  {
    hide Member, Expansion;
    if SameMembers(s, t) {
      forall lo, hi
        ensures Expansion(s, lo, hi) == Expansion(t, lo, hi)
      {
        ExpansionElements(s, lo, hi);
        ExpansionElements(t, lo, hi);
        SameElements(Expansion(s, lo, hi), Expansion(t, lo, hi));
      }
    }
    if SameInAllWindows(s, t) {
      forall n
        ensures Member(s, n) <==> Member(t, n)
      {
        ExpansionElements(s, n, n);
        ExpansionElements(t, n, n);
        assert Expansion(s, n, n) == Expansion(t, n, n);
      }
    }
  }

  /** A numbered range loses its end date, so it keeps its dates in every window exactly when the count ends the series
      by that date. */
  lemma NumberedRangeKeepsDates(g: Recurrence)
    requires Read(g).Some? && KindCarries(g.pattern.value, Read(g).value.start)
    requires g.range.value.kind == Some("numbered")
    ensures RoundTrip(g).Some? && Read(RoundTrip(g).value).Some?
    ensures var before, after := Read(g).value, Read(RoundTrip(g).value).value;
      SameInAllWindows(after, before) <==>
      (forall n :: before.limit.Some? && Member(before.(limit := None), n) ==> n <= before.limit.value)
  {
    hide Read, RoundTrip, KindCarries, Member, Expansion, Convert, LimitBack, CountBack;
    SeriesBack(g);
    NumberedBack(g);
    LimitsCompared(Read(g).value);
  }

  lemma NumberedBack(g: Recurrence)
    requires Read(g).Some? && g.range.value.kind == Some("numbered")
    ensures LimitBack(g.range.value) == None && CountBack(g.range.value) == Read(g).value.count
  {
    hide DateIn, ReadKind, Positive, Interval, LeadsWithDate, CalendarDate, Trim;
  }

  lemma LimitsCompared(s: Series)
    requires s.Valid()
    ensures SameInAllWindows(s.(limit := None), s) <==>
      (forall n :: s.limit.Some? && Member(s.(limit := None), n) ==> n <= s.limit.value)
  {
    hide Member, Expansion;
    var t := s.(limit := None);
    SameDates(t, s);
    forall n
      ensures Member(s, n) <==> Member(t, n) && (s.limit.Some? ==> n <= s.limit.value)
    {
      LimitClips(s, n);
    }
  }
}
