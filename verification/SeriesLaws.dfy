/** What the expansion promises over whole series: windows, the step cap, counts and ranks. */
module SeriesLaws {
  import opened Wrappers
  import opened Arithmetic
  import opened Calendar
  import opened Sorting
  import opened Series

  // ----- windows

  /** A smaller window shows the part of the series that is in it, and changes nothing else. */
  lemma WindowClips(s: Series, lo: int, hi: int, lo': int, hi': int)
    requires s.Valid() && lo <= lo' && hi' <= hi
    ensures forall n :: n in Expansion(s, lo', hi') <==> n in Expansion(s, lo, hi) && lo' <= n <= hi'
  {
    ExpansionElements(s, lo, hi);
    ExpansionElements(s, lo', hi');
  }

  // ----- the step cap

  /** Periods are at least a day long, so a day is no more periods away than days. */
  lemma {:induction false} PeriodsAreDays(k: Kind, a: int, b: int)
    requires a <= b
    ensures PeriodOf(k, a) <= PeriodOf(k, b) <= PeriodOf(k, a) + (b - a)
    decreases b - a
  {
    if a < b {
      PeriodsAreDays(k, a, b - 1);
      var p := PeriodOf(k, b - 1);
      PeriodAtLeast(k, b - 1, p);
      PeriodAtLeast(k, b, p);
      PeriodAtLeast(k, b - 1, p + 1);
      PeriodStartIncreases(k, p + 1, p + 2);
      PeriodAtLeast(k, b, p + 2);
    }
  }

  lemma StepsAreDays(s: Series, n: int)
    requires s.Valid() && s.start <= n
    ensures 0 <= StepOf(s, n) <= n - s.start
  {
    PeriodsAreDays(s.kind, s.start, n);
    var x := PeriodOf(s.kind, n) - PeriodOf(s.kind, s.start);
    DivModParts(x, s.interval);
    if x / s.interval < 0 {
      MulMonotone(s.interval, x / s.interval, -1);
    } else {
      MulMonotone(x / s.interval, 1, s.interval);
    }
  }

  /** In a window that ends less than 200,000 days after the start, and without a count, the result is
      exactly the days that occur: sound and complete for all six kinds. */
  lemma ExpansionIsOccurrences(s: Series, lo: int, hi: int)
    requires s.Valid() && s.count.None? && hi - s.start < 200000
    ensures StrictlyIncreasing(Expansion(s, lo, hi))
    ensures forall n :: n in Expansion(s, lo, hi) <==> lo <= n <= hi && Occurs(s, n)
  {
    ExpansionElements(s, lo, hi);
    forall n | n <= hi && Occurs(s, n)
      ensures Member(s, n)
    {
      StepsAreDays(s, n);
    }
  }

  // ----- counts

  lemma MatchesPositive(days: seq<Weekday>, a: int, n: int, b: int)
    requires a <= n < b && WeekdayOf(n) in days
    ensures Matches(days, a, b) >= Matches(days, a, n) + 1
    ensures Matches(days, a, b) >= 1
  {
    MatchesSplit(days, a, n + 1, b);
  }

  lemma RankIdentifies(a: int, b: int, days: seq<Weekday>, rank: Rank)
    requires a < b && MonthOf(a) == MonthOf(b)
    ensures !(IsRankedDay(a, days, rank) && IsRankedDay(b, days, rank))
  {
    hide MonthOf, FirstOfMonth, Matches, WeekdayOf;
    var t := MonthOf(a);
    if WeekdayOf(a) in days && WeekdayOf(b) in days {
      MatchesPositive(days, FirstOfMonth(t), a, b);
      MatchesPositive(days, a + 1, b, FirstOfMonth(t + 1));
    }
  }

  lemma SameMonth(a: int, b: int)
    requires YearOf(a) == YearOf(b) && MonthOfYear(a) == MonthOfYear(b)
    ensures MonthOf(a) == MonthOf(b)
  {
  }

  /** Apart from weekly patterns, a kind hits at most one day of each period. */
  lemma HitIsUnique(k: Kind, a: int, b: int)
    requires !k.Weekly? && PeriodOf(k, a) == PeriodOf(k, b) && a < b
    ensures !(Hit(k, a) && Hit(k, b))
  {
    if MonthOf(a) == MonthOf(b) {
      match k
      case Daily =>
      case AbsoluteMonthly(_) =>
      case AbsoluteYearly(_, _) =>
      case RelativeMonthly(days, rank) => RankIdentifies(a, b, days, rank);
      case RelativeYearly(_, days, rank) => RankIdentifies(a, b, days, rank);
    } else if k.AbsoluteYearly? || k.RelativeYearly? {
      if MonthOfYear(a) == MonthOfYear(b) {
        SameMonth(a, b);
      }
    }
  }

  /** Such a kind has met all earlier occurrences by the time a day's period begins. */
  lemma TallyAtPeriodStart(s: Series, n: int)
    requires s.Valid() && !s.kind.Weekly? && Occurs(s, n)
    ensures Tally(s, s.start, PeriodStart(s.kind, PeriodOf(s.kind, n))) == Tally(s, s.start, n)
  {
    var p := PeriodOf(s.kind, n);
    var from := PeriodStart(s.kind, p);
    PeriodAtLeast(s.kind, n, p);
    forall m | from <= m < n
      ensures !Occurs(s, m)
    {
      PeriodAtLeast(s.kind, m, p);
      PeriodAtLeast(s.kind, m, p + 1);
      PeriodAtLeast(s.kind, n, p + 1);
      HitIsUnique(s.kind, m, n);
    }
    TallyNone(s, from, n);
    if s.start <= from {
      TallySplit(s, s.start, from, n);
    } else {
      TallyFromStart(s, from, n);
    }
  }

  /** Apart from weekly patterns, a count of `n` takes exactly the first `n` occurrences: a day is in
      the series exactly when it occurs and fewer than `n` occurrences come before it. */
  lemma CountTakesFirst(s: Series, n: int)
    requires s.Valid() && !s.kind.Weekly? && s.count.Some? && n - s.start < 200000
    ensures Member(s, n) <==> Occurs(s, n) && Tally(s, s.start, n) < s.count.value
  {
    if Occurs(s, n) {
      StepsAreDays(s, n);
      TallyAtPeriodStart(s, n);
    }
  }

  /** The members from `a` up to but not including `b`, counted. */
  function Members(s: Series, a: int, b: int): nat
    requires s.Valid()
    decreases b - a
  {
    if a >= b then 0 else Members(s, a, b - 1) + if Member(s, b - 1) then 1 else 0
  }

  /** So the series never has more than `n` days, and has fewer only where it has not come that far. */
  lemma {:induction false} CountIsExact(s: Series, b: int)
    requires s.Valid() && !s.kind.Weekly? && s.count.Some? && b - s.start <= 200000
    ensures Members(s, s.start, b)
         == if Tally(s, s.start, b) < s.count.value then Tally(s, s.start, b) else s.count.value
    decreases b - s.start
  {
    if s.start < b {
      CountIsExact(s, b - 1);
      CountTakesFirst(s, b - 1);
    }
  }
}
