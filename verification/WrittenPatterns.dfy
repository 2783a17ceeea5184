/** What the words and numbers of a recurrence mean for the days that it expands to: the reading of the expander
    (src/exchange_graph/expand.rs) measured by the names of days and by the calendar. */
module WrittenPatterns {
  import opened Wrappers
  import opened Text
  import opened Arithmetic
  import opened Calendar
  import opened DayNames
  import opened RankWords
  import opened DateReading
  import opened Series
  import opened SeriesLaws
  import opened Recurrence

  // ----- names of days

  lemma WeekdayIsName(name: string, n: int)
    ensures ParseWeekday(name) == Some(WeekdayOf(n)) <==> IsNamed(name, n)
  {
    PlaceInWeek(n);
    hide WeekdayOf, Lower;
  }

  lemma {:induction false} WeekdaysAreNames(names: seq<string>, n: int)
    ensures WeekdayOf(n) in ParseWeekdays(names) <==> Lists(names, n)
  {
    hide ParseWeekday, WeekdayOf, IsNamed, Lists;
    if names == [] {
      NothingListed(n);
    } else {
      WeekdayIsName(names[0], n);
      WeekdaysAreNames(names[1..], n);
      ListsCons(names, n);
    }
  }

  lemma NothingListed(n: int)
    ensures !Lists([], n)
  {
  }

  lemma SomeDay(w: Weekday)
    ensures WeekdayOf(w - 4) == w
  {
  }

  lemma NoWeekdays(names: seq<string>)
    ensures ParseWeekdays(names) == [] <==> forall n :: !Lists(names, n)
  {
    hide WeekdayOf, Lists, ParseWeekdays;
    forall n
      ensures WeekdayOf(n) in ParseWeekdays(names) <==> Lists(names, n)
    {
      WeekdaysAreNames(names, n);
    }
    if ParseWeekdays(names) != [] {
      var w: int := ParseWeekdays(names)[0];
      SomeDay(w);
      assert Lists(names, w - 4);
    }
  }

  // ----- which weeks, months and years

  /** Weeks begin on the day `k`: one of the name that the pattern gives, or a Sunday. */
  predicate BeginsWeeks(p: Pattern, k: int) {
    if p.firstDayOfWeek.Some? && Lower(p.firstDayOfWeek.value) in WEEK then IsNamed(p.firstDayOfWeek.value, k)
    else DayName(k) == "sunday"
  }

  /** The last day up to `n` that is whole weeks away from `k`. */
  function WeekBegin(k: int, n: int): int {
    n - (n - k) % 7
  }

  /** The interval: 1 unless a positive one is given. */
  function Every(p: Pattern): int {
    if p.interval.Some? && 0 < p.interval.value < 0x1_0000_0000_0000_0000 then p.interval.value else 1
  }

  function Months(n: int): int {
    12 * DateOf(n).year + DateOf(n).month
  }

  // ----- which days of a month

  /** The last day of its month. */
  predicate IsLastOfMonth(n: int) {
    DateOf(n + 1).day == 1
  }

  /** The day of the month that is given, or the last one of a shorter month. */
  predicate IsDayOfMonth(n: int, day: int) {
    DateOf(n).day == day || (DateOf(n).day < day && IsLastOfMonth(n))
  }

  /** The number that the source keeps of one given in JSON: its low 32 bits. */
  function Low32(v: Option<int>): int {
    v.GetOr(0) % 0x1_0000_0000
  }

  // ----- the whole pattern

  predicate IsGiven(v: Option<int>) {
    v.Some? && 0 <= v.value < 0x1_0000_0000_0000_0000
  }

  function NamesOf(p: Pattern): seq<string> {
    p.daysOfWeek.GetOr([])
  }

  /** The patterns that can be read. */
  ghost predicate IsReadable(p: Pattern) {
    || p.kind == Some("daily")
    || (p.kind == Some("weekly") && exists n :: Lists(NamesOf(p), n))
    || (p.kind == Some("absoluteMonthly") && IsGiven(p.dayOfMonth))
    || p.kind == Some("relativeMonthly")
    || (p.kind == Some("absoluteYearly") && IsGiven(p.month) && IsGiven(p.dayOfMonth))
    || (p.kind == Some("relativeYearly") && IsGiven(p.month))
  }

  /** The days, months or years between two days; weeks are counted by their beginnings. */
  function Apart(p: Pattern, start: int, n: int): int {
    if p.kind == Some("daily") then n - start
    else if p.kind == Some("absoluteMonthly") || p.kind == Some("relativeMonthly") then Months(n) - Months(start)
    else DateOf(n).year - DateOf(start).year
  }

  /** The day is in a week, month or year that the pattern comes to from its start. */
  ghost predicate IsItsTurn(p: Pattern, start: int, n: int) {
    if p.kind == Some("weekly") then
      forall k :: BeginsWeeks(p, k) ==> (WeekBegin(k, n) - WeekBegin(k, start)) % (7 * Every(p)) == 0
    else Apart(p, start, n) % Every(p) == 0
  }

  /** And it is one of the days there that the pattern says. */
  ghost predicate IsSaid(p: Pattern, n: int) {
    if p.kind == Some("daily") then true
    else if p.kind == Some("weekly") then Lists(NamesOf(p), n)
    else
      && (p.kind == Some("absoluteYearly") || p.kind == Some("relativeYearly") ==> DateOf(n).month == Low32(p.month))
      && if p.kind == Some("absoluteMonthly") || p.kind == Some("absoluteYearly")
         then Low32(p.dayOfMonth) >= 1 && IsDayOfMonth(n, Low32(p.dayOfMonth))
         else IsWordth(Listed(NamesOf(p)), false, n, p.index.GetOr("first"))
  }

  // ----- patterns read

  lemma KindIsReadable(p: Pattern)
    ensures ReadKind(p).Some? <==> IsReadable(p)
  {
    hide RankOf, ParseWeekdays, Lists, FirstDayOfWeek;
    NoWeekdays(NamesOf(p));
  }

  /** The expander reads a recurrence exactly when it has a start date and a pattern that can be read. */
  lemma ReadsTheReadable(rec: Recurrence)
    ensures
      Read(rec).Some?
      <==>
      && rec.pattern.Some? && rec.range.Some?
      && DateIn(rec.range.value.startDate).Some? && IsReadable(rec.pattern.value)
  {
    hide ReadKind, DateIn, Interval, Positive, IsReadable;
    if rec.pattern.Some? {
      KindIsReadable(rec.pattern.value);
    }
  }

  // ----- days of a month

  lemma MonthsIs(n: int)
    ensures Months(n) == MonthOf(n) + 1
  {
    hide MonthOf;
  }

  lemma YearIs(n: int)
    ensures DateOf(n).year == YearOf(n)
  {
    hide MonthOf;
  }

  lemma LastOfMonthIs(n: int)
    ensures IsLastOfMonth(n) <==> DayOf(n) == MonthLength(MonthOf(n))
  {
    var t := MonthOf(n);
    MonthStep(t);
    MonthStep(t + 1);
    if n + 1 < FirstOfMonth(t + 1) {
      MonthOfUnique(n + 1, t);
    } else {
      MonthOfUnique(n + 1, t + 1);
    }
    hide MonthOf, FirstOfMonth, MonthLength;
  }

  lemma ClampedIsDayOfMonth(n: int, day: nat)
    requires day >= 1
    ensures IsClampedDay(n, day) <==> IsDayOfMonth(n, day)
  {
    LastOfMonthIs(n);
    hide MonthLength, MonthOf, IsLastOfMonth;
  }

  lemma ListedAreOn(names: seq<string>)
    ensures AreDaysOn(Listed(names), ParseWeekdays(names))
  {
    hide ParseWeekdays, WeekdayOf, Lists;
    forall n
      ensures WeekdayOf(n) in ParseWeekdays(names) <==> Lists(names, n)
    {
      WeekdaysAreNames(names, n);
    }
  }

  lemma RankOfIsNamed(word: string)
    ensures RankOf(word) == RankNamed(word)
  {
    hide Lower;
  }

  lemma RankedIsListed(n: int, names: seq<string>, word: string)
    ensures IsRankedDay(n, ParseWeekdays(names), RankOf(word)) <==> IsWordth(Listed(names), false, n, word)
  {
    ListedAreOn(names);
    RankOfIsNamed(word);
    RankedIsWordth(Listed(names), ParseWeekdays(names), false, n, word);
    RankedInMonth(n, ParseWeekdays(names), RankOf(word));
    hide ParseWeekdays, RankOf, RankNamed, IsWordth, IsRanked, IsRankedDay, Listed;
  }

  /** The days that a kind hits are those the pattern says. */
  lemma HitIsSaid(p: Pattern, n: int)
    requires ReadKind(p).Some?
    ensures IsReadable(p) && (Hit(ReadKind(p).value, n) <==> IsSaid(p, n))
  {
    KindIsReadable(p);
    WeekdaysAreNames(NamesOf(p), n);
    RankedIsListed(n, NamesOf(p), p.index.GetOr("first"));
    hide RankOf, ParseWeekdays, Lists, FirstDayOfWeek, IsWordth, Listed, IsRankedDay, IsDayOfMonth, MonthOf, WeekdayOf;
    if IsGiven(p.dayOfMonth) && Low32(p.dayOfMonth) >= 1 {
      ClampedIsDayOfMonth(n, Low32(p.dayOfMonth));
      hide IsClampedDay;
    }
  }

  // ----- turns

  lemma BeginsIsFirst(p: Pattern, k: int)
    ensures BeginsWeeks(p, k) <==> WeekdayOf(k) == FirstDayOfWeek(p)
  {
    SundayIs(k);
    if p.firstDayOfWeek.Some? {
      var name := p.firstDayOfWeek.value;
      WeekdayIsName(name, k);
      KnownNames(name);
    }
    hide ParseWeekday, WeekdayOf, DayName, IsNamed;
  }

  lemma SundayIs(k: int)
    ensures DayName(k) == "sunday" <==> WeekdayOf(k) == 0
  {
  }

  lemma KnownNames(name: string)
    ensures Lower(name) in WEEK <==> ParseWeekday(name).Some?
  {
  }

  lemma WeekBeginIs(k: int, n: int, first: Weekday)
    requires WeekdayOf(k) == first
    ensures WeekBegin(k, n) == 7 * ((n + 4 - first) / 7) - 4 + first
  {
  }

  lemma SevenTimes(d: int, i: int)
    requires i > 0
    ensures (7 * d) % (7 * i) == 0 <==> d % i == 0
  {
    DivModParts(d, i);
    assert 7 * d == 7 * i * (d / i) + 7 * (d % i);
    DivModUnique(7 * d, 7 * i, d / i, 7 * (d % i));
  }

  lemma EveryIs(p: Pattern)
    ensures Every(p) == Interval(p)
  {
  }

  lemma WeeksApart(p: Pattern, start: int, n: int, k: int)
    requires BeginsWeeks(p, k)
    ensures
      var first := FirstDayOfWeek(p);
      (WeekBegin(k, n) - WeekBegin(k, start)) % (7 * Every(p)) == 0
      <==> ((n + 4 - first) / 7 - (start + 4 - first) / 7) % Interval(p) == 0
  {
    var first := FirstDayOfWeek(p);
    BeginsIsFirst(p, k);
    WeekBeginIs(k, n, first);
    WeekBeginIs(k, start, first);
    EveryIs(p);
    SevenTimes((n + 4 - first) / 7 - (start + 4 - first) / 7, Interval(p));
    hide FirstDayOfWeek, WeekBegin, Every, Interval;
  }

  lemma WeeklyTurn(p: Pattern, start: int, n: int)
    requires p.kind == Some("weekly")
    ensures
      var first := FirstDayOfWeek(p);
      IsItsTurn(p, start, n) <==> ((n + 4 - first) / 7 - (start + 4 - first) / 7) % Interval(p) == 0
  {
    var k: int := FirstDayOfWeek(p) - 4;
    SomeDay(FirstDayOfWeek(p));
    BeginsIsFirst(p, k);
    WeeksApart(p, start, n, k);
    hide FirstDayOfWeek, WeekBegin, Every, Interval, BeginsWeeks;
    forall k | BeginsWeeks(p, k)
      ensures
        var first := FirstDayOfWeek(p);
        (WeekBegin(k, n) - WeekBegin(k, start)) % (7 * Every(p)) == 0
        <==> ((n + 4 - first) / 7 - (start + 4 - first) / 7) % Interval(p) == 0
    {
      WeeksApart(p, start, n, k);
    }
  }

  /** Which kind each type of pattern is read as. */
  lemma KindOfType(p: Pattern)
    requires ReadKind(p).Some?
    ensures
      match ReadKind(p).value
      case Daily => p.kind == Some("daily")
      case Weekly(_, first) => p.kind == Some("weekly") && first == FirstDayOfWeek(p)
      case AbsoluteMonthly(_) => p.kind == Some("absoluteMonthly")
      case RelativeMonthly(_, _) => p.kind == Some("relativeMonthly")
      case AbsoluteYearly(_, _) => p.kind == Some("absoluteYearly")
      case RelativeYearly(_, _, _) => p.kind == Some("relativeYearly")
  {
    hide Weekdays, RankOf, FirstDayOfWeek;
  }

  /** The visited periods are those that the pattern comes to. */
  lemma VisitedIsTurn(p: Pattern, s: Series, n: int)
    requires s.Valid() && ReadKind(p) == Some(s.kind) && s.interval == Interval(p)
    ensures Visited(s, PeriodOf(s.kind, n)) <==> IsItsTurn(p, s.start, n)
  {
    KindOfType(p);
    EveryIs(p);
    hide FirstDayOfWeek, Every, Interval, ReadKind, BeginsWeeks, Apart;
    if s.kind.Weekly? {
      WeeklyTurn(p, s.start, n);
      hide IsItsTurn;
    } else {
      ApartIs(p, s.kind, s.start, n);
      hide PeriodOf;
    }
  }

  lemma ApartIs(p: Pattern, kind: Kind, start: int, n: int)
    requires ReadKind(p) == Some(kind) && !kind.Weekly?
    ensures Apart(p, start, n) == PeriodOf(kind, n) - PeriodOf(kind, start) && p.kind != Some("weekly")
  {
    hide *;
    if kind.Daily? {
      DaysApart(p, start, n);
    } else if kind.AbsoluteMonthly? || kind.RelativeMonthly? {
      MonthsApart(p, kind, start, n);
    } else {
      YearsApart(p, kind, start, n);
    }
  }

  lemma DaysApart(p: Pattern, start: int, n: int)
    requires ReadKind(p) == Some(Daily)
    ensures Apart(p, start, n) == PeriodOf(Daily, n) - PeriodOf(Daily, start) && p.kind != Some("weekly")
  {
    KindOfType(p);
    hide ReadKind;
  }

  lemma MonthsApart(p: Pattern, kind: Kind, start: int, n: int)
    requires ReadKind(p) == Some(kind) && (kind.AbsoluteMonthly? || kind.RelativeMonthly?)
    ensures Apart(p, start, n) == PeriodOf(kind, n) - PeriodOf(kind, start) && p.kind != Some("weekly")
  {
    KindOfType(p);
    MonthsIs(n);
    MonthsIs(start);
    hide ReadKind, Months, MonthOf;
  }

  lemma YearsApart(p: Pattern, kind: Kind, start: int, n: int)
    requires ReadKind(p) == Some(kind) && (kind.AbsoluteYearly? || kind.RelativeYearly?)
    ensures Apart(p, start, n) == PeriodOf(kind, n) - PeriodOf(kind, start) && p.kind != Some("weekly")
  {
    KindOfType(p);
    YearIs(n);
    YearIs(start);
    YearsWritten(p, start, n);
    hide ReadKind, YearOf, DateOf, Apart;
  }

  lemma YearsWritten(p: Pattern, start: int, n: int)
    requires p.kind == Some("absoluteYearly") || p.kind == Some("relativeYearly")
    ensures Apart(p, start, n) == DateOf(n).year - DateOf(start).year && p.kind != Some("weekly")
  {
    hide DateOf, Months;
  }

  // ----- the main results

  predicate IsPositive(v: Option<int>) {
    IsGiven(v) && v.value > 0
  }

  /** A day on which it is the pattern's turn and which the pattern says, from the start to the end date. */
  ghost predicate IsDue(rec: Recurrence, n: int)
    requires Read(rec).Some?
  {
    var p, start, end := rec.pattern.value, DateIn(rec.range.value.startDate).value, DateIn(rec.range.value.endDate);
    start <= n && (end.Some? ==> n <= end.value) && IsItsTurn(p, start, n) && IsSaid(p, n)
  }

  lemma DueIsOccurring(rec: Recurrence, n: int)
    requires Read(rec).Some?
    ensures Occurs(Read(rec).value, n) <==> IsDue(rec, n)
  {
    HitIsSaid(rec.pattern.value, n);
    VisitedIsTurn(rec.pattern.value, Read(rec).value, n);
    hide ReadKind, Interval, DateIn, Hit, PeriodOf, Visited, IsItsTurn, IsSaid, IsReadable;
  }

  /** Without a number of occurrences, and in a window that ends less than 200,000 days after the start, the expander
      returns the days that are due. */
  lemma ExpandsAsWritten(rec: Recurrence, lo: int, hi: int, n: int)
    requires Read(rec).Some? && !IsPositive(rec.range.value.numberOfOccurrences)
    requires hi - DateIn(rec.range.value.startDate).value < 200000
    ensures n in Expansion(Read(rec).value, lo, hi) <==> lo <= n <= hi && IsDue(rec, n)
  {
    ExpansionIsOccurrences(Read(rec).value, lo, hi);
    DueIsOccurring(rec, n);
    hide ReadKind, Interval, DateIn, Occurs, IsDue, Expansion;
  }

  /** How many of the days from `a` up to but not including `b` are due. */
  ghost function DueBetween(rec: Recurrence, a: int, b: int): nat
    requires Read(rec).Some?
    decreases b - a
  {
    if a >= b then 0 else DueBetween(rec, a, b - 1) + if IsDue(rec, b - 1) then 1 else 0
  }

  lemma {:induction false} DueIsTally(rec: Recurrence, a: int, b: int)
    requires Read(rec).Some? && !Read(rec).value.kind.Weekly?
    ensures DueBetween(rec, a, b) == Tally(Read(rec).value, a, b)
    decreases b - a
  {
    hide Read, IsDue, Occurs;
    if a < b {
      DueIsTally(rec, a, b - 1);
      DueIsOccurring(rec, b - 1);
    }
  }

  /** With a number of occurrences it returns the first so many of them; weekly patterns, which stop at the end of a
      week, are left to `WeeklyCounts`. */
  lemma CountsAsWritten(rec: Recurrence, lo: int, hi: int, n: int)
    requires Read(rec).Some? && IsPositive(rec.range.value.numberOfOccurrences)
    requires rec.pattern.value.kind != Some("weekly") && n - DateIn(rec.range.value.startDate).value < 200000
    ensures
      n in Expansion(Read(rec).value, lo, hi)
      <==>
      && lo <= n <= hi && IsDue(rec, n)
      && DueBetween(rec, DateIn(rec.range.value.startDate).value, n) < rec.range.value.numberOfOccurrences.value
  {
    var s := Read(rec).value;
    KindOfType(rec.pattern.value);
    ReadsCount(rec);
    hide ReadKind, Interval, DateIn, Occurs, IsDue, Expansion, Read, Member, Positive;
    ExpansionElements(s, lo, hi);
    CountTakesFirst(s, n);
    DueIsOccurring(rec, n);
    DueIsTally(rec, s.start, n);
  }

  lemma ReadsCount(rec: Recurrence)
    requires Read(rec).Some?
    ensures rec.pattern.Some? && rec.range.Some? && DateIn(rec.range.value.startDate) == Some(Read(rec).value.start)
    ensures ReadKind(rec.pattern.value) == Some(Read(rec).value.kind)
    ensures
      Read(rec).value.count
      == if IsPositive(rec.range.value.numberOfOccurrences) then rec.range.value.numberOfOccurrences else None
  {
    hide ReadKind, Interval, DateIn;
  }

  /** A daily series without an end goes on for 200,000 days, and no longer. */
  lemma DailyStops(s: Series, lo: int, hi: int, n: int)
    requires s == Series(Daily, 1, s.start, None, None)
    ensures n in Expansion(s, lo, hi) <==> lo <= n <= hi && s.start <= n < s.start + 200000
  {
    ExpansionElements(s, lo, hi);
  }
}
