/** The two converters of recurrences, for Exchange Web Services (src/exchange_ews/recurrence.rs) and for Graph
    (src/exchange_graph/recurrence.rs), on recurrences that say the same. */
module EwsRules {
  import opened Wrappers
  import opened Text
  import opened Calendar
  import opened DayNames
  import opened RankWords
  import opened WrittenPatterns
  import opened DateText
  import opened Series
  import opened Recurrence
  import opened Translate
  import opened EwsRecurrence
  import opened EwsWords

  // ----- what two rules have to share to mean the same (section 4.3.3 of RFC 8984)

  /** An interval that is missing or 0 is 1. */
  function RuleInterval(rule: Rule): int {
    if rule.interval.Some? && rule.interval.value > 0 then rule.interval.value else 1
  }

  /** Weeks begin on Monday unless the rule says otherwise. */
  function RuleFirstDay(rule: Rule): Weekday {
    match rule.firstDayOfWeek
    case Some(day) => ShortWeekday(day).GetOr(1)
    case None => 1
  }

  /** Two rules have the same frequency, interval, months and days; where weeks begin matters only to weekly rules that
      skip weeks. */
  ghost predicate SamePeriods(a: Rule, b: Rule) {
    && a.frequency == b.frequency
    && RuleInterval(a) == RuleInterval(b)
    && (a.frequency == Some("weekly") && RuleInterval(a) > 1 ==> RuleFirstDay(a) == RuleFirstDay(b))
    && a.byMonthDay == b.byMonthDay
    && a.byMonth == b.byMonth
    && SelectSame(a, b)
  }

  /** And the same end. */
  ghost predicate SameRule(a: Rule, b: Rule) {
    SamePeriods(a, b) && a.count == b.count && a.until == b.until
  }

  ghost predicate SelectSame(a: Rule, b: Rule) {
    forall n :: Selects(a, n) <==> Selects(b, n)
  }

  // ----- recurrences that say the same

  /** The pattern lists the days that the Exchange names mean. */
  ghost predicate SameDays(p: Pattern, names: seq<string>) {
    Listed(NamesOf(p)) == Named(names)
  }

  predicate SameInterval(p: Pattern, interval: nat) {
    Every(p) == if interval > 0 then interval else 1
  }

  ghost predicate NoDays(p: Pattern) {
    Listed(NamesOf(p)) == iset{}
  }

  /** A number that is missing, 0 or beyond 64 bits says nothing. */
  predicate NoNumber(v: Option<int>) {
    v.Some? ==> v.value == 0 || v.value < -0x8000_0000_0000_0000 || v.value >= 0x8000_0000_0000_0000
  }

  predicate SameDayOfMonth(p: Pattern, day: nat) {
    p.dayOfMonth == Some(day) && day < 0x8000_0000_0000_0000
  }

  ghost predicate SameMonth(p: Pattern, month: string) {
    match MonthCalled(month)
    case Some(m) => p.month == Some(m)
    case None => NoNumber(p.month)
  }

  /** Both have the same word for the rank, in letters of any case, and some day is named. */
  ghost predicate SameRank(p: Pattern, index: string, names: seq<string>) {
    && IsRankWord(index) && p.index.Some? && Lower(p.index.value) == Lower(index)
    && Named(names) != iset{} && SameDays(p, names)
  }

  /** Both patterns say the same, and the Graph one nothing besides. */
  ghost predicate SamePattern(raw: RawPattern, p: Pattern) {
    match raw
    case RawDaily(interval) =>
      p.kind == Some("daily") && SameInterval(p, interval)
      && NoDays(p) && NoNumber(p.dayOfMonth) && NoNumber(p.month)
    case RawWeekly(interval, names) =>
      p.kind == Some("weekly") && SameInterval(p, interval)
      && SameDays(p, names) && NoNumber(p.dayOfMonth) && NoNumber(p.month)
    case RawAbsoluteMonthly(interval, day) =>
      p.kind == Some("absoluteMonthly") && SameInterval(p, interval)
      && NoDays(p) && SameDayOfMonth(p, day) && NoNumber(p.month)
    case RawRelativeMonthly(interval, index, names) =>
      p.kind == Some("relativeMonthly") && SameInterval(p, interval)
      && SameRank(p, index, names) && NoNumber(p.dayOfMonth) && NoNumber(p.month)
    case RawAbsoluteYearly(month, day) =>
      p.kind == Some("absoluteYearly") && SameInterval(p, 1)
      && NoDays(p) && SameDayOfMonth(p, day) && SameMonth(p, month)
    case RawRelativeYearly(month, index, names) =>
      p.kind == Some("relativeYearly") && SameInterval(p, 1)
      && SameRank(p, index, names) && NoNumber(p.dayOfMonth) && SameMonth(p, month)
  }

  predicate SameRange(raw: Option<RawRange>, range: Range) {
    var kind := range.kind.GetOr("noEnd");
    match raw
    case None => kind == "noEnd"
    case Some(RawNoEnd) => kind == "noEnd"
    case Some(RawEndDate(end)) => kind == "endDate" && range.endDate == Some(end)
    case Some(RawNumbered(n)) =>
      kind == "numbered" && range.numberOfOccurrences == Some(n) && n < 0x1_0000_0000_0000_0000
  }

  ghost predicate SameRecurrence(raw: RawRecurrence, g: Recurrence) {
    && raw.pattern.Some? && g.pattern.Some? && g.range.Some?
    && SamePattern(raw.pattern.value, g.pattern.value)
    && SameRange(raw.range, g.range.value)
  }

  // ----- the selected days

  lemma {:induction false} MatchesByMembers(v: seq<Weekday>, w: seq<Weekday>, a: int, b: int)
    requires forall d: Weekday :: d in v <==> d in w
    ensures Matches(v, a, b) == Matches(w, a, b)
    decreases b - a
  {
    hide WeekdayOf;
    if a < b {
      MatchesByMembers(v, w, a, b - 1);
    }
  }

  /** Which day has a rank depends only on which weekdays are listed. */
  lemma RankByMembers(v: seq<Weekday>, w: seq<Weekday>, rank: Rank, inYear: bool, n: int)
    requires forall d: Weekday :: d in v <==> d in w
    ensures IsRanked(inYear, n, v, rank) <==> IsRanked(inYear, n, w, rank)
  {
    hide Begin, End, WeekdayOf, Matches;
    MatchesByMembers(v, w, Begin(inYear, n), n);
    MatchesByMembers(v, w, n + 1, End(inYear, n));
  }

  /** What `SameDays` and `SameRank` mean for the two tables of weekdays and the two of ranks. */
  lemma SameDaysAre(p: Pattern, names: seq<string>)
    requires SameDays(p, names)
    ensures forall w: Weekday :: w in Weekdays(p) <==> w in NamedDays(names)
  {
    hide Named, NamedDays, ParseWeekdays, Listed, WeekdayOf;
    ListedAreOn(NamesOf(p));
    NamedAreOn(names);
    forall w: Weekday
      ensures w in Weekdays(p) <==> w in NamedDays(names)
    {
      var k: int := w;
      SomeDay(k);
      assert k - 4 in Listed(NamesOf(p)) <==> k - 4 in Named(names);
    }
  }

  lemma SameRankIs(p: Pattern, index: string, names: seq<string>)
    requires SameRank(p, index, names)
    ensures HasRank(p) && NthOfPeriod(index).Some? && ExpandedDays(names) != []
    ensures SetPositionFor(p.index.value) == NthOfPeriod(index)
    ensures RankOf(p.index.value) == RankAt(NthOfPeriod(index).value)
  {
    SameDaysAre(p, names);
    NothingNamed(names);
    var w := SomeDayIsNamed(names);
    assert w in Weekdays(p);
    RankWordsAreWords();
    hide Weekdays, ExpandedDays, NamedDays, Lower;
  }

  /** Relative patterns: the two rules select the same days exactly when a name stands for a set, or all the days that
      are named have one name. */
  lemma RelativeRulesAgree(g: Recurrence, rule: Rule, names: seq<string>, index: string)
    requires g.pattern.Some? && g.range.Some? && IsRelative(g.pattern.value)
    requires SameRank(g.pattern.value, index, names) && rule.bySetPosition == None
    requires CountsInYear(rule) == CountsInYear(Convert(g).value)
    ensures
      SelectSame(RelativeByDay(rule, names, index), Convert(g).value)
      <==>
      HasSetName(names) || AreAlike(Named(names))
  {
    assert Convert(g).Some?;
    var p := g.pattern.value;
    SameRankIs(p, index, names);
    SameDaysAre(p, names);
    HasSetIs(names);
    OneIsNamed(names);
    hide RelativeByDay, ExpandedDays, HasSet, Selects, IsRanked, CountsInYear, NonZero, Weekdays, NamedDays, Convert,
      RankOf, WeekdayOf, SelectSame, SetPositionFor, NthOfPeriod, RankAt, HasSetName, AreAlike, Named, HasRank,
      SameRank;
    var a, b := RelativeByDay(rule, names, index), Convert(g).value;
    var rank, inYear := RankAt(NthOfPeriod(index).value), CountsInYear(rule);
    forall n
      ensures Selects(b, n) <==> IsRanked(inYear, n, NamedDays(names), rank)
    {
      GraphRuleSelects(g, n);
      RankByMembers(Weekdays(p), NamedDays(names), rank, inYear, n);
    }
    ConvertersAgree(rule, names, index);
    AgreementIsSame(a, b, inYear, NamedDays(names), rank);
  }

  lemma SomeDayIsNamed(names: seq<string>) returns (w: Weekday)
    requires ExpandedDays(names) != []
    ensures w in NamedDays(names)
  {
    if |ExpandedDays(names)| == 1 {
      NamedOnce(names);
      hide *;
      w := NamedDays(names)[0];
    } else {
      var v;
      v, w := NamedTwice(names);
    }
  }

  lemma AgreementIsSame(a: Rule, b: Rule, inYear: bool, days: seq<Weekday>, rank: Rank)
    requires forall n :: Selects(b, n) <==> IsRanked(inYear, n, days, rank)
    ensures SelectSame(a, b) <==> forall n :: Selects(a, n) <==> IsRanked(inYear, n, days, rank)
  {
    hide Selects, IsRanked;
  }

  /** Without positions a rule selects the days on its weekdays, and all days without weekdays. */
  lemma PlainSelects(rule: Rule, n: int)
    requires rule.bySetPosition == None && Plain(rule.byDay.GetOr([]))
    ensures Selects(rule, n) <==> (rule.byDay.GetOr([]) == [] || WeekdayOf(n) in DaysOf(rule.byDay.GetOr([])))
  {
    hide Candidate, DaysOf, WeekdayOf, CountsInYear;
    PlainCandidate(rule.byDay.GetOr([]), CountsInYear(rule), n);
  }

  lemma PlainRulesAgree(a: Rule, b: Rule)
    requires a.bySetPosition == None && Plain(a.byDay.GetOr([]))
    requires b.bySetPosition == None && Plain(b.byDay.GetOr([]))
    requires a.byDay.GetOr([]) == [] <==> b.byDay.GetOr([]) == []
    requires forall w: Weekday :: w in DaysOf(a.byDay.GetOr([])) <==> w in DaysOf(b.byDay.GetOr([]))
    ensures SelectSame(a, b)
  {
    hide Selects, DaysOf, WeekdayOf;
    forall n
      ensures Selects(a, n) <==> Selects(b, n)
    {
      PlainSelects(a, n);
      PlainSelects(b, n);
    }
  }

  // ----- the whole rules

  /** What the rule made from a Graph recurrence says. */
  lemma ConvertSays(g: Recurrence)
    requires g.pattern.Some? && g.range.Some?
    ensures Convert(g).Some?
    ensures
      var p, rule := g.pattern.value, Convert(g).value;
      var byDay := ShortDays(p.daysOfWeek.GetOr([]));
      && rule.frequency == Some(FrequencyFor(p))
      && RuleInterval(rule) == Interval(p)
      && rule.byMonthDay == (if NonZero(p.dayOfMonth).Some? then Some([NonZero(p.dayOfMonth).value]) else None)
      && rule.byMonth
         == (if NonZero(p.month).Some? then Some([MonthValue.Text(IntText(NonZero(p.month).value))]) else None)
      && (!IsRelative(p) ==> rule.bySetPosition == None)
      && rule.byDay.GetOr([]) == byDay && Plain(byDay) && DaysOf(byDay) == Weekdays(p)
      && (byDay == [] <==> Weekdays(p) == [])
  {
    var p := g.pattern.value;
    ShortDaysPlain(p.daysOfWeek.GetOr([]));
    ShortDaysAreNamed(p.daysOfWeek.GetOr([]));
    WeekdaysSurvive(p.daysOfWeek.GetOr([]));
    hide DaysOf, ShortDays, IntText, RecurrenceUntil, SetPositionFor, FrequencyFor, DayShort, LongDays, ParseWeekdays,
      IsRelative;
  }

  lemma WeekBegins(g: Recurrence)
    requires g.pattern.Some? && g.range.Some?
    ensures Convert(g).Some?
    ensures
      var p := g.pattern.value;
      RuleFirstDay(Convert(g).value)
      == (if p.firstDayOfWeek.Some? then ParseWeekday(p.firstDayOfWeek.value).GetOr(1) else 1)
  {
    hide ShortDays, IntText, RecurrenceUntil, SetPositionFor, FrequencyFor, LongDays, ParseWeekdays, IsRelative;
    var p := g.pattern.value;
    if p.firstDayOfWeek.Some? {
      ShortOfName(p.firstDayOfWeek.value);
    }
    hide DayShort, ShortWeekday, ParseWeekday;
  }

  lemma IntervalSaid(rule: Rule, interval: nat, p: Pattern)
    requires SameInterval(p, interval) && rule.interval.None?
    ensures RuleInterval(WithInterval(rule, interval)) == Interval(p)
  {
    EveryIs(p);
  }

  lemma NoDaysAre(p: Pattern)
    requires NoDays(p)
    ensures Weekdays(p) == []
  {
    NoWeekdays(NamesOf(p));
    hide Lists, ParseWeekdays;
    forall n
      ensures !Lists(NamesOf(p), n)
    {
      assert n !in Listed(NamesOf(p));
    }
  }

  lemma NumbersSaid(p: Pattern)
    ensures NoNumber(p.dayOfMonth) <==> NonZero(p.dayOfMonth) == None
    ensures NoNumber(p.month) <==> NonZero(p.month) == None
  {
  }

  lemma DayOfMonthSaid(p: Pattern, day: nat)
    requires SameDayOfMonth(p, day)
    ensures NonZero(p.dayOfMonth) == if day == 0 then None else Some(day)
  {
  }

  lemma MonthSaid(p: Pattern, month: string)
    requires SameMonth(p, month)
    ensures NonZero(p.month) == MonthNamed(month)
  {
    MonthNamedIs(month);
    NumbersSaid(p);
    hide MonthNamed;
  }

  /** When the weeks of a pattern begin as the Exchange rules say, on Monday: no other day is named. */
  predicate BeginsMonday(p: Pattern) {
    p.firstDayOfWeek.Some? && Lower(p.firstDayOfWeek.value) in WEEK ==> Lower(p.firstDayOfWeek.value) == "monday"
  }

  lemma BeginsMondayIs(p: Pattern)
    ensures
      BeginsMonday(p) <==> (p.firstDayOfWeek.Some? ==> ParseWeekday(p.firstDayOfWeek.value).GetOr(1) == 1)
  {
    hide Lower;
  }

  /** What keeps the two rules from meaning the same. */
  ghost predicate AgreesOn(raw: RawPattern, p: Pattern) {
    match raw
    case RawDaily(_) => true
    case RawWeekly(interval, _) => interval > 1 ==> BeginsMonday(p)
    case RawAbsoluteMonthly(_, day) => day != 0
    case RawRelativeMonthly(_, _, names) => HasSetName(names) || AreAlike(Named(names))
    case RawAbsoluteYearly(_, day) => day != 0
    case RawRelativeYearly(_, _, names) => HasSetName(names) || AreAlike(Named(names))
  }

  lemma KindsHaveFrequency(p: Pattern)
    ensures p.kind == Some("daily") ==> FrequencyFor(p) == "daily" && !IsRelative(p)
    ensures p.kind == Some("weekly") ==> FrequencyFor(p) == "weekly" && !IsRelative(p)
    ensures p.kind == Some("absoluteMonthly") ==> FrequencyFor(p) == "monthly" && !IsRelative(p)
    ensures p.kind == Some("relativeMonthly") ==> FrequencyFor(p) == "monthly" && IsRelative(p)
    ensures p.kind == Some("absoluteYearly") ==> FrequencyFor(p) == "yearly" && !IsRelative(p)
    ensures p.kind == Some("relativeYearly") ==> FrequencyFor(p) == "yearly" && IsRelative(p)
  {
  }

  lemma NoDaysListed()
    ensures DaysOf([]) == []
  {
  }

  lemma DailyAgree(raw: RawPattern, g: Recurrence)
    requires raw.RawDaily? && g.pattern.Some? && g.range.Some? && SamePattern(raw, g.pattern.value)
    ensures Convert(g).Some? && SamePeriods(PatternRule(raw), Convert(g).value)
  {
    hide SelectSame, Weekdays, DaysOf, Convert, RuleInterval, FrequencyFor, NoDays, NoNumber, NonZero;
    var p := g.pattern.value;
    NoDaysAre(p);
    NumbersSaid(p);
    ConvertSays(g);
    KindsHaveFrequency(p);
    NoDaysListed();
    IntervalSaid(EMPTY_RULE.(frequency := Some("daily")), raw.interval, p);
    PlainRulesAgree(PatternRule(raw), Convert(g).value);
  }

  lemma AbsoluteAgree(raw: RawPattern, g: Recurrence)
    requires raw.RawAbsoluteMonthly? || raw.RawAbsoluteYearly?
    requires g.pattern.Some? && g.range.Some? && SamePattern(raw, g.pattern.value)
    ensures Convert(g).Some? && (SamePeriods(PatternRule(raw), Convert(g).value) <==> raw.dayOfMonth != 0)
  {
    hide SelectSame, Weekdays, DaysOf, Convert, RuleInterval, FrequencyFor, IntText, MonthNamed, NoDays, NoNumber,
      NonZero, SameDayOfMonth, SameMonth;
    var p := g.pattern.value;
    NoDaysAre(p);
    NumbersSaid(p);
    DayOfMonthSaid(p, raw.dayOfMonth);
    if raw.RawAbsoluteYearly? {
      MonthSaid(p, raw.month);
    }
    ConvertSays(g);
    KindsHaveFrequency(p);
    NoDaysListed();
    if raw.RawAbsoluteMonthly? {
      IntervalSaid(EMPTY_RULE.(frequency := Some("monthly")), raw.interval, p);
      SameIntervalField(PatternRule(raw), WithInterval(EMPTY_RULE.(frequency := Some("monthly")), raw.interval));
    } else {
      IntervalSaid(EMPTY_RULE.(frequency := Some("yearly")), 1, p);
      SameIntervalField(PatternRule(raw), EMPTY_RULE);
      SameIntervalField(WithInterval(EMPTY_RULE.(frequency := Some("yearly")), 1), EMPTY_RULE);
    }
    PlainRulesAgree(PatternRule(raw), Convert(g).value);
  }

  lemma SameIntervalField(a: Rule, b: Rule)
    ensures a.interval == b.interval ==> RuleInterval(a) == RuleInterval(b)
  {
  }

  lemma WeeklyAgree(raw: RawPattern, g: Recurrence)
    requires raw.RawWeekly? && g.pattern.Some? && g.range.Some? && SamePattern(raw, g.pattern.value)
    ensures
      Convert(g).Some?
      && (SamePeriods(PatternRule(raw), Convert(g).value) <==> (raw.interval > 1 ==> BeginsMonday(g.pattern.value)))
  {
    hide SelectSame, Weekdays, DaysOf, Convert, FrequencyFor, WeeklyDays, NamedDays, Interval, NoNumber, NonZero,
      SameDays, BeginsMonday;
    var p := g.pattern.value;
    NumbersSaid(p);
    SameDaysAre(p, raw.daysOfWeek);
    BeginsMondayIs(p);
    WeeklyDaysEmpty(p, raw.daysOfWeek);
    ConvertSays(g);
    WeekBegins(g);
    KindsHaveFrequency(p);
    NoDaysListed();
    IntervalSaid(EMPTY_RULE.(frequency := Some("weekly")), raw.interval, p);
    var plain := WithInterval(EMPTY_RULE.(frequency := Some("weekly")), raw.interval);
    SameIntervalField(PatternRule(raw), plain);
    hide RuleInterval;
    EntriesPlain(WeeklyDays(raw.daysOfWeek));
    forall w: Weekday
      ensures w in DaysOf(PatternRule(raw).byDay.GetOr([])) <==> w in Weekdays(p)
    {
      WeeklyDaysAreNamed(raw.daysOfWeek, w);
    }
    PlainRulesAgree(PatternRule(raw), Convert(g).value);
  }

  lemma WeeklyDaysEmpty(p: Pattern, names: seq<string>)
    requires SameDays(p, names)
    ensures WeeklyDays(names) == [] <==> Weekdays(p) == []
  {
    hide WeeklyDays, ExpandedDays, NamedDays, Weekdays, Named, Listed;
    SameDaysAre(p, names);
    NothingNamed(names);
    if ExpandedDays(names) == [] {
      NamedNothing(names);
      SomeMember(Weekdays(p));
    } else {
      var w := SomeDayIsNamed(names);
    }
  }

  lemma SomeMember(s: seq<Weekday>)
    ensures s == [] <==> forall w: Weekday :: w !in s
  {
    assert s != [] ==> s[0] in s;
  }

  lemma NamedNothing(names: seq<string>)
    requires ExpandedDays(names) == []
    ensures NamedDays(names) == []
  {
  }

  lemma RelativeAgree(raw: RawPattern, g: Recurrence)
    requires raw.RawRelativeMonthly? || raw.RawRelativeYearly?
    requires g.pattern.Some? && g.range.Some? && SamePattern(raw, g.pattern.value)
    ensures
      Convert(g).Some?
      && (SamePeriods(PatternRule(raw), Convert(g).value)
          <==>
          HasSetName(raw.daysOfWeek) || AreAlike(Named(raw.daysOfWeek)))
  {
    hide SelectSame, Weekdays, DaysOf, Convert, FrequencyFor, IntText, MonthNamed, HasSet, ExpandedDays, SetPositionFor,
      NthOfPeriod, HasSetName, AreAlike, Named, SameRank, NoNumber, NonZero, SameMonth;
    var p := g.pattern.value;
    NumbersSaid(p);
    if raw.RawRelativeYearly? {
      MonthSaid(p, raw.month);
    }
    ConvertSays(g);
    KindsHaveFrequency(p);
    var frequency := if raw.RawRelativeMonthly? then "monthly" else "yearly";
    var empty := EMPTY_RULE.(frequency := Some(frequency));
    var plain := if raw.RawRelativeMonthly? then WithInterval(empty, raw.interval) else WithMonth(empty, raw.month);
    assert PatternRule(raw) == RelativeByDay(plain, raw.daysOfWeek, raw.index);
    IntervalSaid(empty, if raw.RawRelativeMonthly? then raw.interval else 1, p);
    SameIntervalField(PatternRule(raw), plain);
    SameIntervalField(WithInterval(empty, 1), plain);
    RelativeRulesAgree(g, plain, raw.daysOfWeek, raw.index);
  }

  lemma PatternsAgree(raw: RawPattern, g: Recurrence)
    requires g.pattern.Some? && g.range.Some? && SamePattern(raw, g.pattern.value)
    ensures
      Convert(g).Some? && (SamePeriods(PatternRule(raw), Convert(g).value) <==> AgreesOn(raw, g.pattern.value))
  {
    hide SamePattern, SamePeriods, PatternRule, Convert, HasSetName, Named, AreAlike, BeginsMonday;
    match raw
    case RawDaily(_) => DailyAgree(raw, g);
    case RawWeekly(_, _) => WeeklyAgree(raw, g);
    case RawAbsoluteMonthly(_, _) => AbsoluteAgree(raw, g);
    case RawRelativeMonthly(_, _, _) => RelativeAgree(raw, g);
    case RawAbsoluteYearly(_, _) => AbsoluteAgree(raw, g);
    case RawRelativeYearly(_, _, _) => RelativeAgree(raw, g);
  }

  /** The end of the range is the same in both rules. */
  lemma EndsAgree(raw: RawRecurrence, g: Recurrence)
    requires SameRecurrence(raw, g)
    ensures ToRule(raw).Some? && Convert(g).Some?
    ensures ToRule(raw).value.count == Convert(g).value.count && ToRule(raw).value.until == Convert(g).value.until
    ensures
      var rule := ToRule(raw).value;
      rule == PatternRule(raw.pattern.value).(count := rule.count, until := rule.until)
  {
    NoEndYet(raw.pattern.value);
    hide SamePattern, PatternRule, RecurrenceUntil, ShortDays, IntText, SetPositionFor, FrequencyFor, DayShort, NonZero,
      IsRelative;
  }

  lemma NoEndYet(raw: RawPattern)
    ensures PatternRule(raw).count == None && PatternRule(raw).until == None
  {
    hide ExpandedDays, HasSet, NthOfPeriod, MonthNamed, WeeklyDays, IntText;
  }

  lemma EndDoesNotMatter(a: Rule, b: Rule, count: Option<int>, until: Option<string>)
    ensures SamePeriods(a.(count := count, until := until), b) <==> SamePeriods(a, b)
  {
    hide Candidate, AtPosition;
    var ended := a.(count := count, until := until);
    assert forall n :: Selects(ended, n) <==> Selects(a, n);
    hide Selects;
  }

  /** From recurrences that say the same the two converters make rules that mean the same, with a few exceptions: weeks
      skipped from another day than Monday on, a day of the month 0, and several single weekdays in a relative
      pattern. */
  lemma ConvertersMeanTheSame(raw: RawRecurrence, g: Recurrence)
    requires SameRecurrence(raw, g)
    ensures ToRule(raw).Some? && Convert(g).Some?
    ensures SameRule(ToRule(raw).value, Convert(g).value) <==> AgreesOn(raw.pattern.value, g.pattern.value)
  {
    EndsAgree(raw, g);
    PatternsAgree(raw.pattern.value, g);
    var rule := ToRule(raw).value;
    EndDoesNotMatter(PatternRule(raw.pattern.value), Convert(g).value, rule.count, rule.until);
    hide SamePeriods, ToRule, PatternRule, Convert, AgreesOn;
  }
}
