/** What a rule made from an Exchange recurrence (src/exchange_ews/recurrence.rs:12-108) says, in terms of the words and
    numbers of the recurrence. */
module EwsRuleMeaning {
  import opened Wrappers
  import opened Text
  import opened Calendar
  import opened DayNames
  import opened RankWords
  import opened Translate
  import opened EwsRecurrence
  import opened EwsWords
  import opened EwsRules

  function FrequencySaid(raw: RawPattern): string {
    match raw
    case RawDaily(_) => "daily"
    case RawWeekly(_, _) => "weekly"
    case RawAbsoluteMonthly(_, _) => "monthly"
    case RawRelativeMonthly(_, _, _) => "monthly"
    case RawAbsoluteYearly(_, _) => "yearly"
    case RawRelativeYearly(_, _, _) => "yearly"
  }

  function GivenInterval(raw: RawPattern): nat {
    if raw.RawAbsoluteYearly? || raw.RawRelativeYearly? || raw.interval == 0 then 1 else raw.interval
  }

  /** The month by its number, if the pattern names one. */
  ghost function MonthText(raw: RawPattern): Option<seq<MonthValue>> {
    if raw.RawAbsoluteYearly? || raw.RawRelativeYearly? then
      match MonthCalled(raw.month)
      case Some(m) => Some([MonthValue.Text(Decimal(m))])
      case None => None
    else None
  }

  /** The days that the words of the pattern mean; what they leave open is left to the other fields. */
  ghost predicate IsMeant(raw: RawPattern, n: int) {
    match raw
    case RawWeekly(_, names) => Named(names) == iset{} || n in Named(names)
    case RawRelativeMonthly(_, word, names) => IsRelativelyMeant(names, word, false, n)
    case RawRelativeYearly(month, word, names) => IsRelativelyMeant(names, word, MonthCalled(month).None?, n)
    case _ => true
  }

  /** The ranked one of a set of days, or the ranked one of each weekday that is named; without a rank all of them. */
  ghost predicate IsRelativelyMeant(names: seq<string>, word: string, inYear: bool, n: int) {
    if Named(names) == iset{} then true
    else if !IsRankWord(word) then n in Named(names)
    else if HasSetName(names) then IsWordth(Named(names), inYear, n, word)
    else n in Named(names) && IsWordth(Like(n), inYear, n, word)
  }

  /** The rule has the pattern's frequency, interval, day of the month and month, and selects the days that the pattern
      means. */
  lemma EwsRuleSays(raw: RawPattern, n: int)
    ensures
      var rule := PatternRule(raw);
      && rule.frequency == Some(FrequencySaid(raw))
      && RuleInterval(rule) == GivenInterval(raw)
      && rule.byMonthDay
         == (if raw.RawAbsoluteMonthly? || raw.RawAbsoluteYearly? then Some([raw.dayOfMonth]) else None)
      && rule.byMonth == MonthText(raw)
      && (Selects(rule, n) <==> IsMeant(raw, n))
  {
    match raw
    case RawDaily(_) => DailySays(raw, n);
    case RawWeekly(_, _) => WeeklySays(raw, n);
    case RawAbsoluteMonthly(_, _) => DailySays(raw, n);
    case RawAbsoluteYearly(_, _) => AbsoluteYearlySays(raw, n);
    case _ => RelativeSays(raw, n);
  }

  lemma DailySays(raw: RawPattern, n: int)
    requires raw.RawDaily? || raw.RawAbsoluteMonthly?
    ensures
      var rule := PatternRule(raw);
      && rule.frequency == Some(FrequencySaid(raw)) && RuleInterval(rule) == GivenInterval(raw)
      && rule.byMonthDay == (if raw.RawAbsoluteMonthly? then Some([raw.dayOfMonth]) else None)
      && rule.byMonth == None && Selects(rule, n)
  {
    hide CountsInYear, Candidate;
  }

  lemma WeeklySays(raw: RawPattern, n: int)
    requires raw.RawWeekly?
    ensures
      var rule := PatternRule(raw);
      && rule.frequency == Some("weekly") && RuleInterval(rule) == GivenInterval(raw)
      && rule.byMonthDay == None && rule.byMonth == None
      && (Selects(rule, n) <==> IsMeant(raw, n))
  {
    var names := raw.daysOfWeek;
    NothingNamed(names);
    EntriesPlain(WeeklyDays(names));
    PlainSelects(PatternRule(raw), n);
    NamedAreOn(names);
    WeeklyDaysAreNamed(names, WeekdayOf(n));
    assert n in Named(names) <==> WeekdayOf(n) in NamedDays(names);
    hide WeeklyDays, Named, NamedDays, DaysOf, WeekdayOf, Selects;
  }

  lemma MonthSays(rule: Rule, month: string)
    requires rule.byMonth == None
    ensures
      WithMonth(rule, month).byMonth
      == match MonthCalled(month) case Some(m) => Some([MonthValue.Text(Decimal(m))]) case None => None
  {
    MonthNamedIs(month);
    hide MonthNamed;
  }

  lemma AbsoluteYearlySays(raw: RawPattern, n: int)
    requires raw.RawAbsoluteYearly?
    ensures
      var rule := PatternRule(raw);
      && rule.frequency == Some("yearly") && RuleInterval(rule) == 1
      && rule.byMonthDay == Some([raw.dayOfMonth]) && rule.byMonth == MonthText(raw) && Selects(rule, n)
  {
    MonthSays(EMPTY_RULE.(frequency := Some("yearly")), raw.month);
    hide CountsInYear, Candidate, MonthNamed;
  }

  lemma RelativeSays(raw: RawPattern, n: int)
    requires raw.RawRelativeMonthly? || raw.RawRelativeYearly?
    ensures
      var rule := PatternRule(raw);
      && rule.frequency == Some(FrequencySaid(raw)) && RuleInterval(rule) == GivenInterval(raw)
      && rule.byMonthDay == None && rule.byMonth == MonthText(raw)
      && (Selects(rule, n) <==> IsMeant(raw, n))
  {
    var empty := EMPTY_RULE.(frequency := Some(FrequencySaid(raw)));
    var plain := if raw.RawRelativeMonthly? then WithInterval(empty, raw.interval) else WithMonth(empty, raw.month);
    if raw.RawRelativeYearly? {
      MonthSays(empty, raw.month);
    }
    hide MonthNamed, Selects, ExpandedDays, NthOfPeriod, HasSet, Named, HasSetName, IsWordth, IsRankWord;
    assert PatternRule(raw) == RelativeByDay(plain, raw.daysOfWeek, raw.index);
    RelativeSelects(plain, raw.daysOfWeek, raw.index, n);
  }
}
