/** Graph patterns as JSCalendar rules (src/exchange_graph/recurrence.rs) and back
    (`graph_pattern_from_jscalendar`, src/exchange_graph/expand.rs). */
module Translate {
  import opened Wrappers
  import opened Text
  import opened Calendar
  import opened DateText
  import opened DateReading
  import opened Series
  import opened Recurrence

  // ----- RecurrenceRule, section 4.3.3 of RFC 8984

  datatype NDay = NDay(day: string, nthOfPeriod: Option<int>)

  datatype MonthValue = Text(text: string) | Number(number: int)

  datatype Rule = Rule(
    frequency: Option<string>,
    interval: Option<int>,
    firstDayOfWeek: Option<string>,
    byDay: Option<seq<NDay>>,
    byMonthDay: Option<seq<int>>,
    byMonth: Option<seq<MonthValue>>,
    bySetPosition: Option<seq<int>>,
    count: Option<int>,
    until: Option<string>)

  // ----- from Graph

  /** `frequency_for`. */
  function FrequencyFor(p: Pattern): string {
    var kind := p.kind.GetOr("");
    if kind == "daily" then "daily"
    else if kind == "weekly" then "weekly"
    else if kind == "absoluteMonthly" || kind == "relativeMonthly" then "monthly"
    else if kind == "absoluteYearly" || kind == "relativeYearly" then "yearly"
    else "daily"
  }

  /** `day_short`. */
  function DayShort(name: string): Option<string> {
    var n := Lower(name);
    if n == "monday" then Some("mo")
    else if n == "tuesday" then Some("tu")
    else if n == "wednesday" then Some("we")
    else if n == "thursday" then Some("th")
    else if n == "friday" then Some("fr")
    else if n == "saturday" then Some("sa")
    else if n == "sunday" then Some("su")
    else None
  }

  /** `set_position_for`. */
  function SetPositionFor(index: string): Option<int> {
    var i := Lower(index);
    if i == "first" then Some(1)
    else if i == "second" then Some(2)
    else if i == "third" then Some(3)
    else if i == "fourth" then Some(4)
    else if i == "last" then Some(-1)
    else None
  }

  function ShortDays(names: seq<string>): seq<NDay> {
    if names == [] then []
    else
      var rest := ShortDays(names[1..]);
      match DayShort(names[0])
      case Some(d) => [NDay(d, None)] + rest
      case None => rest
  }

  function NonZero(v: Option<int>): Option<int> {
    var n :- AsI64(v);
    if n != 0 then Some(n) else None
  }

  predicate IsRelative(p: Pattern) {
    p.kind == Some("relativeMonthly") || p.kind == Some("relativeYearly")
  }

  /** `convert_patterned_recurrence_rule`; `None` is its error for a missing pattern or range. */
  function Convert(pr: Recurrence): Option<Rule> {
    var pattern :- pr.pattern;
    var range :- pr.range;
    var interval := AsU64(pattern.interval);
    var first := match pattern.firstDayOfWeek case Some(name) => DayShort(name) case None => None;
    var byDay := match pattern.daysOfWeek case Some(names) => ShortDays(names) case None => [];
    var dom := NonZero(pattern.dayOfMonth);
    var month := NonZero(pattern.month);
    var setPosition := if IsRelative(pattern) && pattern.index.Some? then SetPositionFor(pattern.index.value) else None;
    var rangeType := range.kind.GetOr("noEnd");
    Some(Rule(
      Some(FrequencyFor(pattern)),
      if interval.Some? && interval.value != 1 then interval else None,
      first,
      if byDay != [] then Some(byDay) else None,
      if dom.Some? then Some([dom.value]) else None,
      if month.Some? then Some([Text(IntText(month.value))]) else None,
      if setPosition.Some? then Some([setPosition.value]) else None,
      if rangeType == "numbered" then AsU64(range.numberOfOccurrences) else None,
      if rangeType == "endDate" && range.endDate.Some? then RecurrenceUntil(range.endDate.value) else None))
  }

  /** An interval of 1 is left out, and any other that is given is kept. */
  lemma IntervalKept(pr: Recurrence)
    requires pr.pattern.Some? && pr.range.Some?
    ensures
      var given := pr.pattern.value.interval;
      Convert(pr).value.interval
      == if given.Some? && 0 <= given.value < 0x1_0000_0000_0000_0000 && given.value != 1 then given else None
  {
    hide ShortDays, DayShort, IntText, RecurrenceUntil, SetPositionFor, FrequencyFor;
  }

  // ----- back to Graph

  /** `long_weekday`. */
  function LongWeekday(short: string): Option<string> {
    var d := Lower(short);
    if d == "mo" then Some("monday")
    else if d == "tu" then Some("tuesday")
    else if d == "we" then Some("wednesday")
    else if d == "th" then Some("thursday")
    else if d == "fr" then Some("friday")
    else if d == "sa" then Some("saturday")
    else if d == "su" then Some("sunday")
    else None
  }

  /** `index_name`. */
  function IndexName(setPosition: int): string {
    if setPosition == 1 then "first"
    else if setPosition == 2 then "second"
    else if setPosition == 3 then "third"
    else if setPosition == 4 then "fourth"
    else if setPosition == -1 then "last"
    else "first"
  }

  function LongDays(days: seq<NDay>): seq<string> {
    if days == [] then []
    else
      var rest := LongDays(days[1..]);
      match LongWeekday(days[0].day)
      case Some(name) => [name] + rest
      case None => rest
  }

  function First<T>(s: Option<seq<T>>): Option<T> {
    if s.Some? && s.value != [] then Some(s.value[0]) else None
  }

  function MonthNumber(m: MonthValue): Option<int> {
    match m
    case Text(s) => ParseInt(s)
    case Number(n) => AsI64(Some(n))
  }

  function PatternFor(rule: Rule, start: int): Option<Pattern> {
    var frequency :- rule.frequency;
    var days := LongDays(rule.byDay.GetOr([]));
    var dom := AsI64(First(rule.byMonthDay)).GetOr(DayOf(start));
    var month := (match First(rule.byMonth) case Some(m) => MonthNumber(m) case None => None).GetOr(MonthOfYear(start));
    var setPosition := AsI64(First(rule.bySetPosition));
    var relative := setPosition.Some? && days != [];
    var first := match rule.firstDayOfWeek case Some(d) => LongWeekday(d) case None => None;
    var p := EMPTY_PATTERN.(interval := Some(AsU64(rule.interval).GetOr(1)), firstDayOfWeek := first);
    if frequency == "daily" then Some(p.(kind := Some("daily")))
    else if frequency == "weekly" then Some(p.(kind := Some("weekly"), daysOfWeek := Some(days)))
    else if frequency == "monthly" then
      if relative then
        Some(p.(kind := Some("relativeMonthly"), daysOfWeek := Some(days), index := Some(IndexName(setPosition.value))))
      else Some(p.(kind := Some("absoluteMonthly"), dayOfMonth := Some(dom)))
    else if frequency == "yearly" then
      if relative then
        Some(p.(kind := Some("relativeYearly"), daysOfWeek := Some(days), index := Some(IndexName(setPosition.value)),
                month := Some(month)))
      else Some(p.(kind := Some("absoluteYearly"), month := Some(month), dayOfMonth := Some(dom)))
    else None
  }

  function RangeFor(rule: Rule, start: int): Range {
    var startDate := Some(FormatDate(start));
    var count := AsU64(rule.count);
    if count.Some? then Range(Some("numbered"), startDate, None, count)
    else if rule.until.Some? then Range(Some("endDate"), startDate, Some(BeforeFirst(rule.until.value, 'T')), None)
    else Range(Some("noEnd"), startDate, None, None)
  }

  /** `graph_pattern_from_jscalendar`. */
  function GraphPattern(rule: Rule, start: int): Option<Recurrence> {
    var pattern :- PatternFor(rule, start);
    Some(Recurrence(Some(pattern), Some(RangeFor(rule, start))))
  }

  // ----- names survive

  lemma NamesAreLower()
    ensures Lower("mo") == "mo" && Lower("tu") == "tu" && Lower("we") == "we" && Lower("th") == "th"
    ensures Lower("fr") == "fr" && Lower("sa") == "sa" && Lower("su") == "su"
    ensures Lower("monday") == "monday" && Lower("tuesday") == "tuesday" && Lower("wednesday") == "wednesday"
    ensures Lower("thursday") == "thursday" && Lower("friday") == "friday" && Lower("saturday") == "saturday"
    ensures Lower("sunday") == "sunday"
    ensures Lower("first") == "first" && Lower("second") == "second" && Lower("third") == "third"
    ensures Lower("fourth") == "fourth" && Lower("last") == "last"
  {
    LowerFixed("mo"); LowerFixed("tu"); LowerFixed("we"); LowerFixed("th"); LowerFixed("fr"); LowerFixed("sa");
    LowerFixed("su"); LowerFixed("monday"); LowerFixed("tuesday"); LowerFixed("wednesday"); LowerFixed("thursday");
    LowerFixed("friday"); LowerFixed("saturday"); LowerFixed("sunday"); LowerFixed("first"); LowerFixed("second");
    LowerFixed("third"); LowerFixed("fourth"); LowerFixed("last");
  }

  lemma WeekdaySurvives(name: string)
    ensures DayShort(name).Some? <==> ParseWeekday(name).Some?
    ensures DayShort(name).Some? ==>
      var long := LongWeekday(DayShort(name).value); long.Some? && ParseWeekday(long.value) == ParseWeekday(name)
  {
    NamesAreLower();
  }

  lemma {:induction false} WeekdaysSurvive(names: seq<string>)
    ensures ParseWeekdays(LongDays(ShortDays(names))) == ParseWeekdays(names)
    ensures LongDays(ShortDays(names)) == [] <==> ParseWeekdays(names) == []
    ensures ShortDays(names) == [] <==> ParseWeekdays(names) == []
  {
    if names != [] {
      WeekdaysSurvive(names[1..]);
      WeekdaySurvives(names[0]);
    }
  }

  lemma IndexSurvives(index: string)
    requires SetPositionFor(index).Some?
    ensures RankOf(IndexName(SetPositionFor(index).value)) == RankOf(index)
  {
    NamesAreLower();
  }

  // ----- patterns survive

  /** A number the pattern uses comes through when it is not zero and fits in 64 bits with a sign; otherwise the start's
      own takes its place, which may be what its low 32 bits say anyway. */
  predicate NumberCarries(v: Option<int>, default: int) {
    AsU64(v).Some? ==> NonZero(v).Some? || AsU32(AsU64(v).value) == default
  }

  /** What the rule format can carry of a pattern: a relative pattern needs an index it knows and a weekday,
      and the day of the month and the month that it uses must come through. */
  predicate KindCarries(p: Pattern, start: int) {
    match p.kind
    case None => true
    case Some(kind) =>
      if kind == "absoluteMonthly" then NumberCarries(p.dayOfMonth, DayOf(start))
      else if kind == "relativeMonthly" then HasRank(p)
      else if kind == "absoluteYearly" then
        NumberCarries(p.dayOfMonth, DayOf(start)) && NumberCarries(p.month, MonthOfYear(start))
      else if kind == "relativeYearly" then HasRank(p) && NumberCarries(p.month, MonthOfYear(start))
      else true
  }

  predicate HasRank(p: Pattern) {
    p.index.Some? && SetPositionFor(p.index.value).Some? && Weekdays(p) != []
  }

  // What each kind that uses its numbers or its index is read as, and when it is carried.

  lemma AsU32Small(n: nat)
    requires n < 0x1_0000_0000
    ensures AsU32(n) == n
  {
  }

  lemma AbsoluteMonthlyKind(p: Pattern)
    requires p.kind == Some("absoluteMonthly")
    ensures ReadKind(p) == var dom := AsU64(p.dayOfMonth);
      if dom.Some? then Some(AbsoluteMonthly(AsU32(dom.value))) else None
    ensures forall start :: KindCarries(p, start) <==> NumberCarries(p.dayOfMonth, DayOf(start))
  {
    hide NumberCarries;
  }

  lemma RelativeMonthlyKind(p: Pattern)
    requires p.kind == Some("relativeMonthly")
    ensures ReadKind(p) == Some(RelativeMonthly(Weekdays(p), RankOf(Index(p))))
    ensures forall start :: KindCarries(p, start) <==> HasRank(p)
  {
    hide Weekdays, RankOf, HasRank;
  }

  lemma AbsoluteYearlyKind(p: Pattern)
    requires p.kind == Some("absoluteYearly")
    ensures ReadKind(p) == var month, dom := AsU64(p.month), AsU64(p.dayOfMonth);
      if month.Some? && dom.Some? then Some(AbsoluteYearly(AsU32(month.value), AsU32(dom.value))) else None
    ensures forall start :: KindCarries(p, start) <==>
      NumberCarries(p.dayOfMonth, DayOf(start)) && NumberCarries(p.month, MonthOfYear(start))
  {
    hide NumberCarries;
  }

  lemma RelativeYearlyKind(p: Pattern)
    requires p.kind == Some("relativeYearly")
    ensures ReadKind(p) == var month := AsU64(p.month);
      if month.Some? then Some(RelativeYearly(AsU32(month.value), Weekdays(p), RankOf(Index(p)))) else None
    ensures forall start :: KindCarries(p, start) <==> HasRank(p) && NumberCarries(p.month, MonthOfYear(start))
  {
    hide Weekdays, RankOf, HasRank;
  }

  lemma DaysSurvive(p: Pattern)
    ensures var byDay := match p.daysOfWeek case Some(names) => ShortDays(names) case None => [];
      var days := LongDays((if byDay != [] then Some(byDay) else None).GetOr([]));
      && ParseWeekdays(days) == Weekdays(p)
      && (days == [] <==> Weekdays(p) == [])
  {
    WeekdaysSurvive(p.daysOfWeek.GetOr([]));
  }

  lemma FirstDaySurvives(p: Pattern)
    ensures var first := match p.firstDayOfWeek case Some(name) => DayShort(name) case None => None;
      var back := match first case Some(d) => LongWeekday(d) case None => None;
      FirstDayOfWeek(EMPTY_PATTERN.(firstDayOfWeek := back)) == FirstDayOfWeek(p)
  {
    if p.firstDayOfWeek.Some? {
      WeekdaySurvives(p.firstDayOfWeek.value);
    }
  }

  /** The rule, read back field by field, says what the pattern says. */
  ghost predicate Mirrors(rule: Rule, p: Pattern) {
    var days := LongDays(rule.byDay.GetOr([]));
    && rule.frequency == Some(FrequencyFor(p))
    && ParseWeekdays(days) == Weekdays(p)
    && (days == [] <==> Weekdays(p) == [])
    && AsI64(First(rule.byMonthDay)) == NonZero(p.dayOfMonth)
    && (match First(rule.byMonth) case Some(m) => MonthNumber(m) case None => None) == NonZero(p.month)
    && AsI64(First(rule.bySetPosition))
       == (if IsRelative(p) && p.index.Some? then SetPositionFor(p.index.value) else None)
    && AsU64(rule.interval).GetOr(1) == AsU64(p.interval).GetOr(1)
    && FirstDayOfWeek(EMPTY_PATTERN.(firstDayOfWeek :=
         match rule.firstDayOfWeek case Some(d) => LongWeekday(d) case None => None)) == FirstDayOfWeek(p)
  }

  lemma ConvertMirrors(pr: Recurrence)
    requires pr.pattern.Some? && pr.range.Some?
    ensures Mirrors(Convert(pr).value, pr.pattern.value)
  {
    hide LongDays, ShortDays, ParseWeekdays, DayShort, IntText, ParseInt, RecurrenceUntil;
    var p := pr.pattern.value;
    DaysSurvive(p);
    FirstDaySurvives(p);
    if NonZero(p.month).Some? {
      ParseIntText(p.month.value);
    }
  }

  /** Going back, the pattern means the same exactly when the rule format could carry it. */
  ghost predicate Survives(rule: Rule, p: Pattern, start: int) {
    var back := PatternFor(rule, start);
    && back.Some?
    && Interval(back.value) == Interval(p)
    && (ReadKind(back.value) == ReadKind(p) <==> KindCarries(p, start))
  }

  lemma PlainSurvives(rule: Rule, p: Pattern, start: int)
    requires Mirrors(rule, p) && ReadKind(p).Some? && p.kind in {Some("daily"), Some("weekly")}
    ensures Survives(rule, p, start)
  {
    hide LongDays, ParseWeekdays, LongWeekday, ParseWeekday, RankOf, IndexName, SetPositionFor, MonthNumber;
  }

  lemma AbsoluteMonthlyBack(rule: Rule, p: Pattern, start: int)
    requires Mirrors(rule, p) && p.kind == Some("absoluteMonthly")
    ensures PatternFor(rule, start).Some?
    ensures var back := PatternFor(rule, start).value;
      && Interval(back) == Interval(p)
      && back.kind == Some("absoluteMonthly")
      && back.dayOfMonth == Some(NonZero(p.dayOfMonth).GetOr(DayOf(start)))
  {
    hide ReadKind, LongDays, ParseWeekdays, LongWeekday, ParseWeekday, RankOf, IndexName, SetPositionFor, MonthNumber,
      FirstDayOfWeek;
  }

  lemma AbsoluteMonthlySurvives(rule: Rule, p: Pattern, start: int)
    requires Mirrors(rule, p) && ReadKind(p).Some? && p.kind == Some("absoluteMonthly")
    ensures Survives(rule, p, start)
  {
    AbsoluteMonthlyBack(rule, p, start);
    AbsoluteMonthlyKind(p);
    AbsoluteMonthlyKind(PatternFor(rule, start).value);
    AsU32Small(0);
    AsU32Small(DayOf(start));
    AsU32Small(MonthOfYear(start));
    hide Mirrors, PatternFor, ReadKind, Interval, KindCarries, AsU32, DayOf, MonthOfYear;
  }

  lemma RelativeMonthlyBack(rule: Rule, p: Pattern, start: int)
    requires Mirrors(rule, p) && p.kind == Some("relativeMonthly")
    ensures PatternFor(rule, start).Some?
    ensures var back := PatternFor(rule, start).value;
      && Interval(back) == Interval(p)
      && if HasRank(p)
         then back.kind == Some("relativeMonthly") && Weekdays(back) == Weekdays(p)
           && back.index == Some(IndexName(SetPositionFor(p.index.value).value))
         else back.kind == Some("absoluteMonthly") && back.dayOfMonth == Some(NonZero(p.dayOfMonth).GetOr(DayOf(start)))
  {
    hide ReadKind, LongDays, ParseWeekdays, LongWeekday, ParseWeekday, RankOf, IndexName, SetPositionFor, MonthNumber,
      FirstDayOfWeek;
  }

  lemma RelativeMonthlySurvives(rule: Rule, p: Pattern, start: int)
    requires Mirrors(rule, p) && ReadKind(p).Some? && p.kind == Some("relativeMonthly")
    ensures Survives(rule, p, start)
  {
    RelativeMonthlyBack(rule, p, start);
    RelativeMonthlyKind(p);
    AsU32Small(0);
    AsU32Small(MonthOfYear(start));
    hide Mirrors, PatternFor, ReadKind, Interval, Weekdays, RankOf, IndexName, SetPositionFor, KindCarries, AsU32,
      MonthOfYear;
    if HasRank(p) {
      RelativeMonthlyKind(PatternFor(rule, start).value);
      IndexSurvives(p.index.value);
    } else {
      AbsoluteMonthlyKind(PatternFor(rule, start).value);
    }
  }

  lemma AbsoluteYearlyBack(rule: Rule, p: Pattern, start: int)
    requires Mirrors(rule, p) && p.kind == Some("absoluteYearly")
    ensures PatternFor(rule, start).Some?
    ensures var back := PatternFor(rule, start).value;
      && Interval(back) == Interval(p)
      && back.kind == Some("absoluteYearly")
      && back.dayOfMonth == Some(NonZero(p.dayOfMonth).GetOr(DayOf(start)))
      && back.month == Some(NonZero(p.month).GetOr(MonthOfYear(start)))
  {
    hide ReadKind, LongDays, ParseWeekdays, LongWeekday, ParseWeekday, RankOf, IndexName, SetPositionFor, MonthNumber,
      FirstDayOfWeek;
  }

  lemma AbsoluteYearlySurvives(rule: Rule, p: Pattern, start: int)
    requires Mirrors(rule, p) && ReadKind(p).Some? && p.kind == Some("absoluteYearly")
    ensures Survives(rule, p, start)
  {
    AbsoluteYearlyBack(rule, p, start);
    AbsoluteYearlyKind(p);
    AbsoluteYearlyKind(PatternFor(rule, start).value);
    AsU32Small(0);
    AsU32Small(DayOf(start));
    AsU32Small(MonthOfYear(start));
    hide Mirrors, PatternFor, ReadKind, Interval, KindCarries, AsU32, DayOf, MonthOfYear;
  }

  lemma RelativeYearlyBack(rule: Rule, p: Pattern, start: int)
    requires Mirrors(rule, p) && p.kind == Some("relativeYearly")
    ensures PatternFor(rule, start).Some?
    ensures var back := PatternFor(rule, start).value;
      && Interval(back) == Interval(p)
      && back.month == Some(NonZero(p.month).GetOr(MonthOfYear(start)))
      && if HasRank(p)
         then back.kind == Some("relativeYearly") && Weekdays(back) == Weekdays(p)
           && back.index == Some(IndexName(SetPositionFor(p.index.value).value))
         else back.kind == Some("absoluteYearly")
  {
    hide ReadKind, LongDays, ParseWeekdays, LongWeekday, ParseWeekday, RankOf, IndexName, SetPositionFor, MonthNumber,
      FirstDayOfWeek;
  }

  lemma RelativeYearlySurvives(rule: Rule, p: Pattern, start: int)
    requires Mirrors(rule, p) && ReadKind(p).Some? && p.kind == Some("relativeYearly")
    ensures Survives(rule, p, start)
  {
    RelativeYearlyBack(rule, p, start);
    RelativeYearlyKind(p);
    AsU32Small(0);
    AsU32Small(MonthOfYear(start));
    hide Mirrors, PatternFor, ReadKind, Interval, Weekdays, RankOf, IndexName, SetPositionFor, KindCarries, AsU32,
      MonthOfYear;
    if HasRank(p) {
      RelativeYearlyKind(PatternFor(rule, start).value);
      IndexSurvives(p.index.value);
    } else {
      AbsoluteYearlyKind(PatternFor(rule, start).value);
    }
  }

  lemma PatternSurvives(pr: Recurrence, start: int)
    requires pr.pattern.Some? && pr.range.Some?
    requires ReadKind(pr.pattern.value).Some?
    ensures Survives(Convert(pr).value, pr.pattern.value, start)
  {
    var p := pr.pattern.value;
    var rule := Convert(pr).value;
    ConvertMirrors(pr);
    var kind := p.kind.value;
    if kind == "absoluteMonthly" {
      AbsoluteMonthlySurvives(rule, p, start);
    } else if kind == "relativeMonthly" {
      RelativeMonthlySurvives(rule, p, start);
    } else if kind == "absoluteYearly" {
      AbsoluteYearlySurvives(rule, p, start);
    } else if kind == "relativeYearly" {
      RelativeYearlySurvives(rule, p, start);
    } else {
      assert kind == "daily" || kind == "weekly";
      PlainSurvives(rule, p, start);
    }
  }

  // ----- ranges survive

  /** The date of an end date that the expander can read comes through `until` unchanged. */
  lemma UntilStartsWith(raw: string, date: string)
    requires IsCalendarDate(date) && date <= Trim(raw)
    ensures RecurrenceUntil(raw).Some?
    ensures date + ['T'] <= RecurrenceUntil(raw).value
  {
    hide ClockTime, Trim;
    assert Trim(raw)[..10] == date;
    assert RecurrenceUntil(raw).value[..11] == date + ['T'];
  }

  /** Text that begins with a date in ten characters, once trimmed. */
  predicate LeadsWithDate(raw: string) {
    var trimmed := Trim(raw);
    |trimmed| >= 10 && IsCalendarDate(trimmed[..10]) && CalendarDate(trimmed[..10]).Some?
  }

  /** Such a date survives as the date part of `until`, which reads as that date. */
  lemma UntilKeepsDate(raw: string)
    requires LeadsWithDate(raw)
    ensures RecurrenceUntil(raw).Some?
    ensures
      var date := BeforeFirst(RecurrenceUntil(raw).value, 'T');
      date == Trim(raw)[..10] && DateIn(Some(date)) == CalendarDate(date)
  {
    hide FromYmd, ClockTime, Trim, CalendarDate, ParseDate;
    var date := Trim(raw)[..10];
    UntilStartsWith(raw, date);
    var until := RecurrenceUntil(raw).value;
    hide RecurrenceUntil;
    CutUntil(date, until);
    NoBlanks();
    CalendarDateReads([], date, []);
    assert [] + (date + []) == date;
  }

  lemma CutUntil(date: string, until: string)
    requires IsCalendarDate(date) && date + ['T'] <= until
    ensures BeforeFirst(until, 'T') == date && BeforeFirst(date, 'T') == date
  {
    DateHasNoT(date);
    assert until == date + ['T'] + until[|date| + 1..];
    BeforeFirstAt(date, 'T', until[|date| + 1..]);
  }

  /** What comes back of any end date: the date it begins with, in ten characters, if it does. */
  lemma UntilReads(raw: string)
    ensures
      (match RecurrenceUntil(raw) case Some(until) => DateIn(Some(BeforeFirst(until, 'T'))) case None => None)
      == (if LeadsWithDate(raw) then CalendarDate(Trim(raw)[..10]) else None)
  {
    hide FromYmd, ClockTime, Trim, ParseDate;
    var trimmed := Trim(raw);
    if LeadsWithDate(raw) {
      hide *;
      UntilKeepsDate(raw);
    } else if |trimmed| >= 10 && IsCalendarDate(trimmed[..10]) {
      var date := trimmed[..10];
      UntilStartsWith(raw, date);
      hide RecurrenceUntil;
      CutUntil(date, RecurrenceUntil(raw).value);
      NoBlanks();
      CalendarDateReads([], date, []);
      assert [] + (date + []) == date;
    }
  }

  /** The rule keeps the one end that the range's type names, so the range must not hold the other; and it keeps an end
      date that begins with a date in ten characters, so these must be the ones that can be read. */
  predicate RangeCarries(range: Range) {
    var kind := range.kind.GetOr("noEnd");
    && (kind != "numbered" ==> Positive(range.numberOfOccurrences).None?)
    && (kind != "endDate" ==> DateIn(range.endDate).None?)
    && (kind == "endDate" && range.endDate.Some? ==>
          (DateIn(range.endDate).Some? <==> LeadsWithDate(range.endDate.value)))
  }

  /** A date with a zone after it cannot be read, and comes back as a limit. */
  lemma ZonedEndDateGainsLimit(pr: Recurrence, start: int, n: int)
    requires 0 <= YearOf(n) <= 9999 && pr.pattern.Some? && pr.range.Some?
    requires pr.range.value.kind == Some("endDate") && pr.range.value.endDate == Some(FormatDate(n) + "Z")
    ensures DateIn(pr.range.value.endDate) == None && !RangeCarries(pr.range.value)
    ensures RangeFor(Convert(pr).value, start).endDate == Some(FormatDate(n))
    ensures DateIn(RangeFor(Convert(pr).value, start).endDate) == Some(n)
  {
    var raw := FormatDate(n) + "Z";
    FormatNames(n);
    hide FormatDate, CalendarDate, ParseDate, ShortDays, SetPositionFor, IntText, DayShort, RecurrenceUntil, Trim,
      LeadsWithDate, IsCalendarDate, BeforeFirst, DateIn;
    ZonedDateReads(FormatDate(n));
    UntilKeepsDate(raw);
  }

  lemma ZonedDateReads(date: string)
    requires IsCalendarDate(date) && CalendarDate(date).Some?
    ensures DateIn(Some(date + "Z")) == None && LeadsWithDate(date + "Z") && Trim(date + "Z")[..10] == date
  {
    hide CalendarDate, ParseDate;
    var raw := date + "Z";
    DateHasNoT(date);
    assert date[..4][0] in date[..4];
    NoTrim(raw);
    NotIn(raw, 'T');
    assert raw[..10] == date;
    NoBlanks();
    CalendarDateReads([], date, "Z");
    assert [] + (date + "Z") == raw;
  }

  /** A date written without padding can be read, and comes back as no limit. */
  lemma ShortEndDateIsLost(pr: Recurrence, start: int, y: string, m: string, d: string)
    requires pr.pattern.Some? && pr.range.Some?
    requires AllDigits(y) && 1 <= |y| <= 4 && AllDigits(m) && 1 <= |m| <= 2 && AllDigits(d) && 1 <= |d| <= 2
    requires |y| + |m| + |d| < 8 && DecimalValue(y) <= 9999
    requires FromYmd(DecimalValue(y), DecimalValue(m), DecimalValue(d)).Some?
    requires pr.range.value.kind == Some("endDate")
    requires pr.range.value.endDate == Some(y + (['-'] + (m + (['-'] + d))))
    ensures DateIn(pr.range.value.endDate).Some? && !RangeCarries(pr.range.value)
    ensures RangeFor(Convert(pr).value, start).endDate == None
  {
    hide FromYmd, ParseDate, ShortDays, SetPositionFor, IntText, DayShort, ClockTime, DecimalValue;
    var raw := y + (['-'] + (m + (['-'] + d)));
    ShortDateReads(y, m, d);
    TrimIsShort(raw);
    assert RecurrenceUntil(raw) == None && !LeadsWithDate(raw);
    hide RecurrenceUntil, LeadsWithDate, Trim, IsCalendarDate;
  }

  lemma ShortDateReads(y: string, m: string, d: string)
    requires AllDigits(y) && 1 <= |y| <= 4 && AllDigits(m) && 1 <= |m| <= 2 && AllDigits(d) && 1 <= |d| <= 2
    requires DecimalValue(y) <= 9999
    ensures
      DateIn(Some(y + (['-'] + (m + (['-'] + d))))) == FromYmd(DecimalValue(y), DecimalValue(m), DecimalValue(d))
  {
    hide FromYmd, ParseDate, DecimalValue, BeforeFirst;
    ShortHasNoT(y, m, d);
    NotIn(y + (['-'] + (m + (['-'] + d))), 'T');
    NoBlanks();
    hide AllDigits, AreBlanks;
    PlainDateReads([], y, [], m, [], d, []);
    WithoutBlanks(y, m, d);
  }

  lemma ShortHasNoT(y: string, m: string, d: string)
    requires AllDigits(y) && AllDigits(m) && AllDigits(d)
    ensures 'T' !in y + (['-'] + (m + (['-'] + d)))
  {
  }

  lemma WithoutBlanks(y: string, m: string, d: string)
    ensures
      [] + (y + (['-'] + ([] + (m + (['-'] + ([] + (d + []))))))) == y + (['-'] + (m + (['-'] + d)))
  {
    assert d + [] == d;
    assert [] + d == d;
    assert [] + (m + (['-'] + d)) == m + (['-'] + d);
  }

  lemma {:induction false} TrimIsShort(s: string)
    ensures |Trim(s)| <= |s|
  {
    var blanks := BlanksBefore(s);
    TrimEndIsPrefix(TrimStart(s));
    hide TrimStart, TrimEnd;
  }

  /** The first of August 2026 is such a date. */
  lemma FirstOfAugustIsLost(pr: Recurrence, start: int)
    requires pr.pattern.Some? && pr.range.Some?
    requires pr.range.value.kind == Some("endDate") && pr.range.value.endDate == Some("2026-8-1")
    ensures DateIn(pr.range.value.endDate) == Some(Calendar.Number(Date(2026, 8, 1))) && !RangeCarries(pr.range.value)
    ensures RangeFor(Convert(pr).value, start).endDate == None
  {
    ValueOfFour("2026");
    assert DecimalValue("8") == 8 && DecimalValue("1") == 1 by {
      assert "8"[..0] == [] && "1"[..0] == [];
    }
    assert Read4("2026") == 2026 by {
      assert "2026"[..2] == "20" && "2026"[2..] == "26";
    }
    assert FromYmd(2026, 8, 1) == Some(Calendar.Number(Date(2026, 8, 1)));
    hide *;
    assert "2026-8-1" == "2026" + (['-'] + ("8" + (['-'] + "1")));
    DigitTexts();
    ShortDateReads("2026", "8", "1");
    ShortEndDateIsLost(pr, start, "2026", "8", "1");
  }

  lemma DigitTexts()
    ensures AllDigits("2026") && AllDigits("8") && AllDigits("1")
  {
  }

  lemma StartSurvives(range: Range, start: int)
    requires DateIn(range.startDate) == Some(start)
    ensures DateIn(Some(FormatDate(start))) == Some(start)
  {
    ParsedYear(BeforeFirst(range.startDate.value, 'T'));
    hide ParseDate;
    ParseFormat(start);
    FormatHasNoT(start);
    NotIn(FormatDate(start), 'T');
  }

  lemma FormatHasNoT(n: int)
    ensures 'T' !in FormatDate(n)
  {
    hide Decimal, YearOf, MonthOfYear, DayOf;
  }

  lemma RangeSurvives(pr: Recurrence, start: int)
    requires pr.pattern.Some? && pr.range.Some? && DateIn(pr.range.value.startDate) == Some(start)
    ensures var range, back := pr.range.value, RangeFor(Convert(pr).value, start);
      && DateIn(back.startDate) == Some(start)
      && ((DateIn(back.endDate) == DateIn(range.endDate)
           && Positive(back.numberOfOccurrences) == Positive(range.numberOfOccurrences)) <==> RangeCarries(range))
  {
    hide FormatDate, ParseDate, RecurrenceUntil, ShortDays, DayShort, SetPositionFor, IntText, DateIn, LeadsWithDate,
      CalendarDate;
    var range := pr.range.value;
    StartSurvives(range, start);
    NoDate();
    if range.endDate.Some? {
      UntilReads(range.endDate.value);
      if LeadsWithDate(range.endDate.value) {
        LeadingDateIsRead(range.endDate.value);
      }
    }
  }

  lemma NoDate()
    ensures DateIn(None) == None
  {
  }

  lemma LeadingDateIsRead(raw: string)
    requires LeadsWithDate(raw)
    ensures |Trim(raw)| >= 10 && IsCalendarDate(Trim(raw)[..10])
    ensures CalendarDate(Trim(raw)[..10]).Some?
    ensures DateIn(Some(raw)).Some? ==> DateIn(Some(raw)) == CalendarDate(Trim(raw)[..10])
  {
    hide CalendarDate, ParseDate, Trim;
    LeadingDateReads(raw);
  }

  // ----- the main results

  /** To a JSCalendar rule and back, with the recurrence's own start date as the start of the series. */
  function RoundTrip(g: Recurrence): Option<Recurrence> {
    var rule :- Convert(g);
    var series :- Read(g);
    GraphPattern(rule, series.start)
  }

  /** The round trip keeps the meaning of whatever the expander can read exactly when the rule format can carry its
      pattern and its range. */
  lemma TranslationKeepsMeaning(g: Recurrence)
    requires Read(g).Some?
    ensures RoundTrip(g).Some?
    ensures
      Read(RoundTrip(g).value) == Read(g)
      <==>
      KindCarries(g.pattern.value, Read(g).value.start) && RangeCarries(g.range.value)
  {
    var start := Read(g).value.start;
    PatternSurvives(g, start);
    RangeSurvives(g, start);
    hide PatternFor, RangeFor, ReadKind, KindCarries, RangeCarries, Interval, DateIn, Positive;
  }

  /** Then it expands to the same dates before and after, in every window. */
  lemma TranslationKeepsDates(g: Recurrence, lo: int, hi: int)
    requires Read(g).Some? && KindCarries(g.pattern.value, Read(g).value.start) && RangeCarries(g.range.value)
    ensures RoundTrip(g).Some?
    ensures var before, after := Read(g), Read(RoundTrip(g).value);
      after.Some? && Expansion(after.value, lo, hi) == Expansion(before.value, lo, hi)
  {
    TranslationKeepsMeaning(g);
  }
}
