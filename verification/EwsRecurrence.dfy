/** EWS recurrences as JSCalendar rules (src/exchange_ews/recurrence.rs), and the days that a monthly or yearly rule
    selects, section 4.3.3 of RFC 8984. */
module EwsRecurrence {
  import opened Wrappers
  import opened Text
  import opened Calendar
  import opened DayNames
  import opened DateText
  import opened Ranks
  import opened RankWords
  import opened Series
  import opened SeriesLaws
  import opened Recurrence
  import opened Translate

  datatype RawPattern =
    | RawDaily(interval: nat)
    | RawWeekly(interval: nat, daysOfWeek: seq<string>)
    | RawAbsoluteMonthly(interval: nat, dayOfMonth: nat)
    | RawRelativeMonthly(interval: nat, index: string, daysOfWeek: seq<string>)
    | RawAbsoluteYearly(month: string, dayOfMonth: nat)
    | RawRelativeYearly(month: string, index: string, daysOfWeek: seq<string>)

  datatype RawRange =
    | RawNoEnd
    | RawEndDate(endDate: string)
    | RawNumbered(numberOfOccurrences: nat)

  datatype RawRecurrence = RawRecurrence(pattern: Option<RawPattern>, range: Option<RawRange>)

  const EMPTY_RULE := Rule(None, None, None, None, None, None, None, None, None)

  /** `expand_day`. */
  function ExpandDay(d: string): Option<seq<string>> {
    var n := Lower(d);
    if n == "monday" || n == "mo" then Some(["mo"])
    else if n == "tuesday" || n == "tu" then Some(["tu"])
    else if n == "wednesday" || n == "we" then Some(["we"])
    else if n == "thursday" || n == "th" then Some(["th"])
    else if n == "friday" || n == "fr" then Some(["fr"])
    else if n == "saturday" || n == "sa" then Some(["sa"])
    else if n == "sunday" || n == "su" then Some(["su"])
    else if n == "day" then Some(["mo", "tu", "we", "th", "fr", "sa", "su"])
    else if n == "weekday" then Some(["mo", "tu", "we", "th", "fr"])
    else if n == "weekendday" then Some(["sa", "su"])
    else None
  }

  /** `nth_of_period`. */
  function NthOfPeriod(index: string): Option<int> {
    if index == "First" then Some(1)
    else if index == "Second" then Some(2)
    else if index == "Third" then Some(3)
    else if index == "Fourth" then Some(4)
    else if index == "Last" then Some(-1)
    else None
  }

  /** `month_number`. */
  function MonthNamed(m: string): Option<int> {
    if m == "January" then Some(1)
    else if m == "February" then Some(2)
    else if m == "March" then Some(3)
    else if m == "April" then Some(4)
    else if m == "May" then Some(5)
    else if m == "June" then Some(6)
    else if m == "July" then Some(7)
    else if m == "August" then Some(8)
    else if m == "September" then Some(9)
    else if m == "October" then Some(10)
    else if m == "November" then Some(11)
    else if m == "December" then Some(12)
    else None
  }

  /** The entries of `slice` that `days` lacks, added at its end. */
  function AddNew(days: seq<string>, slice: seq<string>): seq<string>
    decreases slice
  {
    if slice == [] then days
    else AddNew(if slice[0] in days then days else days + [slice[0]], slice[1..])
  }

  /** The weekdays that a list of day names stands for, each once, in the order they are first met. */
  function ExpandedDays(names: seq<string>): seq<string> {
    if names == [] then []
    else AddNew(ExpandedDays(names[..|names| - 1]), ExpandDay(names[|names| - 1]).GetOr([]))
  }

  /** Some name stands for more than one weekday. */
  predicate HasSet(names: seq<string>) {
    exists i :: 0 <= i < |names| && |ExpandDay(names[i]).GetOr([])| > 1
  }

  function Entries(days: seq<string>, nth: Option<int>): (r: seq<NDay>)
    ensures |r| == |days|
    ensures forall i :: 0 <= i < |days| ==> r[i] == NDay(days[i], nth)
  {
    if days == [] then [] else [NDay(days[0], nth)] + Entries(days[1..], nth)
  }

  function RelativeByDay(rule: Rule, names: seq<string>, index: string): Rule {
    var days := ExpandedDays(names);
    var nth := NthOfPeriod(index);
    if days == [] then rule
    else if HasSet(names) then
      rule.(byDay := Some(Entries(days, None)),
            bySetPosition := if nth.Some? then Some([nth.value]) else rule.bySetPosition)
    else rule.(byDay := Some(Entries(days, nth)))
  }

  /** `insert_relative_by_day`. */
  method InsertRelativeByDay(rule: Rule, names: seq<string>, index: string) returns (r: Rule)
    ensures r == RelativeByDay(rule, names, index)
  {
    hide ExpandDay, NthOfPeriod;
    var nth := NthOfPeriod(index);
    var days: seq<string> := [];
    var isSet := false;
    for i := 0 to |names|
      invariant days == ExpandedDays(names[..i])
      invariant isSet <==> exists j :: 0 <= j < i && |ExpandDay(names[j]).GetOr([])| > 1
    {
      assert names[..i + 1][..i] == names[..i];
      var slice := ExpandDay(names[i]);
      if slice.Some? {
        if |slice.value| > 1 {
          isSet := true;
        }
        ghost var before := days;
        for j := 0 to |slice.value|
          invariant AddNew(days, slice.value[j..]) == AddNew(before, slice.value)
        {
          if slice.value[j] !in days {
            days := days + [slice.value[j]];
          }
        }
      }
    }
    assert names[..|names|] == names;
    if days == [] {
      return rule;
    }
    if isSet {
      r := rule.(byDay := Some(Entries(days, None)));
      if nth.Some? {
        r := r.(bySetPosition := Some([nth.value]));
      }
    } else {
      r := rule.(byDay := Some(Entries(days, nth)));
    }
  }

  function WithInterval(rule: Rule, interval: nat): Rule {
    if interval > 1 then rule.(interval := Some(interval)) else rule
  }

  function WithMonth(rule: Rule, month: string): Rule {
    match MonthNamed(month)
    case Some(n) => rule.(byMonth := Some([MonthValue.Text(IntText(n))]))
    case None => rule
  }

  function WeeklyDays(names: seq<string>): seq<string> {
    if names == [] then [] else ExpandDay(names[0]).GetOr([]) + WeeklyDays(names[1..])
  }

  /** `to_jscalendar_rule`, up to the range. */
  function PatternRule(pattern: RawPattern): Rule {
    match pattern
    case RawDaily(interval) => WithInterval(EMPTY_RULE.(frequency := Some("daily")), interval)
    case RawWeekly(interval, names) =>
      var rule := WithInterval(EMPTY_RULE.(frequency := Some("weekly")), interval);
      if WeeklyDays(names) == [] then rule else rule.(byDay := Some(Entries(WeeklyDays(names), None)))
    case RawAbsoluteMonthly(interval, day) =>
      WithInterval(EMPTY_RULE.(frequency := Some("monthly")), interval).(byMonthDay := Some([day]))
    case RawRelativeMonthly(interval, index, names) =>
      RelativeByDay(WithInterval(EMPTY_RULE.(frequency := Some("monthly")), interval), names, index)
    case RawAbsoluteYearly(month, day) =>
      WithMonth(EMPTY_RULE.(frequency := Some("yearly")), month).(byMonthDay := Some([day]))
    case RawRelativeYearly(month, index, names) =>
      RelativeByDay(WithMonth(EMPTY_RULE.(frequency := Some("yearly")), month), names, index)
  }

  /** `to_jscalendar_rule`. */
  function ToRule(raw: RawRecurrence): Option<Rule> {
    var pattern :- raw.pattern;
    var rule := PatternRule(pattern);
    Some(match raw.range
         case Some(RawEndDate(end)) => rule.(until := RecurrenceUntil(end))
         case Some(RawNumbered(n)) => rule.(count := Some(n))
         case _ => rule)
  }

  // ----- the days of a month or a year that a rule selects

  /** Positions count within the year in a yearly rule that names no month, and within the month otherwise. */
  predicate CountsInYear(rule: Rule) {
    rule.frequency == Some("yearly") && rule.byMonth.None?
  }

  /** A day as rules write it, with the first two letters of its name. */
  function ShortWeekday(day: string): Option<Weekday> {
    var d := Lower(day);
    if d == "mo" then Some(1)
    else if d == "tu" then Some(2)
    else if d == "we" then Some(3)
    else if d == "th" then Some(4)
    else if d == "fr" then Some(5)
    else if d == "sa" then Some(6)
    else if d == "su" then Some(0)
    else None
  }

  lemma ShortIsName(day: string, n: int)
    ensures ShortWeekday(day) == Some(WeekdayOf(n)) <==> Lower(day) == DayName(n)[..2]
  {
    PlaceInWeek(n);
    ShortNames();
    hide WeekdayOf, Lower;
  }

  lemma ShortNames()
    ensures WEEK[0][..2] == "mo" && WEEK[1][..2] == "tu" && WEEK[2][..2] == "we" && WEEK[3][..2] == "th"
    ensures WEEK[4][..2] == "fr" && WEEK[5][..2] == "sa" && WEEK[6][..2] == "su"
  {
  }

  /** Without a position the entry takes every such weekday of the month or year; with one it takes the nth from the
      beginning or, when negative, from the end. */
  predicate Takes(e: NDay, inYear: bool, n: int) {
    && ShortWeekday(e.day) == Some(WeekdayOf(n))
    && match e.nthOfPeriod
       case None => true
       case Some(k) =>
         if k > 0 then Matches([WeekdayOf(n)], Begin(inYear, n), n) + 1 == k
         else Matches([WeekdayOf(n)], n + 1, End(inYear, n)) + 1 == -k
  }

  predicate Candidate(byDay: seq<NDay>, inYear: bool, n: int) {
    exists i :: 0 <= i < |byDay| && Takes(byDay[i], inYear, n)
  }

  function Candidates(byDay: seq<NDay>, inYear: bool, a: int, b: int): nat
    decreases b - a
  {
    if a >= b then 0
    else Candidates(byDay, inYear, a, b - 1) + if Candidate(byDay, inYear, b - 1) then 1 else 0
  }

  /** Among the candidates of its month or year the day is at position `p`, counted from the end when `p` is
      negative. */
  predicate AtPosition(byDay: seq<NDay>, inYear: bool, n: int, p: int) {
    if p > 0 then Candidates(byDay, inYear, Begin(inYear, n), n) + 1 == p
    else Candidates(byDay, inYear, n + 1, End(inYear, n)) + 1 == -p
  }

  /** The rule selects the day by its `byDay`: it is a candidate, at one of the wanted positions if any are given; a
      rule without weekdays leaves no day out. */
  predicate Selects(rule: Rule, n: int) {
    var byDay, inYear := rule.byDay.GetOr([]), CountsInYear(rule);
    byDay != [] ==>
      && Candidate(byDay, inYear, n)
      && match rule.bySetPosition
         case None => true
         case Some(ps) => exists p :: p in ps && AtPosition(byDay, inYear, n, p)
  }

  /** The rank that a position of the two converters stands for. */
  function RankAt(p: int): Rank {
    if p > 0 then Nth(p) else Last
  }

  // ----- positions in the set of candidates

  function DaysOf(byDay: seq<NDay>): seq<Weekday> {
    if byDay == [] then []
    else
      var rest := DaysOf(byDay[1..]);
      match ShortWeekday(byDay[0].day)
      case Some(w) => [w] + rest
      case None => rest
  }

  lemma {:induction false} DaysOfContains(byDay: seq<NDay>, w: Weekday)
    ensures w in DaysOf(byDay) <==> exists i :: 0 <= i < |byDay| && ShortWeekday(byDay[i].day) == Some(w)
  {
    hide ShortWeekday;
    if byDay != [] {
      DaysOfContains(byDay[1..], w);
      assert (exists i :: 0 <= i < |byDay| && ShortWeekday(byDay[i].day) == Some(w)) <==>
        ShortWeekday(byDay[0].day) == Some(w) ||
        (exists i :: 0 <= i < |byDay[1..]| && ShortWeekday(byDay[1..][i].day) == Some(w)) by {
        if i :| 0 <= i < |byDay| && ShortWeekday(byDay[i].day) == Some(w) && i > 0 {
          assert byDay[1..][i - 1] == byDay[i];
        }
        if i :| 0 <= i < |byDay[1..]| && ShortWeekday(byDay[1..][i].day) == Some(w) {
          assert byDay[1..][i] == byDay[i + 1];
        }
      }
    }
  }

  lemma ShortOfName(name: string)
    ensures DayShort(name).Some? <==> ParseWeekday(name).Some?
    ensures DayShort(name).Some? ==> ShortWeekday(DayShort(name).value) == ParseWeekday(name)
  {
    NamesAreLower();
  }

  lemma {:induction false} ShortDaysAreNamed(names: seq<string>)
    ensures DaysOf(ShortDays(names)) == ParseWeekdays(names)
  {
    hide DayShort, ParseWeekday, ShortWeekday;
    if names != [] {
      ShortOfName(names[0]);
      ShortDaysAreNamed(names[1..]);
      if DayShort(names[0]).Some? {
        var first, rest := NDay(DayShort(names[0]).value, None), ShortDays(names[1..]);
        assert ShortDays(names) == [first] + rest && ([first] + rest)[1..] == rest;
      }
    }
  }

  predicate Plain(byDay: seq<NDay>) {
    forall i :: 0 <= i < |byDay| ==> byDay[i].nthOfPeriod == None
  }

  lemma PlainCandidate(byDay: seq<NDay>, inYear: bool, n: int)
    requires Plain(byDay)
    ensures Candidate(byDay, inYear, n) <==> WeekdayOf(n) in DaysOf(byDay)
  {
    DaysOfContains(byDay, WeekdayOf(n));
  }

  lemma {:induction false} PlainCandidates(byDay: seq<NDay>, inYear: bool, a: int, b: int)
    requires Plain(byDay)
    ensures Candidates(byDay, inYear, a, b) == Matches(DaysOf(byDay), a, b)
    decreases b - a
  {
    if a < b {
      PlainCandidates(byDay, inYear, a, b - 1);
      PlainCandidate(byDay, inYear, b - 1);
    }
  }

  /** A rule of plain weekdays and one set position selects the day of that rank among them. */
  lemma SetPositionIsRank(rule: Rule, p: int, n: int)
    requires rule.byDay.Some? && rule.byDay.value != [] && Plain(rule.byDay.value)
    requires rule.bySetPosition == Some([p]) && (p == -1 || p > 0)
    ensures Selects(rule, n) <==> IsRanked(CountsInYear(rule), n, DaysOf(rule.byDay.value), RankAt(p))
  {
    hide DaysOf, Candidate, Begin, End, WeekdayOf, CountsInYear;
    var byDay, inYear := rule.byDay.value, CountsInYear(rule);
    PlainCandidate(byDay, inYear, n);
    PlainCandidates(byDay, inYear, Begin(inYear, n), n);
    PlainCandidates(byDay, inYear, n + 1, End(inYear, n));
    assert p in [p];
    assert (exists q :: q in [p] && AtPosition(byDay, inYear, n, q)) <==> AtPosition(byDay, inYear, n, p);
  }

  /** A rule of weekdays with a position each selects that one of each of them. */
  lemma NthOfPeriodIsRank(rule: Rule, days: seq<string>, p: int, n: int)
    requires days != [] && rule.byDay == Some(Entries(days, Some(p)))
    requires rule.bySetPosition == None && (p == -1 || p > 0)
    ensures Selects(rule, n) <==>
      WeekdayOf(n) in DaysOf(rule.byDay.value) && IsRanked(CountsInYear(rule), n, [WeekdayOf(n)], RankAt(p))
  {
    hide DaysOf, Begin, End, WeekdayOf, ShortWeekday, Matches, CountsInYear;
    var byDay, inYear := rule.byDay.value, CountsInYear(rule);
    DaysOfContains(byDay, WeekdayOf(n));
    forall i | 0 <= i < |byDay|
      ensures Takes(byDay[i], inYear, n) <==>
        ShortWeekday(byDay[i].day) == Some(WeekdayOf(n)) && IsRanked(inYear, n, [WeekdayOf(n)], RankAt(p))
    {
    }
    if WeekdayOf(n) in DaysOf(byDay) && IsRanked(inYear, n, [WeekdayOf(n)], RankAt(p)) {
      var i :| 0 <= i < |byDay| && ShortWeekday(byDay[i].day) == Some(WeekdayOf(n));
      assert Takes(byDay[i], inYear, n);
    }
    if Candidate(byDay, inYear, n) {
      var i :| 0 <= i < |byDay| && Takes(byDay[i], inYear, n);
      assert ShortWeekday(byDay[i].day) == Some(WeekdayOf(n));
    }
  }

  // ----- the two converters compared

  lemma {:induction false} ShortDaysPlain(names: seq<string>)
    ensures Plain(ShortDays(names))
  {
    if names != [] {
      ShortDaysPlain(names[1..]);
    }
  }

  /** The rule made from a relative Graph pattern selects the day of its rank, in every year if the pattern is yearly
      and without a month, and otherwise in every month, as the expander does. */
  lemma GraphRuleSelects(pr: Recurrence, n: int)
    requires pr.pattern.Some? && pr.range.Some? && IsRelative(pr.pattern.value) && HasRank(pr.pattern.value)
    ensures
      var p := pr.pattern.value;
      var inYear := p.kind == Some("relativeYearly") && NonZero(p.month).None?;
      && CountsInYear(Convert(pr).value) == inYear
      && (Selects(Convert(pr).value, n) <==> IsRanked(inYear, n, Weekdays(p), RankOf(p.index.value)))
      && (!inYear ==> (Selects(Convert(pr).value, n) <==> IsRankedDay(n, Weekdays(p), RankOf(p.index.value))))
  {
    hide Selects, IsRankedDay, IsRanked, Convert, CountsInYear, NonZero, Plain, DaysOf, RankOf, SetPositionFor,
      Weekdays;
    var p := pr.pattern.value;
    ConvertedDays(pr);
    ConvertedPeriod(pr);
    PositionIsRank(p.index.value);
    SetPositionIsRank(Convert(pr).value, SetPositionFor(p.index.value).value, n);
    RankedInMonth(n, Weekdays(p), RankOf(p.index.value));
  }

  lemma PositionIsRank(index: string)
    requires SetPositionFor(index).Some?
    ensures RankOf(index) == RankAt(SetPositionFor(index).value)
    ensures SetPositionFor(index).value == -1 || SetPositionFor(index).value > 0
  {
  }

  lemma ConvertedDays(pr: Recurrence)
    requires pr.pattern.Some? && pr.range.Some? && IsRelative(pr.pattern.value) && HasRank(pr.pattern.value)
    ensures Convert(pr).Some?
    ensures
      var p, rule := pr.pattern.value, Convert(pr).value;
      && rule.byDay.Some? && rule.byDay.value != [] && Plain(rule.byDay.value)
      && DaysOf(rule.byDay.value) == Weekdays(p)
      && rule.bySetPosition == Some([SetPositionFor(p.index.value).value])
  {
    var names := pr.pattern.value.daysOfWeek.GetOr([]);
    WeekdaysSurvive(names);
    ShortDaysAreNamed(names);
    ShortDaysPlain(names);
    hide LongDays, ParseWeekdays, RecurrenceUntil, IntText, SetPositionFor, DayShort, NonZero, DaysOf;
  }

  lemma ConvertedPeriod(pr: Recurrence)
    requires pr.pattern.Some? && pr.range.Some? && IsRelative(pr.pattern.value)
    ensures
      CountsInYear(Convert(pr).value)
      <==>
      pr.pattern.value.kind == Some("relativeYearly") && NonZero(pr.pattern.value.month).None?
  {
    hide ShortDays, NonZero, SetPositionFor, RecurrenceUntil, IntText, DayShort;
  }

  lemma {:induction false} EntriesSameDays(days: seq<string>, nth: Option<int>)
    ensures DaysOf(Entries(days, nth)) == DaysOf(Entries(days, None))
  {
    hide ShortWeekday;
    if days != [] {
      EntriesSameDays(days[1..], nth);
      assert Entries(days, nth)[1..] == Entries(days[1..], nth);
      assert Entries(days, None)[1..] == Entries(days[1..], None);
    }
  }

  /** The weekdays a list of EWS day names stands for. */
  function NamedDays(names: seq<string>): seq<Weekday> {
    DaysOf(Entries(ExpandedDays(names), None))
  }

  /** The rule made from a relative EWS pattern selects the ranked day among the named ones if a name stands for
      a set of weekdays, and otherwise the ranked day of each weekday on its own. */
  lemma EwsRuleSelects(rule: Rule, names: seq<string>, index: string, n: int)
    requires rule.bySetPosition == None && NthOfPeriod(index).Some? && ExpandedDays(names) != []
    ensures
      var rank, inYear := RankAt(NthOfPeriod(index).value), CountsInYear(rule);
      Selects(RelativeByDay(rule, names, index), n) <==>
        if HasSet(names) then IsRanked(inYear, n, NamedDays(names), rank)
        else WeekdayOf(n) in NamedDays(names) && IsRanked(inYear, n, [WeekdayOf(n)], rank)
  {
    var p := NthOfPeriod(index).value;
    var days := ExpandedDays(names);
    var r := RelativeByDay(rule, names, index);
    assert CountsInYear(r) == CountsInYear(rule);
    if HasSet(names) {
      SetPositionIsRank(r, p, n);
    } else {
      NthOfPeriodIsRank(r, days, p, n);
      EntriesSameDays(days, Some(p));
    }
    hide Selects, IsRanked, ExpandedDays, HasSet, CountsInYear;
  }

  // ----- the named days, once each

  predicate IsShort(d: string) {
    d == "mo" || d == "tu" || d == "we" || d == "th" || d == "fr" || d == "sa" || d == "su"
  }

  lemma ShortsDiffer(a: string, b: string)
    requires IsShort(a) && IsShort(b)
    ensures ShortWeekday(a).Some?
    ensures ShortWeekday(a) == ShortWeekday(b) ==> a == b
  {
    NamesAreLower();
  }

  predicate OnceEach(days: seq<string>) {
    && (forall i :: 0 <= i < |days| ==> IsShort(days[i]))
    && (forall i, j :: 0 <= i < j < |days| ==> days[i] != days[j])
  }

  lemma {:induction false} AddNewOnce(days: seq<string>, slice: seq<string>)
    requires OnceEach(days) && forall i :: 0 <= i < |slice| ==> IsShort(slice[i])
    ensures OnceEach(AddNew(days, slice))
    decreases slice
  {
    hide IsShort;
    if slice != [] {
      AddNewOnce(if slice[0] in days then days else days + [slice[0]], slice[1..]);
    }
  }

  lemma {:induction false} ExpandedDaysOnce(names: seq<string>)
    ensures OnceEach(ExpandedDays(names))
  {
    if names != [] {
      ExpandedDaysOnce(names[..|names| - 1]);
      var slice := ExpandDay(names[|names| - 1]).GetOr([]);
      assert forall i :: 0 <= i < |slice| ==> IsShort(slice[i]);
      AddNewOnce(ExpandedDays(names[..|names| - 1]), slice);
    }
  }

  /** Of two days of a month or year only one has a rank. */
  lemma RankIsUnique(inYear: bool, a: int, b: int, days: seq<Weekday>, rank: Rank)
    requires a < b && Begin(inYear, a) == Begin(inYear, b) <= a && b < End(inYear, b) == End(inYear, a)
    ensures !(IsRanked(inYear, a, days, rank) && IsRanked(inYear, b, days, rank))
  {
    hide Begin, End, Matches, WeekdayOf;
    if WeekdayOf(a) in days && WeekdayOf(b) in days {
      MatchesPositive(days, Begin(inYear, a), a, b);
      MatchesPositive(days, a + 1, b, End(inYear, a));
    }
  }

  /** In a month or year that has both, the nth of two different weekdays are two days, and only one of them can be
      the nth of the two together. */
  lemma TwoDaysDisagree(inYear: bool, days: seq<Weekday>, rank: Rank, v: Weekday, w: Weekday) returns (n: int)
    requires v in days && w in days && v != w
    requires rank == Last || (rank.Nth? && 1 <= rank.n <= 4)
    ensures WeekdayOf(n) in days && IsRanked(inYear, n, [WeekdayOf(n)], rank) && !IsRanked(inYear, n, days, rank)
  {
    var a := RankedIn(inYear, v, rank);
    var b := RankedIn(inYear, w, rank);
    hide IsRanked, Begin, End, WeekdayOf, FirstOfMonth;
    if a < b {
      RankIsUnique(inYear, a, b, days, rank);
    } else {
      RankIsUnique(inYear, b, a, days, rank);
    }
    n := if IsRanked(inYear, a, days, rank) then b else a;
  }

  /** The ranked day of a weekday in 1970: in January, which begins the year, or in December, which ends it. */
  lemma RankedIn(inYear: bool, w: Weekday, rank: Rank) returns (n: int)
    requires rank == Last || (rank.Nth? && 1 <= rank.n <= 4)
    ensures WeekdayOf(n) == w && IsRanked(inYear, n, [w], rank)
    ensures Begin(inYear, n) <= n < End(inYear, n)
    ensures var t := if rank.Last? then EPOCH_MONTH + 11 else EPOCH_MONTH;
      && Begin(inYear, n) == FirstOfMonth(if inYear then EPOCH_MONTH else t)
      && End(inYear, n) == FirstOfMonth(if inYear then EPOCH_MONTH + 12 else t + 1)
  {
    hide MonthOf, FirstOfMonth, Matches, WeekdayOf, FirstOffset;
    var t := if rank.Last? then EPOCH_MONTH + 11 else EPOCH_MONTH;
    if rank.Last? {
      var a := FirstOfMonth(t + 1) - 7;
      n := a + (w - WeekdayOf(a)) % 7;
      LastWeekdayExists(t, w);
      FirstOfMonthIncreases(EPOCH_MONTH, t);
    } else {
      n := FirstOfMonth(t) + FirstOffset(t, w) + 7 * (rank.n - 1);
      NthWeekdayExists(t, w, rank.n);
      FirstOfMonthIncreases(t + 1, EPOCH_MONTH + 12);
    }
    assert YearOf(n) == 1970;
  }

  lemma NamedTwice(names: seq<string>) returns (v: Weekday, w: Weekday)
    requires |ExpandedDays(names)| > 1
    ensures v in NamedDays(names) && w in NamedDays(names) && v != w
  {
    var days := ExpandedDays(names);
    ExpandedDaysOnce(names);
    ShortsDiffer(days[0], days[1]);
    ShortsDiffer(days[1], days[0]);
    hide IsShort, ShortWeekday, ExpandedDays;
    v, w := ShortWeekday(days[0]).value, ShortWeekday(days[1]).value;
    var byDay := Entries(days, None);
    DaysOfContains(byDay, v);
    DaysOfContains(byDay, w);
    assert ShortWeekday(byDay[0].day) == Some(v) && ShortWeekday(byDay[1].day) == Some(w);
  }

  lemma NamedOnce(names: seq<string>)
    requires |ExpandedDays(names)| == 1
    ensures |NamedDays(names)| == 1
  {
    var days := ExpandedDays(names);
    ExpandedDaysOnce(names);
    ShortsDiffer(days[0], days[0]);
    hide ShortWeekday, ExpandedDays, IsShort;
    assert Entries(days, None) == [NDay(days[0], None)] && Entries(days, None)[1..] == [];
    assert DaysOf([]) == [];
  }

  /** The rule of a relative EWS pattern selects the same day of every month or year as the position among the named
      weekdays, which is what a Graph rule selects, exactly when a name stands for a set or only one day is named. */
  lemma ConvertersAgree(rule: Rule, names: seq<string>, index: string)
    requires rule.bySetPosition == None && NthOfPeriod(index).Some? && ExpandedDays(names) != []
    ensures
      var rank, inYear := RankAt(NthOfPeriod(index).value), CountsInYear(rule);
      (forall n :: Selects(RelativeByDay(rule, names, index), n) <==> IsRanked(inYear, n, NamedDays(names), rank))
      <==> (HasSet(names) || |ExpandedDays(names)| == 1)
  {
    var rank, inYear := RankAt(NthOfPeriod(index).value), CountsInYear(rule);
    if |ExpandedDays(names)| == 1 {
      NamedOnce(names);
    }
    hide NthOfPeriod, RelativeByDay, ExpandedDays, NamedDays, HasSet, Selects, WeekdayOf, Matches, CountsInYear, Begin,
      End;
    forall n
      ensures Selects(RelativeByDay(rule, names, index), n) <==>
        if HasSet(names) then IsRanked(inYear, n, NamedDays(names), rank)
        else WeekdayOf(n) in NamedDays(names) && IsRanked(inYear, n, [WeekdayOf(n)], rank)
    {
      EwsRuleSelects(rule, names, index, n);
    }
    if |ExpandedDays(names)| == 1 {
      var only := NamedDays(names)[0];
      assert NamedDays(names) == [only];
    } else if !HasSet(names) {
      var v, w := NamedTwice(names);
      var n := TwoDaysDisagree(inYear, NamedDays(names), rank, v, w);
    }
  }
}
