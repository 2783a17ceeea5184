/** The expander of Graph recurrences (src/exchange_graph/expand.rs), proved against `Series`. */
module Expand {
  import opened Wrappers
  import opened Calendar
  import opened Sorting
  import opened Arithmetic
  import opened Series
  import opened Recurrence

  // ----- date arithmetic of the expander

  /** `weekday_offset`: days from the first day of the week. */
  function WeekdayOffset(first: Weekday, day: Weekday): int {
    (day - first) % 7
  }

  /** `start_of_week`. */
  function StartOfWeek(n: int, first: Weekday): int {
    n - WeekdayOffset(first, WeekdayOf(n))
  }

  /** `last_day_of_month`. */
  function LastDayOfMonth(y: int, m: int): Option<int> {
    var firstNext :- if m == 12 then FromYmd(y + 1, 1, 1) else FromYmd(y, m + 1, 1);
    Some(DayOf(firstNext - 1))
  }

  /** `clamped_day`. */
  function ClampedDay(y: int, m: int, day: nat): Option<int> {
    if !(1 <= m <= 12) then None
    else
      var last := LastDayOfMonth(y, m).value;
      FromYmd(y, m, if day <= last then day else last)
  }

  /** `add_months`: the first of the month that many months later. */
  function AddMonths(n: int, months: int): Option<int> {
    var total := YearOf(n) * 12 + (MonthOfYear(n) - 1) + months;
    FromYmd(total / 12, total % 12 + 1, 1)
  }

  lemma StartOfWeekIs(n: int, days: seq<Weekday>, first: Weekday)
    ensures StartOfWeek(n, first) == PeriodStart(Weekly(days, first), PeriodOf(Weekly(days, first), n))
  {
  }

  lemma FirstOfMonthDate(y: int, m: int)
    requires 1 <= m <= 12
    ensures FromYmd(y, m, 1) == Some(FirstOfMonth(MonthIndex(y, m)))
  {
  }

  lemma LastDayOfMonthIs(y: int, m: int)
    requires 1 <= m <= 12
    ensures LastDayOfMonth(y, m) == Some(DaysIn(y, m))
  {
    hide FirstOfMonth, MonthOf;
    var t := MonthIndex(y, m);
    assert (if m == 12 then MonthIndex(y + 1, 1) else MonthIndex(y, m + 1)) == t + 1;
    MonthParts(y, m);
    MonthStep(t);
    MonthOfUnique(FirstOfMonth(t + 1) - 1, t);
  }

  lemma ClampedDayAt(y: int, m: int, day: nat)
    requires 1 <= m <= 12
    ensures
      var d := Date(y, m, if day <= DaysIn(y, m) then day else DaysIn(y, m));
      if day >= 1 then Valid(d) && ClampedDay(y, m, day) == Some(Number(d)) else ClampedDay(y, m, day) == None
  {
    hide FirstOfMonth, LastDayOfMonth;
    LastDayOfMonthIs(y, m);
  }

  lemma ClampedDayOf(n: int, y: int, m: int, day: nat)
    requires 1 <= m <= 12 && MonthOf(n) == MonthIndex(y, m)
    ensures
      IsClampedDay(n, day)
      <==>
      (day >= 1 && DateOf(n) == Date(y, m, if day <= DaysIn(y, m) then day else DaysIn(y, m)))
  {
    hide MonthOf, FirstOfMonth, DaysIn;
    MonthParts(y, m);
  }

  lemma NumberOfDate(n: int)
    ensures Number(DateOf(n)) == n
  {
    hide MonthOf, FirstOfMonth;
  }

  /** The clamped day is the one day of its month that `IsClampedDay` describes. */
  lemma ClampedDayIs(y: int, m: int, day: nat, n: int)
    ensures ClampedDay(y, m, day) == Some(n) <==> 1 <= m <= 12 && MonthOf(n) == MonthIndex(y, m) && IsClampedDay(n, day)
  {
    if 1 <= m <= 12 {
      ClampedDayAt(y, m, day);
      hide *;
      var d := Date(y, m, if day <= DaysIn(y, m) then day else DaysIn(y, m));
      if day >= 1 {
        NumberInverse(d);
      }
      if MonthOf(n) == MonthIndex(y, m) {
        ClampedDayOf(n, y, m, day);
        NumberOfDate(n);
      }
    }
  }

  lemma AddMonthsIs(n: int, months: int)
    ensures AddMonths(n, months) == Some(FirstOfMonth(MonthOf(n) + months))
  {
    hide FirstOfMonth, MonthOf, FromYmd;
    var t := MonthOf(n) + months;
    assert YearOf(n) * 12 + (MonthOfYear(n) - 1) + months == t;
    assert MonthIndex(t / 12, t % 12 + 1) == t;
    FirstOfMonthDate(t / 12, t % 12 + 1);
  }

  // ----- the nth weekday of a month

  /** `matches` lists the days from `a` up to but not including `b` that fall on one of the weekdays. */
  ghost predicate Lists(matches: seq<int>, days: seq<Weekday>, a: int, b: int) {
    && |matches| == Matches(days, a, b)
    && (forall i :: 0 <= i < |matches| ==> a <= matches[i] < b && WeekdayOf(matches[i]) in days)
    && (forall i :: 0 <= i < |matches| ==> Matches(days, a, matches[i]) == i)
  }

  lemma {:induction false} MatchesBelow(days: seq<Weekday>, a: int, n: int, b: int)
    requires a <= n < b && WeekdayOf(n) in days
    ensures Matches(days, a, b) == Matches(days, a, n) + 1 + Matches(days, n + 1, b)
  {
    MatchesSplit(days, a, n + 1, b);
  }

  /** Ranks identify days: entry `i` of the list is the day with `i` listed days before it. */
  lemma ListedAt(matches: seq<int>, days: seq<Weekday>, a: int, b: int, n: int)
    requires Lists(matches, days, a, b)
    requires a <= n < b && WeekdayOf(n) in days
    ensures Matches(days, a, n) < |matches| && matches[Matches(days, a, n)] == n
  {
    MatchesBelow(days, a, n, b);
    var x := matches[Matches(days, a, n)];
    if x < n {
      MatchesBelow(days, a, x, n);
    } else if n < x {
      MatchesBelow(days, a, n, x);
    }
  }

  /** The entry the code picks from the list of matching days. */
  function Pick(matches: seq<int>, rank: Rank): Option<int> {
    match rank
    case Nth(k) => if 1 <= k <= |matches| then Some(matches[k - 1]) else None
    case Last => if matches != [] then Some(matches[|matches| - 1]) else None
  }

  lemma PickFromList(matches: seq<int>, days: seq<Weekday>, a: int, b: int, rank: Rank, n: int)
    requires Lists(matches, days, a, b)
    ensures Pick(matches, rank) == Some(n) <==>
      && a <= n < b
      && WeekdayOf(n) in days
      && match rank
         case Nth(k) => Matches(days, a, n) + 1 == k
         case Last => Matches(days, n + 1, b) == 0
  {
    if a <= n < b && WeekdayOf(n) in days {
      ListedAt(matches, days, a, b, n);
      MatchesBelow(days, a, n, b);
    }
    if matches != [] {
      var x := matches[|matches| - 1];
      MatchesBelow(days, a, x, b);
    }
  }

  lemma PickIsRanked(matches: seq<int>, days: seq<Weekday>, t: int, rank: Rank, n: int)
    requires Lists(matches, days, FirstOfMonth(t), FirstOfMonth(t + 1))
    ensures Pick(matches, rank) == Some(n) <==> MonthOf(n) == t && IsRankedDay(n, days, rank)
  {
    hide Pick, MonthOf, FirstOfMonth, Lists, Matches, WeekdayOf;
    PickFromList(matches, days, FirstOfMonth(t), FirstOfMonth(t + 1), rank, n);
    if FirstOfMonth(t) <= n < FirstOfMonth(t + 1) {
      MonthOfUnique(n, t);
    }
  }

  lemma ListsExtend(matches: seq<int>, days: seq<Weekday>, a: int, b: int)
    requires a <= b && Lists(matches, days, a, b)
    ensures Lists(if WeekdayOf(b) in days then matches + [b] else matches, days, a, b + 1)
  {
  }

  lemma DayOfMonthNumber(y: int, m: int, day: int)
    requires 1 <= m <= 12 && 1 <= day <= DaysIn(y, m)
    ensures FromYmd(y, m, day) == Some(FirstOfMonth(MonthIndex(y, m)) + day - 1)
  {
  }

  lemma MonthSpan(y: int, m: int)
    requires 1 <= m <= 12
    ensures FirstOfMonth(MonthIndex(y, m) + 1) == FirstOfMonth(MonthIndex(y, m)) + DaysIn(y, m)
  {
    MonthParts(y, m);
    MonthStep(MonthIndex(y, m));
  }

  /** The loop of `nth_weekday_of_month`: collects the month's days on the given weekdays. */
  method MatchesOfMonth(y: int, m: int, days: seq<Weekday>, last: int) returns (matches: seq<int>)
    requires 1 <= m <= 12 && last == DaysIn(y, m)
    ensures Lists(matches, days, FirstOfMonth(MonthIndex(y, m)), FirstOfMonth(MonthIndex(y, m) + 1))
  {
    ghost var a := FirstOfMonth(MonthIndex(y, m));
    matches := [];
    for day := 1 to last + 1
      invariant Lists(matches, days, a, a + day - 1)
    {
      DayOfMonthNumber(y, m, day);
      var date := FromYmd(y, m, day).value;
      ListsExtend(matches, days, a, date);
      if WeekdayOf(date) in days {
        matches := matches + [date];
      }
    }
    MonthSpan(y, m);
  }

  /** `nth_weekday_of_month`: the only day of the month with that rank among the given weekdays, if any. */
  method NthWeekdayOfMonth(y: int, m: int, days: seq<Weekday>, index: string) returns (r: Option<int>)
    ensures forall n :: r == Some(n) <==>
      1 <= m <= 12 && MonthOf(n) == MonthIndex(y, m) && IsRankedDay(n, days, RankOf(index))
  {
    if days == [] || !(1 <= m <= 12) {
      return None;
    }
    LastDayOfMonthIs(y, m);
    var last := LastDayOfMonth(y, m).value;
    var matches := MatchesOfMonth(y, m, days, last);
    r := Pick(matches, RankOf(index));
    forall n
      ensures r == Some(n) <==> MonthOf(n) == MonthIndex(y, m) && IsRankedDay(n, days, RankOf(index))
    {
      PickIsRanked(matches, days, MonthIndex(y, m), RankOf(index), n);
    }
  }

  // ----- one round of the loop

  /** The values the loop reads and never changes. */
  datatype Bounds = Bounds(start: int, limit: Option<int>, windowStart: int, windowEnd: int)
  {
    predicate Fits(s: Series) {
      start == s.start && limit == s.limit
    }

    predicate InWindow(n: int) {
      windowStart <= n <= windowEnd
    }
  }

  /** The values the loop accumulates. */
  datatype Output = Output(dates: seq<int>, emitted: nat)

  /** The closure `push`: counts an admitted date, and keeps it when it is in the window. */
  method Push(b: Bounds, ghost s: Series, date: int, o: Output) returns (o': Output)
    requires b.Fits(s)
    ensures o'.emitted == o.emitted + if Admitted(s, date) then 1 else 0
    ensures forall n :: n in o'.dates <==> n in o.dates || (n == date && Admitted(s, n) && b.InWindow(n))
  {
    if date < b.start {
      return o;
    }
    if b.limit.Some? && date > b.limit.value {
      return o;
    }
    o' := o.(emitted := o.emitted + 1);
    if date >= b.windowStart && date <= b.windowEnd {
      o' := o'.(dates := o.dates + [date]);
    }
  }

  /** What one round adds: the period's occurrences in the window, and their tally. */
  ghost predicate Emits(s: Series, p: int, b: Bounds, o: Output, o': Output)
    requires s.Valid()
  {
    && o'.emitted == o.emitted + Tally(s, PeriodStart(s.kind, p), PeriodStart(s.kind, p + 1))
    && forall n :: n in o'.dates <==>
         n in o.dates || (b.InWindow(n) && Occurs(s, n) && PeriodOf(s.kind, n) == p)
  }

  /** The round of a kind with at most one day in each period. */
  method PushHit(b: Bounds, ghost s: Series, ghost p: int, hit: Option<int>, o: Output) returns (o': Output)
    requires s.Valid() && b.Fits(s) && !s.kind.Weekly? && Visited(s, p)
    requires forall n :: hit == Some(n) <==> PeriodOf(s.kind, n) == p && Hit(s.kind, n)
    ensures Emits(s, p, b, o, o')
  {
    ghost var from, to := PeriodStart(s.kind, p), PeriodStart(s.kind, p + 1);
    forall n
      ensures from <= n < to <==> PeriodOf(s.kind, n) == p
    {
      PeriodAtLeast(s.kind, n, p);
      PeriodAtLeast(s.kind, n, p + 1);
    }
    if hit.Some? {
      assert hit == Some(hit.value);
      TallyOne(s, from, hit.value, to);
      o' := Push(b, s, hit.value, o);
    } else {
      TallyNone(s, from, to);
      o' := o;
    }
  }

  // ----- a week's round

  /** The admitted days among the first `o` days of the week from `w`, counted once per listing. */
  function WeekWeight(s: Series, days: seq<Weekday>, w: int, o: nat): nat {
    if o == 0 then 0
    else WeekWeight(s, days, w, o - 1) + if Admitted(s, w + o - 1) then multiset(days)[WeekdayOf(w + o - 1)] else 0
  }

  lemma {:induction false} WeekWeightEmpty(s: Series, w: int, o: nat)
    ensures WeekWeight(s, [], w, o) == 0
  {
    if o > 0 {
      WeekWeightEmpty(s, w, o - 1);
    }
  }

  lemma WeekdayAt(w: int, first: Weekday, day: Weekday, o: int)
    requires WeekdayOf(w) == first && 0 <= o < 7
    ensures WeekdayOf(w + o) == day <==> WeekdayOffset(first, day) == o
  {
  }

  lemma {:induction false} WeekWeightAdd(s: Series, days: seq<Weekday>, first: Weekday, day: Weekday, w: int, o: nat)
    requires WeekdayOf(w) == first && o <= 7
    ensures WeekWeight(s, days + [day], w, o)
         == WeekWeight(s, days, w, o)
          + if WeekdayOffset(first, day) < o && Admitted(s, w + WeekdayOffset(first, day)) then 1 else 0
  {
    if o > 0 {
      WeekWeightAdd(s, days, first, day, w, o - 1);
      WeekdayAt(w, first, day, o - 1);
    }
  }

  lemma WeekSpan(k: Kind, p: int, n: int)
    requires k.Weekly?
    ensures PeriodStart(k, p + 1) == PeriodStart(k, p) + 7
    ensures PeriodOf(k, n) == p <==> PeriodStart(k, p) <= n < PeriodStart(k, p) + 7
  {
    PeriodAtLeast(k, n, p);
    PeriodAtLeast(k, n, p + 1);
  }

  lemma DayWeight(s: Series, p: int, n: int)
    requires s.Valid() && s.kind.Weekly? && Visited(s, p)
    requires PeriodStart(s.kind, p) <= n < PeriodStart(s.kind, p) + 7
    ensures
      (if Occurs(s, n) then Weight(s.kind, n) else 0)
      == (if Admitted(s, n) then multiset(s.kind.days)[WeekdayOf(n)] else 0)
  {
    hide PeriodStart, PeriodOf, Visited, Admitted, WeekdayOf;
    WeekSpan(s.kind, p, n);
  }

  lemma {:induction false} WeekWeightIsTally(s: Series, p: int, o: nat)
    requires s.Valid() && s.kind.Weekly? && Visited(s, p) && o <= 7
    ensures var w := PeriodStart(s.kind, p); Tally(s, w, w + o) == WeekWeight(s, s.kind.days, w, o)
  {
    hide PeriodStart, Visited, Admitted, WeekdayOf, Occurs, Weight;
    if o > 0 {
      WeekWeightIsTally(s, p, o - 1);
      DayWeight(s, p, PeriodStart(s.kind, p) + o - 1);
    }
  }

  /** `out'` is `out` and the week's admitted days in the window that fall on the given weekdays. */
  ghost predicate WeekOut(s: Series, b: Bounds, w: int, days: seq<Weekday>, out: seq<int>, out': seq<int>) {
    forall n :: n in out' <==>
      (n in out || (Admitted(s, n) && b.InWindow(n) && w <= n < w + 7 && WeekdayOf(n) in days))
  }

  lemma WeekOutAdd(s: Series, b: Bounds, w: int, days: seq<Weekday>, first: Weekday, day: Weekday,
      out: seq<int>, mid: seq<int>, out': seq<int>)
    requires WeekdayOf(w) == first
    requires WeekOut(s, b, w, days, out, mid)
    requires forall n :: n in out' <==>
      n in mid || (n == w + WeekdayOffset(first, day) && Admitted(s, n) && b.InWindow(n))
    ensures WeekOut(s, b, w, days + [day], out, out')
  {
    forall n | w <= n < w + 7
      ensures n == w + WeekdayOffset(first, day) <==> WeekdayOf(n) == day
    {
      WeekdayAt(w, first, day, n - w);
    }
  }

  lemma WeekEmits(s: Series, p: int, b: Bounds, o: Output, o': Output)
    requires s.Valid() && s.kind.Weekly? && Visited(s, p)
    requires WeekOut(s, b, PeriodStart(s.kind, p), s.kind.days, o.dates, o'.dates)
    requires o'.emitted == o.emitted + WeekWeight(s, s.kind.days, PeriodStart(s.kind, p), 7)
    ensures Emits(s, p, b, o, o')
  {
    hide PeriodStart, PeriodOf, Visited, Admitted, WeekdayOf, Tally, WeekWeight;
    WeekWeightIsTally(s, p, 7);
    forall n
      ensures PeriodOf(s.kind, n) == p <==> PeriodStart(s.kind, p) <= n < PeriodStart(s.kind, p) + 7
    {
      WeekSpan(s.kind, p, n);
    }
    WeekSpan(s.kind, p, p);
  }

  /** A week's round pushes every listed weekday, in the order of the list. */
  method PushWeek(b: Bounds, ghost s: Series, ghost p: int, days: seq<Weekday>, first: Weekday, weekStart: int,
      o: Output)
    returns (o': Output)
    requires s.Valid() && b.Fits(s) && s.kind == Weekly(days, first) && Visited(s, p)
    requires weekStart == PeriodStart(s.kind, p)
    ensures Emits(s, p, b, o, o')
  {
    assert WeekdayOf(weekStart) == first && WeekOut(s, b, weekStart, days[..0], o.dates, o.dates);
    hide WeekOut, WeekWeight, Emits, Visited, PeriodOf, PeriodStart, Tally, Admitted, WeekdayOf;
    o' := o;
    WeekWeightEmpty(s, weekStart, 7);
    for i := 0 to |days|
      invariant o'.emitted == o.emitted + WeekWeight(s, days[..i], weekStart, 7)
      invariant WeekOut(s, b, weekStart, days[..i], o.dates, o'.dates)
    {
      var offset := WeekdayOffset(first, days[i]);
      var date := weekStart + offset;
      ghost var mid := o';
      o' := Push(b, s, date, o');
      WeekOutAdd(s, b, weekStart, days[..i], first, days[i], o.dates, mid.dates, o'.dates);
      WeekWeightAdd(s, days[..i], first, days[i], weekStart, 7);
      assert days[..i + 1] == days[..i] + [days[i]];
    }
    assert days[..|days|] == days;
    WeekEmits(s, p, b, o, o');
  }

  // ----- the rounds of the six kinds

  function SeriesOf(k: Kind, interval: int, b: Bounds, count: Option<nat>): Series {
    Series(k, interval, b.start, b.limit, count)
  }

  lemma MonthInYear(n: int, y: int, m: int)
    requires 1 <= m <= 12
    ensures MonthOf(n) == MonthIndex(y, m) <==> YearOf(n) == y && MonthOfYear(n) == m
  {
    MonthParts(y, m);
  }

  method AbsoluteRound(b: Bounds, ghost s: Series, year: int, month: int, day: nat, ghost p: int, o: Output)
    returns (o': Output)
    requires s.Valid() && b.Fits(s) && Visited(s, p)
    requires (s.kind == AbsoluteMonthly(day) && p == MonthIndex(year, month) && 1 <= month <= 12)
          || (month >= 0 && s.kind == AbsoluteYearly(month, day) && p == year)
    ensures Emits(s, p, b, o, o')
  {
    forall n
      ensures ClampedDay(year, month, day) == Some(n) <==> PeriodOf(s.kind, n) == p && Hit(s.kind, n)
    {
      ClampedDayIs(year, month, day, n);
      if 1 <= month <= 12 {
        MonthInYear(n, year, month);
      }
    }
    o' := PushHit(b, s, p, ClampedDay(year, month, day), o);
  }

  method RelativeRound(b: Bounds, ghost s: Series, year: int, month: int, days: seq<Weekday>, index: string,
      ghost p: int, o: Output)
    returns (o': Output)
    requires s.Valid() && b.Fits(s) && Visited(s, p)
    requires (s.kind == RelativeMonthly(days, RankOf(index)) && p == MonthIndex(year, month) && 1 <= month <= 12)
          || (month >= 0 && s.kind == RelativeYearly(month, days, RankOf(index)) && p == year)
    ensures Emits(s, p, b, o, o')
  {
    var hit := NthWeekdayOfMonth(year, month, days, index);
    forall n
      ensures hit == Some(n) <==> PeriodOf(s.kind, n) == p && Hit(s.kind, n)
    {
      if 1 <= month <= 12 {
        MonthInYear(n, year, month);
      }
    }
    o' := PushHit(b, s, p, hit, o);
  }

  /** The body of the loop up to its tests: the round of whichever kind the pattern names,
      and the cursor on the first day of the next period to visit. */
  method Round(pattern: Pattern, interval: int, b: Bounds, ghost count: Option<nat>, cursor: int, o: Output)
    returns (r: Option<(int, Output)>)
    requires interval > 0 && (count.Some? ==> count.value > 0)
    requires ReadKind(pattern).Some? ==>
      var k := ReadKind(pattern).value; Visited(SeriesOf(k, interval, b, count), PeriodOf(k, cursor))
    ensures r.Some? <==> ReadKind(pattern).Some?
    ensures r.Some? ==>
      var k := ReadKind(pattern).value;
      && r.value.0 == PeriodStart(k, PeriodOf(k, cursor) + interval)
      && Emits(SeriesOf(k, interval, b, count), PeriodOf(k, cursor), b, o, r.value.1)
  {
    hide Emits, Visited, FirstOfMonth, MonthOf, ParseWeekdays, ParseWeekday, RankOf;
    if pattern.kind.None? {
      return None;
    }
    var kind := pattern.kind.value;
    ghost var k := ReadKind(pattern).GetOr(Daily);
    ghost var s := SeriesOf(k, interval, b, count);
    if kind == "daily" {
      var o' := PushHit(b, s, cursor, Some(cursor), o);
      r := Some((cursor + interval, o'));
    } else if kind == "weekly" {
      var days := Weekdays(pattern);
      if days == [] {
        return None;
      }
      var first := FirstDayOfWeek(pattern);
      var weekStart := StartOfWeek(cursor, first);
      StartOfWeekIs(cursor, days, first);
      var o' := PushWeek(b, s, PeriodOf(k, cursor), days, first, weekStart, o);
      r := Some((weekStart + 7 * interval, o'));
    } else if kind == "absoluteMonthly" {
      var dom := AsU64(pattern.dayOfMonth);
      if dom.None? {
        return None;
      }
      var o' := AbsoluteRound(b, s, YearOf(cursor), MonthOfYear(cursor), AsU32(dom.value), MonthOf(cursor), o);
      AddMonthsIs(cursor, interval);
      r := Some((AddMonths(cursor, interval).value, o'));
    } else if kind == "relativeMonthly" {
      var o' := RelativeRound(b, s, YearOf(cursor), MonthOfYear(cursor), Weekdays(pattern), Index(pattern),
                              MonthOf(cursor), o);
      AddMonthsIs(cursor, interval);
      r := Some((AddMonths(cursor, interval).value, o'));
    } else if kind == "absoluteYearly" {
      var month, dom := AsU64(pattern.month), AsU64(pattern.dayOfMonth);
      if month.None? || dom.None? {
        return None;
      }
      var o' := AbsoluteRound(b, s, YearOf(cursor), AsU32(month.value), AsU32(dom.value), YearOf(cursor), o);
      FirstOfMonthDate(YearOf(cursor) + interval, 1);
      r := Some((FromYmd(YearOf(cursor) + interval, 1, 1).value, o'));
    } else if kind == "relativeYearly" {
      var month := AsU64(pattern.month);
      if month.None? {
        return None;
      }
      var o' := RelativeRound(b, s, YearOf(cursor), AsU32(month.value), Weekdays(pattern), Index(pattern),
                              YearOf(cursor), o);
      FirstOfMonthDate(YearOf(cursor) + interval, 1);
      r := Some((FromYmd(YearOf(cursor) + interval, 1, 1).value, o'));
    } else {
      r := None;
    }
  }

  // ----- the loop

  /** The period visited after `done` rounds. */
  function NthPeriod(s: Series, done: nat): int {
    if done == 0 then PeriodOf(s.kind, s.start) else NthPeriod(s, done - 1) + s.interval
  }

  lemma {:induction false} NthPeriodIs(s: Series, done: nat)
    requires s.Valid()
    ensures NthPeriod(s, done) == PeriodOf(s.kind, s.start) + s.interval * done
    ensures NthPeriod(s, done) >= PeriodOf(s.kind, s.start)
    ensures Visited(s, NthPeriod(s, done))
  {
    if done > 0 {
      NthPeriodIs(s, done - 1);
      assert s.interval * done == s.interval * (done - 1) + s.interval;
    }
    DivModUnique(s.interval * done, s.interval, done, 0);
  }

  /** Where the loop stands after `done` rounds: it has counted every occurrence before the cursor's
      period, and kept exactly the members before it that are in the window. */
  ghost predicate Standing(s: Series, b: Bounds, done: nat, cursor: int, o: Output)
    requires s.Valid()
  {
    var p := NthPeriod(s, done);
    && cursor == (if done == 0 then s.start else PeriodStart(s.kind, p))
    && o.emitted == Tally(s, s.start, PeriodStart(s.kind, p))
    && forall n :: n in o.dates <==> b.InWindow(n) && Member(s, n) && PeriodOf(s.kind, n) < p
  }

  lemma CursorPeriod(s: Series, b: Bounds, done: nat, cursor: int, o: Output)
    requires s.Valid() && Standing(s, b, done, cursor, o)
    ensures PeriodOf(s.kind, cursor) == NthPeriod(s, done)
    ensures Visited(s, PeriodOf(s.kind, cursor))
  {
    PeriodStartOf(s.kind, NthPeriod(s, done));
    NthPeriodIs(s, done);
  }

  /** A visited period is an earlier one, the next one, or an interval or more later. */
  lemma NextVisited(s: Series, done: nat, q: int)
    requires s.Valid() && Visited(s, q)
    ensures q < NthPeriod(s, done) <==> (q - PeriodOf(s.kind, s.start)) / s.interval < done
    ensures NthPeriod(s, done) < q ==> NthPeriod(s, done) + s.interval <= q
  {
    var x := q - PeriodOf(s.kind, s.start);
    NthPeriodIs(s, done);
    DivModParts(x, s.interval);
    MultipleOrder(s.interval, x / s.interval, done);
  }

  /** The tally up to the next visited period is the tally so far and that of the round. */
  lemma TallyOfRound(s: Series, p: int)
    requires s.Valid() && PeriodOf(s.kind, s.start) <= p
    requires forall r :: p < r < p + s.interval ==> !Visited(s, r)
    ensures Tally(s, s.start, PeriodStart(s.kind, p + s.interval))
         == Tally(s, s.start, PeriodStart(s.kind, p)) + Tally(s, PeriodStart(s.kind, p), PeriodStart(s.kind, p + 1))
  {
    var from, to, next := PeriodStart(s.kind, p), PeriodStart(s.kind, p + 1), PeriodStart(s.kind, p + s.interval);
    PeriodAtLeast(s.kind, s.start, p);
    PeriodAtLeast(s.kind, s.start, p + 1);
    PeriodStartIncreases(s.kind, p, p + 1);
    TallySkip(s, p + 1, p + s.interval);
    if s.interval > 1 {
      PeriodStartIncreases(s.kind, p + 1, p + s.interval);
    }
    TallySplit(s, from, to, next);
    if s.start < from {
      TallySplit(s, s.start, from, next);
    } else {
      TallyFromStart(s, from, next);
    }
  }

  lemma StandingStep(s: Series, b: Bounds, done: nat, cursor: int, o: Output, o': Output)
    requires s.Valid() && b.Fits(s) && Standing(s, b, done, cursor, o)
    requires done < MAX_STEPS && (s.count.Some? ==> o.emitted < s.count.value)
    requires Emits(s, NthPeriod(s, done), b, o, o')
    ensures Standing(s, b, done + 1, PeriodStart(s.kind, NthPeriod(s, done) + s.interval), o')
  {
    hide PeriodOf, PeriodStart, Tally, Visited, Hit, Admitted;
    var p := NthPeriod(s, done);
    NthPeriodIs(s, done);
    forall r | p < r < p + s.interval
      ensures !Visited(s, r)
    {
      if Visited(s, r) {
        NextVisited(s, done, r);
      }
    }
    TallyOfRound(s, p);
    forall n
      ensures n in o'.dates <==> b.InWindow(n) && Member(s, n) && PeriodOf(s.kind, n) < p + s.interval
    {
      if Occurs(s, n) {
        NextVisited(s, done, PeriodOf(s.kind, n));
        NextVisited(s, done + 1, PeriodOf(s.kind, n));
      }
    }
  }

  /** Before the first round nothing is missing. */
  lemma StandingStart(s: Series, b: Bounds)
    requires s.Valid()
    ensures Standing(s, b, 0, s.start, Output([], 0))
  {
    var p := PeriodOf(s.kind, s.start);
    PeriodAtLeast(s.kind, s.start, p);
    forall n | Member(s, n)
      ensures PeriodOf(s.kind, n) >= p
    {
      PeriodAtLeast(s.kind, n, p);
    }
  }

  /** Why the loop may stop: each of its four tests rules out every later member of the window. */
  lemma NothingLater(s: Series, b: Bounds, done: nat, cursor: int, o: Output)
    requires s.Valid() && b.Fits(s) && Standing(s, b, done, cursor, o) && done > 0
    requires
      || done == MAX_STEPS
      || (s.count.Some? && o.emitted >= s.count.value)
      || (s.limit.Some? && cursor > s.limit.value)
      || cursor > b.windowEnd
    ensures SortDedup(o.dates) == Expansion(s, b.windowStart, b.windowEnd)
  {
    hide Tally, Hit, Visited, PeriodOf, PeriodStart, SortDedup, Expansion;
    var p := NthPeriod(s, done);
    forall n | Member(s, n) && PeriodOf(s.kind, n) >= p
      ensures !b.InWindow(n)
    {
      var q := PeriodOf(s.kind, n);
      PeriodAtLeast(s.kind, n, p);
      NextVisited(s, done, q);
      if p < q {
        PeriodStartIncreases(s.kind, p, q);
      }
      TallyMonotone(s, s.start, PeriodStart(s.kind, p), PeriodStart(s.kind, q));
    }
    ExpansionUnique(s, b.windowStart, b.windowEnd, SortDedup(o.dates));
  }

  /** `expected_dates`: nothing where the recurrence cannot be read, and otherwise exactly the members
      of the series that are in the window, in order and without repeats. */
  method ExpectedDates(rec: Recurrence, windowStart: int, windowEnd: int) returns (r: Option<seq<int>>)
    ensures r.Some? <==> Read(rec).Some?
    ensures r.Some? ==> r.value == Expansion(Read(rec).value, windowStart, windowEnd)
  {
    if rec.pattern.None? || rec.range.None? {
      return None;
    }
    var pattern, range := rec.pattern.value, rec.range.value;
    var start := DateIn(range.startDate);
    if start.None? {
      return None;
    }
    var limit := DateIn(range.endDate);
    var count := Positive(range.numberOfOccurrences);
    var interval := Interval(pattern);
    ghost var rounds;
    r, rounds := Loop(pattern, interval, Bounds(start.value, limit, windowStart, windowEnd), count);
  }

  /** The loop of `expected_dates`. Every round moves the cursor forward by a day or more, so there is at most
      one round for each day of the window after the start, and one more. */
  method Loop(pattern: Pattern, interval: int, b: Bounds, count: Option<nat>)
    returns (r: Option<seq<int>>, ghost rounds: nat)
    requires interval > 0 && (count.Some? ==> count.value > 0)
    ensures rounds <= (if b.windowEnd > b.start then b.windowEnd - b.start else 0) + 1
    ensures r.Some? <==> ReadKind(pattern).Some?
    ensures r.Some? ==>
      r.value == Expansion(SeriesOf(ReadKind(pattern).value, interval, b, count), b.windowStart, b.windowEnd)
  {
    hide Standing, Emits, ReadKind, Expansion, Visited, NthPeriod, PeriodOf, PeriodStart;
    var o := Output([], 0);
    var steps := 0;
    var cursor := b.start;
    ghost var s := SeriesOf(ReadKind(pattern).GetOr(Daily), interval, b, count);
    StandingStart(s, b);
    rounds := 0;
    while true
      invariant 0 <= steps <= MAX_STEPS
      invariant rounds == steps && b.start + steps <= cursor
      invariant steps > 0 ==> cursor <= b.windowEnd
      invariant steps > 0 ==> ReadKind(pattern).Some?
      invariant Standing(s, b, steps, cursor, o)
      invariant count.Some? ==> o.emitted < count.value
      decreases MAX_STEPS - steps
    {
      if steps + 1 > MAX_STEPS {
        NothingLater(s, b, steps, cursor, o);
        break;
      }
      CursorPeriod(s, b, steps, cursor, o);
      rounds := rounds + 1;
      var next := Round(pattern, interval, b, count, cursor, o);
      if next.None? {
        return None, rounds;
      }
      PeriodAtLeast(s.kind, cursor, PeriodOf(s.kind, cursor) + interval);
      assert next.value.0 == PeriodStart(s.kind, NthPeriod(s, steps) + interval);
      StandingStep(s, b, steps, cursor, o, next.value.1);
      steps := steps + 1;
      cursor, o := next.value.0, next.value.1;
      if (count.Some? && o.emitted >= count.value) || (b.limit.Some? && cursor > b.limit.value)
          || cursor > b.windowEnd {
        NothingLater(s, b, steps, cursor, o);
        break;
      }
    }
    return Some(SortDedup(o.dates)), rounds;
  }
}
