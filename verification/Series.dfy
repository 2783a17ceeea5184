/** What a recurring series means, stated day by day.

    A pattern kind cuts the calendar into periods (days, weeks, months or years) and says
    which days of a period it hits. A series takes every `interval`-th period, beginning
    with the one its start date is in. Nothing here mentions a cursor or a loop.
 */
module Series {
  import opened Wrappers
  import opened Calendar
  import opened Sorting

  datatype Rank = Nth(n: nat) | Last

  datatype Kind =
    | Daily
    | Weekly(days: seq<Weekday>, first: Weekday)
    | AbsoluteMonthly(day: nat)
    | RelativeMonthly(days: seq<Weekday>, rank: Rank)
    | AbsoluteYearly(month: nat, day: nat)
    | RelativeYearly(month: nat, days: seq<Weekday>, rank: Rank)

  datatype Series = Series(kind: Kind, interval: int, start: int, limit: Option<int>, count: Option<nat>)
  {
    predicate Valid() {
      interval > 0 && (count.Some? ==> count.value > 0)
    }
  }

  // ----- periods

  function PeriodOf(k: Kind, n: int): int {
    match k
    case Daily => n
    case Weekly(_, first) => (n + 4 - first) / 7
    case AbsoluteMonthly(_) => MonthOf(n)
    case RelativeMonthly(_, _) => MonthOf(n)
    case AbsoluteYearly(_, _) => YearOf(n)
    case RelativeYearly(_, _, _) => YearOf(n)
  }

  function PeriodStart(k: Kind, p: int): int {
    match k
    case Daily => p
    case Weekly(_, first) => 7 * p - 4 + first
    case AbsoluteMonthly(_) => FirstOfMonth(p)
    case RelativeMonthly(_, _) => FirstOfMonth(p)
    case AbsoluteYearly(_, _) => FirstOfMonth(12 * p)
    case RelativeYearly(_, _, _) => FirstOfMonth(12 * p)
  }

  lemma InMonthAtLeast(n: int, u: int, t: int)
    requires FirstOfMonth(u) <= n < FirstOfMonth(u + 1)
    ensures t <= u <==> FirstOfMonth(t) <= n
  {
    if t < u {
      FirstOfMonthIncreases(t, u);
    } else if u + 1 < t {
      FirstOfMonthIncreases(u + 1, t);
    }
  }

  lemma MonthOfAtLeast(n: int, t: int)
    ensures t <= MonthOf(n) <==> FirstOfMonth(t) <= n
  {
    InMonthAtLeast(n, MonthOf(n), t);
  }

  lemma WeekOf(n: int, p: int, first: int)
    ensures p <= (n + 4 - first) / 7 <==> 7 * p - 4 + first <= n
  {
  }

  lemma YearOfAtLeast(t: int, p: int)
    ensures p <= t / 12 <==> 12 * p <= t
  {
  }

  /** A day is in period `p` or later exactly when it is not before the period's first day. */
  lemma PeriodAtLeast(k: Kind, n: int, p: int)
    ensures p <= PeriodOf(k, n) <==> PeriodStart(k, p) <= n
  {
    match k
    case Daily =>
    case Weekly(_, first) => WeekOf(n, p, first);
    case AbsoluteMonthly(_) => MonthOfAtLeast(n, p);
    case RelativeMonthly(_, _) => MonthOfAtLeast(n, p);
    case AbsoluteYearly(_, _) => YearOfAtLeast(MonthOf(n), p); MonthOfAtLeast(n, 12 * p);
    case RelativeYearly(_, _, _) => YearOfAtLeast(MonthOf(n), p); MonthOfAtLeast(n, 12 * p);
  }

  lemma PeriodStartIncreases(k: Kind, p: int, q: int)
    requires p < q
    ensures PeriodStart(k, p) < PeriodStart(k, q)
  {
    PeriodStartOf(k, p);
    PeriodAtLeast(k, PeriodStart(k, p), q);
  }

  lemma PeriodStartOf(k: Kind, p: int)
    ensures PeriodOf(k, PeriodStart(k, p)) == p
  {
    PeriodAtLeast(k, PeriodStart(k, p), p);
    PeriodAtLeast(k, PeriodStart(k, p), p + 1);
    match k
    case Daily =>
    case Weekly(_, first) =>
    case AbsoluteMonthly(_) => FirstOfMonthIncreases(p, p + 1);
    case RelativeMonthly(_, _) => FirstOfMonthIncreases(p, p + 1);
    case AbsoluteYearly(_, _) => FirstOfMonthIncreases(12 * p, 12 * (p + 1));
    case RelativeYearly(_, _, _) => FirstOfMonthIncreases(12 * p, 12 * (p + 1));
  }

  // ----- the days of a period that a pattern hits

  /** How many days from `a` up to but not including `b` fall on one of the weekdays. */
  function Matches(days: seq<Weekday>, a: int, b: int): nat
    decreases b - a
  {
    if a >= b then 0
    else Matches(days, a, b - 1) + if WeekdayOf(b - 1) in days then 1 else 0
  }

  lemma {:induction false} MatchesSplit(days: seq<Weekday>, a: int, b: int, c: int)
    requires a <= b <= c
    ensures Matches(days, a, c) == Matches(days, a, b) + Matches(days, b, c)
    decreases c - b
  {
    if b < c {
      MatchesSplit(days, a, b, c - 1);
    }
  }

  /** The day of the month is `day`, or the month's last day when `day` is beyond it. */
  predicate IsClampedDay(n: int, day: nat) {
    day >= 1 && DayOf(n) == if day <= MonthLength(MonthOf(n)) then day else MonthLength(MonthOf(n))
  }

  /** Among the days of its month on the given weekdays, the day is the one with the given rank. */
  predicate IsRankedDay(n: int, days: seq<Weekday>, rank: Rank) {
    && WeekdayOf(n) in days
    && match rank
       case Nth(k) => Matches(days, FirstOfMonth(MonthOf(n)), n) + 1 == k
       case Last => Matches(days, n + 1, FirstOfMonth(MonthOf(n) + 1)) == 0
  }

  predicate Hit(k: Kind, n: int) {
    match k
    case Daily => true
    case Weekly(days, _) => WeekdayOf(n) in days
    case AbsoluteMonthly(day) => IsClampedDay(n, day)
    case RelativeMonthly(days, rank) => IsRankedDay(n, days, rank)
    case AbsoluteYearly(month, day) => MonthOfYear(n) == month && IsClampedDay(n, day)
    case RelativeYearly(month, days, rank) => MonthOfYear(n) == month && IsRankedDay(n, days, rank)
  }

  // ----- the series

  predicate Admitted(s: Series, n: int) {
    s.start <= n && (s.limit.Some? ==> n <= s.limit.value)
  }

  /** The period is a whole number of intervals away from the first one. */
  predicate Visited(s: Series, p: int)
    requires s.Valid()
  {
    (p - PeriodOf(s.kind, s.start)) % s.interval == 0
  }

  /** The day belongs to the series, ignoring any count. */
  predicate Occurs(s: Series, n: int)
    requires s.Valid()
  {
    && Admitted(s, n)
    && Visited(s, PeriodOf(s.kind, n))
    && Hit(s.kind, n)
  }

  /** How often a hit day is counted: a weekday listed twice counts twice. */
  function Weight(k: Kind, n: int): nat {
    if k.Weekly? then multiset(k.days)[WeekdayOf(n)] else 1
  }

  /** The occurrences from `a` up to but not including `b`, by weight. */
  function Tally(s: Series, a: int, b: int): nat
    requires s.Valid()
    decreases b - a
  {
    if a >= b then 0
    else Tally(s, a, b - 1) + if Occurs(s, b - 1) then Weight(s.kind, b - 1) else 0
  }

  const MAX_STEPS := 200000

  /** Which of the visited periods the day is in, counting from zero. */
  function StepOf(s: Series, n: int): int
    requires s.Valid()
  {
    (PeriodOf(s.kind, n) - PeriodOf(s.kind, s.start)) / s.interval
  }

  /** The day is in the expanded series: it occurs, its step is within the step cap, and the
      count had not been reached before its period. */
  predicate Member(s: Series, n: int)
    requires s.Valid()
  {
    && Occurs(s, n)
    && StepOf(s, n) < MAX_STEPS
    && (s.count.Some? ==> Tally(s, s.start, PeriodStart(s.kind, PeriodOf(s.kind, n))) < s.count.value)
  }

  /** The members of the series in a window, in order. */
  function Expansion(s: Series, lo: int, hi: int): seq<int>
    requires s.Valid()
    decreases hi - lo
  {
    if lo > hi then []
    else Expansion(s, lo, hi - 1) + if Member(s, hi) then [hi] else []
  }

  // ----- tallies

  lemma {:induction false} TallySplit(s: Series, a: int, b: int, c: int)
    requires s.Valid() && a <= b <= c
    ensures Tally(s, a, c) == Tally(s, a, b) + Tally(s, b, c)
    decreases c - b
  {
    if b < c {
      TallySplit(s, a, b, c - 1);
    }
  }

  lemma {:induction false} TallyNone(s: Series, a: int, b: int)
    requires s.Valid()
    requires forall n :: a <= n < b ==> !Occurs(s, n)
    ensures Tally(s, a, b) == 0
    decreases b - a
  {
    if a < b {
      TallyNone(s, a, b - 1);
    }
  }

  /** When only `x` can occur in a span, the tally of the span is the weight of `x`. */
  lemma TallyOne(s: Series, a: int, x: int, b: int)
    requires s.Valid() && a <= x < b
    requires forall n :: a <= n < b && n != x ==> !Occurs(s, n)
    ensures Tally(s, a, b) == if Occurs(s, x) then Weight(s.kind, x) else 0
  {
    TallySplit(s, a, x + 1, b);
    TallyNone(s, x + 1, b);
    TallyNone(s, a, x);
  }

  /** Nothing before the start counts, so a tally may as well begin there. */
  lemma TallyFromStart(s: Series, a: int, b: int)
    requires s.Valid() && a <= s.start <= b
    ensures Tally(s, a, b) == Tally(s, s.start, b)
  {
    TallySplit(s, a, s.start, b);
    TallyNone(s, a, s.start);
  }

  lemma TallyMonotone(s: Series, a: int, b: int, c: int)
    requires s.Valid() && b <= c
    ensures Tally(s, a, b) <= Tally(s, a, c)
  {
    if a <= b {
      TallySplit(s, a, b, c);
    }
  }

  /** Between two visited periods nothing occurs. */
  lemma TallySkip(s: Series, p: int, q: int)
    requires s.Valid() && p <= q
    requires forall r :: p <= r < q ==> !Visited(s, r)
    ensures Tally(s, PeriodStart(s.kind, p), PeriodStart(s.kind, q)) == 0
  {
    forall n | PeriodStart(s.kind, p) <= n < PeriodStart(s.kind, q)
      ensures !Occurs(s, n)
    {
      PeriodAtLeast(s.kind, n, p);
      PeriodAtLeast(s.kind, n, q);
      assert !Visited(s, PeriodOf(s.kind, n));
    }
    TallyNone(s, PeriodStart(s.kind, p), PeriodStart(s.kind, q));
  }

  // ----- expansions

  lemma {:induction false} ExpansionElements(s: Series, lo: int, hi: int)
    requires s.Valid()
    ensures StrictlyIncreasing(Expansion(s, lo, hi))
    ensures forall n :: n in Expansion(s, lo, hi) <==> lo <= n <= hi && Member(s, n)
    decreases hi - lo
  {
    if lo <= hi {
      ExpansionElements(s, lo, hi - 1);
      var front := Expansion(s, lo, hi - 1);
      assert forall i :: 0 <= i < |front| ==> front[i] in front;
    }
  }

  /** Any increasing list of the members in a window is the expansion. */
  lemma ExpansionUnique(s: Series, lo: int, hi: int, out: seq<int>)
    requires s.Valid() && StrictlyIncreasing(out)
    requires forall n :: n in out <==> lo <= n <= hi && Member(s, n)
    ensures out == Expansion(s, lo, hi)
  {
    ExpansionElements(s, lo, hi);
    SameElements(out, Expansion(s, lo, hi));
  }
}
