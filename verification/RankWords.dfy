/** The first, second, third, fourth and last of some days in a month or a year. */
module RankWords {
  import opened Text
  import opened Calendar
  import opened Series

  // ----- ranks

  function Begin(inYear: bool, n: int): int {
    FirstOfMonth(if inYear then 12 * YearOf(n) else MonthOf(n))
  }

  /** The first day after the month or the year. */
  function End(inYear: bool, n: int): int {
    FirstOfMonth(if inYear then 12 * (YearOf(n) + 1) else MonthOf(n) + 1)
  }

  /** Among the days of its month or year on the given weekdays, the day is the one with the given rank. */
  predicate IsRanked(inYear: bool, n: int, days: seq<Weekday>, rank: Rank) {
    && WeekdayOf(n) in days
    && match rank
       case Nth(k) => Matches(days, Begin(inYear, n), n) + 1 == k
       case Last => Matches(days, n + 1, End(inYear, n)) == 0
  }

  /** In a month it is the day that the expander picks. */
  lemma RankedInMonth(n: int, days: seq<Weekday>, rank: Rank)
    ensures IsRanked(false, n, days, rank) <==> IsRankedDay(n, days, rank)
  {
    hide MonthOf, FirstOfMonth, WeekdayOf, Matches;
  }

  // ----- words

  /** The first day of the month or of the year. */
  function FirstDay(inYear: bool, n: int): int {
    Number(Date(DateOf(n).year, if inYear then 1 else DateOf(n).month, 1))
  }

  predicate SameSpan(inYear: bool, m: int, n: int) {
    DateOf(m).year == DateOf(n).year && (inYear || DateOf(m).month == DateOf(n).month)
  }

  /** How many of the days stand from `a` up to but not including `b`. */
  ghost function CountIn(days: iset<int>, a: int, b: int): nat
    decreases b - a
  {
    if a >= b then 0 else CountIn(days, a, b - 1) + if b - 1 in days then 1 else 0
  }

  /** How many come before the one that the word means; a word that is no rank means the first. */
  function Before(word: string): nat {
    if Lower(word) == "second" then 1
    else if Lower(word) == "third" then 2
    else if Lower(word) == "fourth" then 3
    else 0
  }

  ghost predicate NoneLater(days: iset<int>, inYear: bool, n: int) {
    forall m :: n < m && SameSpan(inYear, m, n) ==> m !in days
  }

  /** Of the given days in its month or year, it is the one that the word means. */
  ghost predicate IsWordth(days: iset<int>, inYear: bool, n: int, word: string) {
    && n in days
    && if Lower(word) == "last" then NoneLater(days, inYear, n)
       else CountIn(days, FirstDay(inYear, n), n) == Before(word)
  }

  ghost predicate AreDaysOn(days: iset<int>, weekdays: seq<Weekday>) {
    forall n :: n in days <==> WeekdayOf(n) in weekdays
  }

  // ----- the words are the ranks

  lemma {:induction false} CountIsMatches(days: iset<int>, weekdays: seq<Weekday>, a: int, b: int)
    requires AreDaysOn(days, weekdays)
    ensures CountIn(days, a, b) == Matches(weekdays, a, b)
    decreases b - a
  {
    hide WeekdayOf;
    if a < b {
      CountIsMatches(days, weekdays, a, b - 1);
    }
  }

  lemma {:induction false} NoMatches(days: iset<int>, weekdays: seq<Weekday>, a: int, b: int)
    requires AreDaysOn(days, weekdays)
    ensures Matches(weekdays, a, b) == 0 <==> forall m :: a <= m < b ==> m !in days
    decreases b - a
  {
    hide WeekdayOf;
    if a < b {
      NoMatches(days, weekdays, a, b - 1);
    }
  }

  lemma DateIs(n: int)
    ensures DateOf(n).year == YearOf(n) && 12 * DateOf(n).year + DateOf(n).month == MonthOf(n) + 1
    ensures DateOf(n).day == n - FirstOfMonth(MonthOf(n)) + 1 && 1 <= DateOf(n).month <= 12
  {
    hide MonthOf, FirstOfMonth;
  }

  lemma FirstDayIs(inYear: bool, n: int)
    ensures FirstDay(inYear, n) == Begin(inYear, n)
  {
    DateIs(n);
    hide MonthOf, FirstOfMonth, DateOf, YearOf;
  }

  lemma SpanAfter(inYear: bool, n: int, m: int)
    ensures n < m && SameSpan(inYear, m, n) <==> n + 1 <= m < End(inYear, n)
  {
    hide MonthOf, FirstOfMonth, DateOf, YearOf;
    DateIs(n);
    DateIs(m);
    var t := if inYear then 12 * (YearOf(n) + 1) else MonthOf(n) + 1;
    MonthOfAtLeast(m, t);
    MonthOfAtLeast(m, MonthOf(n));
  }

  lemma NoneLaterIs(days: iset<int>, weekdays: seq<Weekday>, inYear: bool, n: int)
    requires AreDaysOn(days, weekdays)
    ensures NoneLater(days, inYear, n) <==> Matches(weekdays, n + 1, End(inYear, n)) == 0
  {
    hide AreDaysOn, Matches, End, SameSpan;
    NoMatches(days, weekdays, n + 1, End(inYear, n));
    forall m
      ensures n < m && SameSpan(inYear, m, n) <==> n + 1 <= m < End(inYear, n)
    {
      SpanAfter(inYear, n, m);
    }
  }

  function RankNamed(word: string): Rank {
    if Lower(word) == "last" then Last else Nth(Before(word) + 1)
  }

  lemma RankedIsWordth(days: iset<int>, weekdays: seq<Weekday>, inYear: bool, n: int, word: string)
    requires AreDaysOn(days, weekdays)
    ensures IsRanked(inYear, n, weekdays, RankNamed(word)) <==> IsWordth(days, inYear, n, word)
  {
    hide Matches, CountIn, Begin, End, FirstDay, WeekdayOf, Lower, Before, NoneLater;
    FirstDayIs(inYear, n);
    CountIsMatches(days, weekdays, FirstDay(inYear, n), n);
    NoneLaterIs(days, weekdays, inYear, n);
    assert n in days <==> WeekdayOf(n) in weekdays;
  }
}
