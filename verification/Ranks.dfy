/** The nth and the last weekday of a month, in closed form. */
module Ranks {
  import opened Calendar
  import opened Series

  /** Days from the first of a month to its first `w`. */
  function FirstOffset(t: int, w: Weekday): (o: int)
    ensures 0 <= o < 7
  {
    (w - WeekdayOf(FirstOfMonth(t))) % 7
  }

  lemma {:induction false} MatchesOfOne(w: Weekday, a: int, len: nat)
    ensures var o := (w - WeekdayOf(a)) % 7;
      Matches([w], a, a + len) == if len <= o then 0 else (len - 1 - o) / 7 + 1
  {
    if len > 0 {
      MatchesOfOne(w, a, len - 1);
      SameWeekday(w, a, len - 1);
    }
  }

  lemma SameWeekday(w: Weekday, a: int, d: nat)
    ensures var o := (w - WeekdayOf(a)) % 7; WeekdayOf(a + d) == w <==> d % 7 == o
  {
  }

  /** The day `o` days into its month is the nth `w` exactly when `o` is the first `w` and `n - 1` weeks. */
  lemma NthWeekday(n: int, w: Weekday, k: nat)
    requires k >= 1
    ensures IsRankedDay(n, [w], Nth(k)) <==> DayOf(n) == 1 + FirstOffset(MonthOf(n), w) + 7 * (k - 1)
  {
    hide FirstOfMonth, MonthOf, Matches, WeekdayOf;
    var a := FirstOfMonth(MonthOf(n));
    var d := DayOf(n) - 1;
    MatchesOfOne(w, a, d);
    SameWeekday(w, a, d);
    NthArithmetic(d, FirstOffset(MonthOf(n), w), k);
  }

  lemma NthArithmetic(d: nat, o: int, k: nat)
    requires 0 <= o < 7 && k >= 1
    ensures d % 7 == o && (if d <= o then 0 else (d - 1 - o) / 7 + 1) + 1 == k <==> d == o + 7 * (k - 1)
  {
  }

  /** The first four of a weekday are in every month, by the 28th. */
  lemma NthWeekdayExists(t: int, w: Weekday, k: nat)
    requires 1 <= k <= 4
    ensures var n := FirstOfMonth(t) + FirstOffset(t, w) + 7 * (k - 1);
      MonthOf(n) == t && IsRankedDay(n, [w], Nth(k)) && DayOf(n) <= 28
  {
    var n := FirstOfMonth(t) + FirstOffset(t, w) + 7 * (k - 1);
    MonthStep(t);
    MonthOfUnique(n, t);
    NthWeekday(n, w, k);
  }

  /** None of the six days after a `w` is a `w`; the seventh is. */
  lemma MatchesAfter(w: Weekday, n: int, len: nat)
    requires WeekdayOf(n) == w
    ensures Matches([w], n + 1, n + 1 + len) == 0 <==> len < 7
  {
    hide Matches, WeekdayOf;
    MatchesOfOne(w, n + 1, len);
    DayAfter(w, n);
  }

  lemma DayAfter(w: Weekday, n: int)
    requires WeekdayOf(n) == w
    ensures (w - WeekdayOf(n + 1)) % 7 == 6
  {
  }

  /** The last of a weekday is the one in the last seven days of the month. */
  lemma LastWeekday(n: int, w: Weekday)
    ensures IsRankedDay(n, [w], Last) <==> WeekdayOf(n) == w && DayOf(n) > MonthLength(MonthOf(n)) - 7
  {
    hide FirstOfMonth, Matches, WeekdayOf, MonthLength;
    var t := MonthOf(n);
    assert DayOf(n) == n - FirstOfMonth(t) + 1;
    MonthStep(t);
    if WeekdayOf(n) == w {
      MatchesAfter(w, n, FirstOfMonth(t + 1) - (n + 1));
    }
  }

  lemma OffsetReaches(w: Weekday, a: int)
    ensures 0 <= (w - WeekdayOf(a)) % 7 < 7
    ensures WeekdayOf(a + (w - WeekdayOf(a)) % 7) == w
  {
  }

  /** And there is one in every month. */
  lemma LastWeekdayExists(t: int, w: Weekday)
    ensures var a := FirstOfMonth(t + 1) - 7;
      var n := a + (w - WeekdayOf(a)) % 7;
      MonthOf(n) == t && IsRankedDay(n, [w], Last)
  {
    hide FirstOfMonth, MonthOf, IsRankedDay, WeekdayOf;
    var a := FirstOfMonth(t + 1) - 7;
    var n := a + (w - WeekdayOf(a)) % 7;
    OffsetReaches(w, a);
    MonthStep(t);
    MonthOfUnique(n, t);
    LastWeekday(n, w);
  }
}
