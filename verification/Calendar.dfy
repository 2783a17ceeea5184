/** The proleptic Gregorian calendar, counted in days from 1970-01-01.

    The calendar itself is `FirstOfMonth`, which adds up month lengths, and `Next`, which
    goes to tomorrow. `DaysFromCivil` is the closed formula the Graph importer computes with.
    The lemmas say that the formula is the calendar and that day numbers and valid dates
    are the same thing, so that the recurrence engine can work on day numbers.
 */
module Calendar {
  import opened Wrappers

  datatype Date = Date(year: int, month: int, day: int)

  predicate IsLeap(y: int) {
    y % 4 == 0 && (y % 100 != 0 || y % 400 == 0)
  }

  function DaysIn(y: int, m: int): (n: int)
    ensures 28 <= n <= 31
  {
    if m == 2 then (if IsLeap(y) then 29 else 28)
    else if m == 4 || m == 6 || m == 9 || m == 11 then 30
    else 31
  }

  predicate Valid(d: Date) {
    1 <= d.month <= 12 && 1 <= d.day <= DaysIn(d.year, d.month)
  }

  /** The day after a calendar date. */
  function Next(d: Date): Date {
    if d.day < DaysIn(d.year, d.month) then d.(day := d.day + 1)
    else if d.month < 12 then Date(d.year, d.month + 1, 1)
    else Date(d.year + 1, 1, 1)
  }

  // Months are counted from January of year 0, so that month `t` is in year `t / 12`.

  function MonthLength(t: int): (n: int)
    ensures 28 <= n <= 31
  {
    DaysIn(t / 12, t % 12 + 1)
  }

  const EPOCH_MONTH := 23640 // January 1970

  /** The number of the first day of a month: the month lengths since the epoch, added up. */
  function FirstOfMonth(t: int): int
    decreases if t >= EPOCH_MONTH then t - EPOCH_MONTH else EPOCH_MONTH - t
  {
    if t == EPOCH_MONTH then 0
    else if t > EPOCH_MONTH then FirstOfMonth(t - 1) + MonthLength(t - 1)
    else FirstOfMonth(t + 1) - MonthLength(t)
  }

  function MonthIndex(y: int, m: int): int {
    12 * y + m - 1
  }

  function Number(d: Date): int {
    FirstOfMonth(MonthIndex(d.year, d.month)) + d.day - 1
  }

  // ----- src/exchange_graph/calendar_map.rs, days_from_civil

  /** Division of Rust's signed integers: the quotient is rounded towards zero. */
  function TruncDiv(a: int, b: int): int
    requires b > 0
  {
    if a >= 0 then a / b else -((-a) / b)
  }

  function DaysFromCivil(year: int, m: int, d: int): int {
    var y := if m <= 2 then year - 1 else year;
    var era := TruncDiv(if y >= 0 then y else y - 399, 400);
    var yoe := y - era * 400;
    var mAdj := if m > 2 then m - 3 else m + 9;
    var doy := TruncDiv(153 * mAdj + 2, 5) + d - 1;
    var doe := yoe * 365 + TruncDiv(yoe, 4) - TruncDiv(yoe, 100) + doy;
    era * 146097 + doe - 719468
  }

  // ----- the formula is the calendar

  /** The day number of 1 March of a year. */
  function MarchFirst(y: int): int {
    365 * y + y / 4 - y / 100 + y / 400 - 719468
  }

  /** Days from 1 March to the first of the month `k` months later. */
  function MonthOffset(k: int): int {
    (153 * k + 2) / 5
  }

  lemma EraDivisions(e: int, yoe: int)
    requires 0 <= yoe < 400
    ensures (400 * e + yoe) / 400 == e
    ensures (400 * e + yoe) / 100 == 4 * e + yoe / 100
    ensures (400 * e + yoe) / 4 == 100 * e + yoe / 4
  {
  }

  /** The 400-year eras, with their truncating division, are three floor divisions. */
  lemma EraIsFloor(y: int)
    ensures var era := TruncDiv(if y >= 0 then y else y - 399, 400);
            var yoe := y - era * 400;
            && 0 <= yoe < 400
            && era * 146097 + yoe * 365 + TruncDiv(yoe, 4) - TruncDiv(yoe, 100) - 719468 == MarchFirst(y)
  {
    var era := TruncDiv(if y >= 0 then y else y - 399, 400);
    assert era == y / 400;
    EraDivisions(era, y - era * 400);
  }

  function CivilMonth(y: int, m: int): int {
    if m <= 2 then MarchFirst(y - 1) + MonthOffset(m + 9) else MarchFirst(y) + MonthOffset(m - 3)
  }

  lemma CivilForm(y: int, m: int, d: int)
    requires 1 <= m
    ensures DaysFromCivil(y, m, d) == CivilMonth(y, m) + d - 1
  {
    EraIsFloor(if m <= 2 then y - 1 else y);
  }

  lemma DivStep(y: int, k: int)
    requires k == 4 || k == 100 || k == 400
    ensures y / k == (y - 1) / k + (if y % k == 0 then 1 else 0)
  {
  }

  lemma LeapNested(y: int)
    ensures y % 400 == 0 ==> y % 100 == 0
    ensures y % 100 == 0 ==> y % 4 == 0
  {
  }

  lemma YearStep(y: int)
    ensures MarchFirst(y) == MarchFirst(y - 1) + if IsLeap(y) then 366 else 365
  {
    DivStep(y, 4);
    DivStep(y, 100);
    DivStep(y, 400);
    LeapNested(y);
  }

  lemma CivilMonthStep(y: int, m: int)
    requires 1 <= m <= 12
    ensures (if m == 12 then CivilMonth(y + 1, 1) else CivilMonth(y, m + 1)) == CivilMonth(y, m) + DaysIn(y, m)
  {
    if m == 2 {
      YearStep(y);
    }
  }

  lemma MonthParts(y: int, m: int)
    requires 1 <= m <= 12
    ensures MonthIndex(y, m) / 12 == y
    ensures MonthIndex(y, m) % 12 + 1 == m
  {
  }

  lemma IndexParts(t: int)
    ensures (t + 1) / 12 == if t % 12 == 11 then t / 12 + 1 else t / 12
    ensures (t + 1) % 12 == if t % 12 == 11 then 0 else t % 12 + 1
  {
  }

  lemma CivilMonthSteps(t: int, y: int, m: int, y': int, m': int)
    requires y == t / 12 && m == t % 12 + 1
    requires y' == (t + 1) / 12 && m' == (t + 1) % 12 + 1
    ensures CivilMonth(y', m') == CivilMonth(y, m) + MonthLength(t)
  {
    IndexParts(t);
    CivilMonthStep(y, m);
  }

  lemma CivilEpoch()
    ensures CivilMonth(1970, 1) == 0
  {
  }

  lemma {:induction false} CivilMonthIsFirst(t: int, y: int, m: int)
    requires y == t / 12 && m == t % 12 + 1
    ensures CivilMonth(y, m) == FirstOfMonth(t)
    decreases if t >= EPOCH_MONTH then t - EPOCH_MONTH else EPOCH_MONTH - t
  {
    hide MonthLength, CivilMonth;
    if t == EPOCH_MONTH {
      CivilEpoch();
    } else if t > EPOCH_MONTH {
      CivilMonthIsFirst(t - 1, (t - 1) / 12, (t - 1) % 12 + 1);
      CivilMonthSteps(t - 1, (t - 1) / 12, (t - 1) % 12 + 1, y, m);
    } else if t < EPOCH_MONTH {
      CivilMonthIsFirst(t + 1, (t + 1) / 12, (t + 1) % 12 + 1);
      CivilMonthSteps(t, y, m, (t + 1) / 12, (t + 1) % 12 + 1);
    }
  }

  /** The closed formula counts the days of the calendar, in every year, negative ones included. */
  lemma DaysFromCivilIsNumber(d: Date)
    requires 1 <= d.month <= 12
    ensures DaysFromCivil(d.year, d.month, d.day) == Number(d)
  {
    MonthParts(d.year, d.month);
    CivilMonthIsFirst(MonthIndex(d.year, d.month), d.year, d.month);
    CivilForm(d.year, d.month, d.day);
  }

  lemma MonthStep(t: int)
    ensures FirstOfMonth(t + 1) == FirstOfMonth(t) + MonthLength(t)
  {
  }

  /** Tomorrow's number is today's plus one. */
  lemma NextIsSuccessor(d: Date)
    requires Valid(d)
    ensures Valid(Next(d))
    ensures Number(Next(d)) == Number(d) + 1
    ensures DaysFromCivil(Next(d).year, Next(d).month, Next(d).day) == DaysFromCivil(d.year, d.month, d.day) + 1
  {
    DaysFromCivilIsNumber(d);
    DaysFromCivilIsNumber(Next(d));
    MonthParts(d.year, d.month);
    MonthStep(MonthIndex(d.year, d.month));
  }

  // ----- day numbers are dates

  lemma {:induction false} FirstOfMonthIncreases(a: int, b: int)
    requires a < b
    ensures FirstOfMonth(a) + 28 <= FirstOfMonth(b)
    decreases b - a
  {
    MonthStep(b - 1);
    if a < b - 1 {
      FirstOfMonthIncreases(a, b - 1);
    }
  }

  lemma EpochIsFirst()
    ensures FirstOfMonth(EPOCH_MONTH) == 0
  {
  }

  /** The month a day falls in. */
  function MonthOf(n: int): (t: int)
    ensures FirstOfMonth(t) <= n < FirstOfMonth(t + 1)
    decreases if n >= 0 then n else -n
  {
    EpochIsFirst();
    MonthStep(EPOCH_MONTH);
    hide FirstOfMonth, MonthLength;
    if n == 0 then EPOCH_MONTH
    else if n > 0 then
      var t := MonthOf(n - 1);
      MonthStep(t + 1);
      if n < FirstOfMonth(t + 1) then t else t + 1
    else
      var t := MonthOf(n + 1);
      MonthStep(t - 1);
      if FirstOfMonth(t) <= n then t else t - 1
  }

  lemma OneMonth(n: int, t: int, u: int)
    requires FirstOfMonth(t) <= n < FirstOfMonth(t + 1)
    requires FirstOfMonth(u) <= n < FirstOfMonth(u + 1)
    ensures t == u
  {
    if u + 1 < t {
      FirstOfMonthIncreases(u + 1, t);
    }
    if t + 1 < u {
      FirstOfMonthIncreases(t + 1, u);
    }
  }

  lemma MonthOfUnique(n: int, t: int)
    requires FirstOfMonth(t) <= n < FirstOfMonth(t + 1)
    ensures MonthOf(n) == t
  {
    OneMonth(n, t, MonthOf(n));
  }

  function YearOf(n: int): int {
    MonthOf(n) / 12
  }

  function MonthOfYear(n: int): (m: int)
    ensures 1 <= m <= 12
  {
    MonthOf(n) % 12 + 1
  }

  function DayOf(n: int): (d: int)
    ensures 1 <= d <= MonthLength(MonthOf(n))
  {
    MonthStep(MonthOf(n));
    n - FirstOfMonth(MonthOf(n)) + 1
  }

  function DateOf(n: int): (d: Date)
    ensures Valid(d)
    ensures Number(d) == n
  {
    assert MonthIndex(YearOf(n), MonthOfYear(n)) == MonthOf(n);
    Date(YearOf(n), MonthOfYear(n), DayOf(n))
  }

  lemma NumberInverse(d: Date)
    requires Valid(d)
    ensures DateOf(Number(d)) == d
    ensures MonthOf(Number(d)) == MonthIndex(d.year, d.month)
  {
    MonthParts(d.year, d.month);
    MonthStep(MonthIndex(d.year, d.month));
    MonthOfUnique(Number(d), MonthIndex(d.year, d.month));
  }

  /** Earlier in the calendar: by year, then month, then day. */
  predicate Before(a: Date, b: Date) {
    || a.year < b.year
    || (a.year == b.year && a.month < b.month)
    || (a.year == b.year && a.month == b.month && a.day < b.day)
  }

  lemma BeforeIncreases(a: Date, b: Date)
    requires Valid(a) && Valid(b) && Before(a, b)
    ensures Number(a) < Number(b)
  {
    var s, t := MonthIndex(a.year, a.month), MonthIndex(b.year, b.month);
    MonthParts(a.year, a.month);
    MonthStep(s);
    if s + 1 < t {
      FirstOfMonthIncreases(s + 1, t);
    }
  }

  /** The closed formula is strictly monotone on valid dates, hence injective. */
  lemma DaysFromCivilIsMonotone(a: Date, b: Date)
    requires Valid(a) && Valid(b)
    ensures DaysFromCivil(a.year, a.month, a.day) < DaysFromCivil(b.year, b.month, b.day) <==> Before(a, b)
    ensures DaysFromCivil(a.year, a.month, a.day) == DaysFromCivil(b.year, b.month, b.day) <==> a == b
  {
    DaysFromCivilIsNumber(a);
    DaysFromCivilIsNumber(b);
    if Before(a, b) {
      BeforeIncreases(a, b);
    } else if Before(b, a) {
      BeforeIncreases(b, a);
    }
  }

  // ----- dates as the program builds them

  /** `NaiveDate::from_ymd_opt`. */
  function FromYmd(y: int, m: int, d: int): Option<int> {
    if Valid(Date(y, m, d)) then Some(Number(Date(y, m, d))) else None
  }

  type Weekday = w: int | 0 <= w < 7 // days from Sunday

  /** 1970-01-01 was a Thursday. */
  function WeekdayOf(n: int): Weekday {
    (n + 4) % 7
  }
}
