/** Counts of weekly series. A week's round counts every listing of a weekday, and the count is looked at only between
    rounds: so the series ends with a week, and a weekday listed twice uses up the count twice. */
module WeeklyCounts {
  import opened Wrappers
  import opened Arithmetic
  import opened Calendar
  import opened Sorting
  import opened Series
  import opened SeriesLaws
  import opened Expand

  // ----- listings by their place in the week

  /** The listings of weekdays that are `lo` or more days into the week, but fewer than `hi`. */
  function Listed(days: seq<Weekday>, first: Weekday, lo: int, hi: int): seq<Weekday> {
    if days == [] then []
    else
      var front, last := days[..|days| - 1], days[|days| - 1];
      Listed(front, first, lo, hi) + if lo <= WeekdayOffset(first, last) < hi then [last] else []
  }

  lemma {:induction false} NothingListed(days: seq<Weekday>, first: Weekday, lo: int, hi: int)
    requires hi <= lo
    ensures Listed(days, first, lo, hi) == []
  {
    hide WeekdayOffset;
    if days != [] {
      NothingListed(days[..|days| - 1], first, lo, hi);
    }
  }

  lemma {:induction false} AllListed(days: seq<Weekday>, first: Weekday)
    ensures Listed(days, first, 0, 7) == days
  {
    hide WeekdayOffset;
    if days != [] {
      var front, last := days[..|days| - 1], days[|days| - 1];
      AllListed(front, first);
      OffsetIsInWeek(first, last);
      assert days == front + [last];
    }
  }

  lemma OffsetIsInWeek(first: Weekday, w: Weekday)
    ensures 0 <= WeekdayOffset(first, w) < 7
  {
  }

  lemma {:induction false} ListedDayByDay(days: seq<Weekday>, first: Weekday, lo: int, o: int, w: Weekday)
    requires lo <= o && WeekdayOffset(first, w) == o
    ensures |Listed(days, first, lo, o + 1)| == |Listed(days, first, lo, o)| + multiset(days)[w]
  {
    hide WeekdayOffset;
    if days != [] {
      var front, last := days[..|days| - 1], days[|days| - 1];
      assert days == front + [last];
      ListedDayByDay(front, first, lo, o, w);
      SameOffset(first, last, w);
    }
  }

  lemma SameOffset(first: Weekday, v: Weekday, w: Weekday)
    ensures WeekdayOffset(first, v) == WeekdayOffset(first, w) <==> v == w
  {
  }

  lemma {:induction false} InListed(days: seq<Weekday>, first: Weekday, lo: int, hi: int, v: Weekday)
    ensures v in Listed(days, first, lo, hi) <==> v in days && lo <= WeekdayOffset(first, v) < hi
  {
    hide WeekdayOffset;
    if days != [] {
      var front, last := days[..|days| - 1], days[|days| - 1];
      assert days == front + [last];
      InListed(front, first, lo, hi, v);
    }
  }

  /** The weekdays in a list, each once. */
  function Elements(days: seq<Weekday>): (r: set<Weekday>)
    ensures forall d :: d in r <==> d in days
  {
    if days == [] then {}
    else
      assert days == days[..|days| - 1] + [days[|days| - 1]];
      Elements(days[..|days| - 1]) + {days[|days| - 1]}
  }

  lemma ElementsDayByDay(days: seq<Weekday>, first: Weekday, lo: int, o: int, w: Weekday)
    requires lo <= o && WeekdayOffset(first, w) == o
    ensures
      |Elements(Listed(days, first, lo, o + 1))|
      == |Elements(Listed(days, first, lo, o))| + (if w in days then 1 else 0)
  {
    hide WeekdayOffset, Listed;
    var now, before := Elements(Listed(days, first, lo, o + 1)), Elements(Listed(days, first, lo, o));
    forall v: Weekday
      ensures v in now <==> v in before || (v == w && w in days)
    {
      InListed(days, first, lo, o + 1, v);
      InListed(days, first, lo, o, v);
      SameOffset(first, v, w);
    }
    InListed(days, first, lo, o, w);
    assert now == if w in days then before + {w} else before;
  }

  predicate Distinct(days: seq<Weekday>) {
    forall i, j :: 0 <= i < j < |days| ==> days[i] != days[j]
  }

  lemma {:induction false} ElementsOfDistinct(days: seq<Weekday>)
    requires Distinct(days)
    ensures |Elements(days)| == |days|
  {
    if days != [] {
      ElementsOfDistinct(days[..|days| - 1]);
    }
  }

  lemma {:induction false} ListedDistinct(days: seq<Weekday>, first: Weekday, lo: int, hi: int)
    requires Distinct(days)
    ensures Distinct(Listed(days, first, lo, hi))
  {
    hide WeekdayOffset;
    if days != [] {
      var front, last := days[..|days| - 1], days[|days| - 1];
      ListedDistinct(front, first, lo, hi);
      InListed(front, first, lo, hi, last);
    }
  }

  // ----- the days of one week

  lemma OffsetInWeek(s: Series, p: int, n: int)
    requires s.kind.Weekly? && PeriodStart(s.kind, p) <= n < PeriodStart(s.kind, p) + 7
    ensures WeekdayOffset(s.kind.first, WeekdayOf(n)) == n - PeriodStart(s.kind, p)
  {
  }

  lemma OccursInWeek(s: Series, p: int, n: int)
    requires s.Valid() && s.kind.Weekly? && Visited(s, p)
    requires PeriodStart(s.kind, p) <= n < PeriodStart(s.kind, p) + 7
    ensures Occurs(s, n) <==> Admitted(s, n) && WeekdayOf(n) in s.kind.days
  {
    hide PeriodStart, PeriodOf, Visited, Admitted, WeekdayOf;
    WeekSpan(s.kind, p, n);
  }

  /** The tally of a part of a visited week is at most its listings, and all of them where the limits admit it. */
  lemma {:induction false} TallyInWeek(s: Series, p: int, a: int, b: int)
    requires s.Valid() && s.kind.Weekly? && Visited(s, p)
    requires PeriodStart(s.kind, p) <= a <= b <= PeriodStart(s.kind, p) + 7
    ensures
      var w := PeriodStart(s.kind, p);
      var listed := |Listed(s.kind.days, s.kind.first, a - w, b - w)|;
      Tally(s, a, b) <= listed && (s.start <= a && s.limit.None? ==> Tally(s, a, b) == listed)
    decreases b - a
  {
    hide PeriodStart, PeriodOf, Visited, WeekdayOf, Listed, WeekdayOffset, Occurs, Hit;
    var w := PeriodStart(s.kind, p);
    if a == b {
      NothingListed(s.kind.days, s.kind.first, a - w, b - w);
    } else {
      TallyInWeek(s, p, a, b - 1);
      OccursInWeek(s, p, b - 1);
      OffsetInWeek(s, p, b - 1);
      ListedDayByDay(s.kind.days, s.kind.first, a - w, b - 1 - w, WeekdayOf(b - 1));
    }
  }

  /** The members in a part of a visited week, where everything that occurs is one, are its listed weekdays. */
  lemma {:induction false} MembersInWeek(s: Series, p: int, a: int, b: int)
    requires s.Valid() && s.kind.Weekly? && Visited(s, p) && s.start <= a && s.limit.None?
    requires PeriodStart(s.kind, p) <= a <= b <= PeriodStart(s.kind, p) + 7
    requires forall n :: a <= n < b && Occurs(s, n) ==> Member(s, n)
    ensures
      var w := PeriodStart(s.kind, p);
      Members(s, a, b) == |Elements(Listed(s.kind.days, s.kind.first, a - w, b - w))|
    decreases b - a
  {
    hide PeriodStart, PeriodOf, Visited, WeekdayOf, Listed, WeekdayOffset, Elements, Tally, Hit;
    var w := PeriodStart(s.kind, p);
    if a == b {
      NothingListed(s.kind.days, s.kind.first, a - w, b - w);
    } else {
      MembersInWeek(s, p, a, b - 1);
      OccursInWeek(s, p, b - 1);
      OffsetInWeek(s, p, b - 1);
      ElementsDayByDay(s.kind.days, s.kind.first, a - w, b - 1 - w, WeekdayOf(b - 1));
    }
  }

  lemma {:induction false} MembersSplit(s: Series, a: int, b: int, c: int)
    requires s.Valid() && a <= b <= c
    ensures Members(s, a, c) == Members(s, a, b) + Members(s, b, c)
    decreases c - b
  {
    hide Member;
    if b < c {
      MembersSplit(s, a, b, c - 1);
    }
  }

  lemma {:induction false} NoMembers(s: Series, a: int, b: int)
    requires s.Valid() && forall n :: a <= n < b ==> !Member(s, n)
    ensures Members(s, a, b) == 0
    decreases b - a
  {
    hide Member;
    if a < b {
      NoMembers(s, a, b - 1);
    }
  }

  // ----- where the series is cut

  /** A weekly series is cut at a week boundary. When `x` is the day whose listings reach the count, the members are
      exactly the occurrences in weeks up to and including that of `x`. */
  lemma WeeklyCutAtWeek(s: Series, x: int, n: int)
    requires s.Valid() && s.kind.Weekly? && s.count.Some?
    requires Tally(s, s.start, x) < s.count.value <= Tally(s, s.start, x + 1)
    requires n - s.start < 200000
    ensures Member(s, n) <==> Occurs(s, n) && PeriodOf(s.kind, n) <= PeriodOf(s.kind, x)
  {
    hide PeriodOf, PeriodStart, Visited, Hit;
    if Occurs(s, n) {
      StepsAreDays(s, n);
      var p, q := PeriodOf(s.kind, n), PeriodOf(s.kind, x);
      PeriodAtLeast(s.kind, x, p);
      PeriodAtLeast(s.kind, x, q);
      if p <= q {
        TallyMonotone(s, s.start, PeriodStart(s.kind, p), x);
      } else {
        TallyMonotone(s, s.start, x + 1, PeriodStart(s.kind, p));
      }
    }
  }

  lemma {:induction false} WeightInList(days: seq<Weekday>, first: Weekday, o: int, w: Weekday)
    requires WeekdayOffset(first, w) == o && w in days
    ensures |Listed(days, first, 0, o)| < |days|
  {
    ListedDayByDay(days, first, 0, o, w);
    ListedLength(days, first, 0, o + 1);
    assert multiset(days)[w] > 0;
  }

  lemma {:induction false} ListedLength(days: seq<Weekday>, first: Weekday, lo: int, hi: int)
    ensures |Listed(days, first, lo, hi)| <= |days|
  {
    if days != [] {
      ListedLength(days[..|days| - 1], first, lo, hi);
    }
  }

  /** The cut overshoots a count of `n` by fewer listings than the pattern has, those of the last day included; and by
      one fewer before it. */
  lemma WeeklyOvershoot(s: Series, n: int)
    requires s.Valid() && s.kind.Weekly? && s.count.Some? && Member(s, n)
    ensures Tally(s, s.start, n) < s.count.value + |s.kind.days| - 1
    ensures Tally(s, s.start, n + 1) < s.count.value + |s.kind.days|
  {
    hide PeriodOf, PeriodStart, Visited, WeekdayOf, WeekdayOffset, Listed;
    var p := PeriodOf(s.kind, n);
    var w := PeriodStart(s.kind, p);
    WeekSpan(s.kind, p, n);
    OffsetInWeek(s, p, n);
    TallyInWeek(s, p, w, n);
    TallyInWeek(s, p, w, n + 1);
    WeightInList(s.kind.days, s.kind.first, n - w, WeekdayOf(n));
    ListedLength(s.kind.days, s.kind.first, 0, n + 1 - w);
    hide Tally, Member;
    if s.start <= w {
      TallySplit(s, s.start, w, n);
      TallySplit(s, s.start, w, n + 1);
    } else {
      TallyFromStart(s, w, n);
      TallyFromStart(s, w, n + 1);
    }
  }

  // ----- the number of days in all

  /** A weekly series with a count, as the code makes one of a numbered range: at least one weekday is listed. */
  predicate Counted(s: Series) {
    s.Valid() && s.kind.Weekly? && s.kind.days != [] && s.count.Some?
  }

  /** The listings from the start's weekday to the end of its week. */
  function FirstWeek(s: Series): seq<Weekday>
    requires s.kind.Weekly?
  {
    Listed(s.kind.days, s.kind.first, WeekdayOffset(s.kind.first, WeekdayOf(s.start)), 7)
  }

  /** The rounds after the first that it takes to reach the count, or that the step cap leaves. */
  function LaterWeeks(s: Series): nat
    requires Counted(s)
  {
    var left := s.count.value - |FirstWeek(s)|;
    var rounds := if left <= 0 then 0 else (left - 1) / |s.kind.days| + 1;
    if rounds < MAX_STEPS then rounds else MAX_STEPS - 1
  }

  /** The dates of the whole series. */
  function Total(s: Series): nat
    requires Counted(s)
  {
    hide FirstWeek, LaterWeeks, Elements;
    |Elements(FirstWeek(s))| + LaterWeeks(s) * |Elements(s.kind.days)|
  }

  /** The day after the week of round `k`, counting from zero. */
  function EndOfRound(s: Series, k: nat): int
    requires s.Valid() && s.kind.Weekly?
  {
    PeriodStart(s.kind, NthPeriod(s, k)) + 7
  }

  /** The start is as far into its week as its weekday. */
  lemma StartInWeek(s: Series)
    requires s.Valid() && s.kind.Weekly?
    ensures
      var w := PeriodStart(s.kind, NthPeriod(s, 0));
      w <= s.start < w + 7 && FirstWeek(s) == Listed(s.kind.days, s.kind.first, s.start - w, 7)
  {
    hide PeriodStart, WeekdayOf, WeekdayOffset, Listed;
    var p := NthPeriod(s, 0);
    WeekSpan(s.kind, p, s.start);
    OffsetInWeek(s, p, s.start);
  }

  /** Between two rounds nothing occurs. */
  lemma GapAfterRound(s: Series, k: nat, n: int)
    requires s.Valid() && s.kind.Weekly?
    requires EndOfRound(s, k) <= n < PeriodStart(s.kind, NthPeriod(s, k + 1))
    ensures !Occurs(s, n)
  {
    hide PeriodStart, PeriodOf, Hit, Admitted;
    var p, q := NthPeriod(s, k), PeriodOf(s.kind, n);
    WeekSpan(s.kind, p, n);
    PeriodAtLeast(s.kind, n, p + 1);
    PeriodAtLeast(s.kind, n, p + s.interval);
    if Visited(s, q) {
      NextVisited(s, k, q);
    }
  }

  lemma RoundsInOrder(s: Series, k: nat)
    requires s.Valid() && s.kind.Weekly?
    ensures s.start < EndOfRound(s, k) <= PeriodStart(s.kind, NthPeriod(s, k + 1))
  {
    hide PeriodStart, PeriodOf;
    var p := NthPeriod(s, k);
    NthPeriodIs(s, k);
    WeekSpan(s.kind, p, s.start);
    PeriodAtLeast(s.kind, s.start, p + 1);
    if s.interval > 1 {
      PeriodStartIncreases(s.kind, p + 1, p + s.interval);
    }
  }

  /** A round after the first begins with as much counted as the one before it ended with. */
  lemma TallyOverGap(s: Series, k: nat)
    requires s.Valid() && s.kind.Weekly?
    ensures
      Tally(s, s.start, PeriodStart(s.kind, NthPeriod(s, k + 1))) == Tally(s, s.start, EndOfRound(s, k))
  {
    hide PeriodStart, PeriodOf, Hit, Admitted, Occurs, Visited, NthPeriod, Tally;
    var a, b := EndOfRound(s, k), PeriodStart(s.kind, NthPeriod(s, k + 1));
    RoundsInOrder(s, k);
    forall n | a <= n < b
      ensures !Occurs(s, n)
    {
      GapAfterRound(s, k, n);
    }
    TallyNone(s, a, b);
    TallySplit(s, s.start, a, b);
  }

  /** What is counted by the end of a round: the listings of the first week, and all of them for each week after. */
  lemma {:induction false} TallyThrough(s: Series, k: nat)
    requires s.Valid() && s.kind.Weekly? && s.limit.None?
    ensures Tally(s, s.start, EndOfRound(s, k)) == |FirstWeek(s)| + k * |s.kind.days|
  {
    hide PeriodStart, PeriodOf, Hit, Occurs, Visited, NthPeriod, Tally, Listed, FirstWeek;
    var w := PeriodStart(s.kind, NthPeriod(s, k));
    NthPeriodIs(s, k);
    if k == 0 {
      StartInWeek(s);
      TallyInWeek(s, NthPeriod(s, 0), s.start, w + 7);
    } else {
      TallyThrough(s, k - 1);
      TallyOverGap(s, k - 1);
      RoundsInOrder(s, k - 1);
      TallyInWeek(s, NthPeriod(s, k), w, w + 7);
      AllListed(s.kind.days, s.kind.first);
      TallySplit(s, s.start, w, w + 7);
      OneMore(k, |s.kind.days|);
    }
  }

  lemma OneMore(k: nat, n: nat)
    requires k > 0
    ensures k * n == (k - 1) * n + n
  {
  }

  /** Rounds up: the rounds of `n` that reach `left`. */
  lemma RoundsReach(left: int, n: nat, k: nat)
    requires n > 0
    ensures k * n < left <==> k < (if left <= 0 then 0 else (left - 1) / n + 1)
  {
    if left > 0 {
      DivModParts(left - 1, n);
      MultipleOrder(n, k, (left - 1) / n);
      MultipleOrder(n, (left - 1) / n + 1, k);
      MultipleOrder(n, (left - 1) / n, k);
    } else {
      MulMonotone(k, 0, n);
    }
  }

  /** What occurs in round `k` is a member exactly when the series has that many rounds. */
  lemma MemberInRound(s: Series, k: nat, n: int)
    requires Counted(s) && s.limit.None?
    requires Occurs(s, n) && PeriodOf(s.kind, n) == NthPeriod(s, k)
    ensures Member(s, n) <==> k <= LaterWeeks(s)
  {
    hide PeriodStart, PeriodOf, Hit, Occurs, Tally, FirstWeek;
    NthPeriodIs(s, k);
    DivModUnique(s.interval * k, s.interval, k, 0);
    assert StepOf(s, n) == k;
    hide NthPeriod, StepOf;
    if k == 0 {
      StartInWeek(s);
      TallyBeforeStart(s, PeriodStart(s.kind, NthPeriod(s, 0)));
    } else {
      TallyThrough(s, k - 1);
      TallyOverGap(s, k - 1);
      RoundsReach(s.count.value - |FirstWeek(s)|, |s.kind.days|, k - 1);
    }
  }

  lemma TallyBeforeStart(s: Series, b: int)
    requires s.Valid() && b <= s.start
    ensures Tally(s, s.start, b) == 0
  {
  }

  /** The round of an occurrence. */
  lemma RoundOf(s: Series, n: int) returns (k: nat)
    requires s.Valid() && Occurs(s, n)
    ensures PeriodOf(s.kind, n) == NthPeriod(s, k)
  {
    hide PeriodOf, PeriodStart, Hit;
    StepsAreDays(s, n);
    k := StepOf(s, n);
    NthPeriodIs(s, k);
    DivModParts(PeriodOf(s.kind, n) - PeriodOf(s.kind, s.start), s.interval);
  }

  lemma {:induction false} MembersThrough(s: Series, k: nat)
    requires Counted(s) && s.limit.None? && k <= LaterWeeks(s)
    ensures
      Members(s, s.start, EndOfRound(s, k)) == |Elements(FirstWeek(s))| + k * |Elements(s.kind.days)|
  {
    hide PeriodStart, PeriodOf, Hit, Member, Occurs, Visited, NthPeriod, Tally, Listed, FirstWeek, LaterWeeks, Elements;
    var p := NthPeriod(s, k);
    var w := PeriodStart(s.kind, p);
    NthPeriodIs(s, k);
    forall n | w <= n < w + 7 && Occurs(s, n)
      ensures Member(s, n)
    {
      WeekSpan(s.kind, p, n);
      MemberInRound(s, k, n);
    }
    if k == 0 {
      StartInWeek(s);
      MembersInWeek(s, p, s.start, w + 7);
    } else {
      MembersThrough(s, k - 1);
      RoundsInOrder(s, k - 1);
      MembersOverGap(s, k - 1);
      MembersInWeek(s, p, w, w + 7);
      AllListed(s.kind.days, s.kind.first);
      MembersSplit(s, s.start, w, w + 7);
      OneMore(k, |Elements(s.kind.days)|);
    }
  }

  lemma MembersOverGap(s: Series, k: nat)
    requires s.Valid() && s.kind.Weekly?
    ensures
      Members(s, s.start, PeriodStart(s.kind, NthPeriod(s, k + 1))) == Members(s, s.start, EndOfRound(s, k))
  {
    hide PeriodStart, PeriodOf, Hit, Admitted, Occurs, Visited, NthPeriod, Tally, Members;
    var a, b := EndOfRound(s, k), PeriodStart(s.kind, NthPeriod(s, k + 1));
    RoundsInOrder(s, k);
    forall n | a <= n < b
      ensures !Member(s, n)
    {
      GapAfterRound(s, k, n);
    }
    NoMembers(s, a, b);
    MembersSplit(s, s.start, a, b);
  }

  /** A series without a limit has `Total` days, all by the end of its last round. */
  lemma WeeklyTotal(s: Series, b: int)
    requires Counted(s) && s.limit.None? && b >= EndOfRound(s, LaterWeeks(s))
    ensures Members(s, s.start, b) == Total(s)
  {
    hide PeriodStart, PeriodOf, Hit, Member, Occurs, Visited, Tally, Listed, FirstWeek, LaterWeeks, Elements, Members;
    var last := LaterWeeks(s);
    var end := EndOfRound(s, last);
    MembersThrough(s, last);
    RoundsInOrder(s, last);
    forall n | end <= n < b
      ensures !Member(s, n)
    {
      NoneAfterLast(s, n);
    }
    NoMembers(s, end, b);
    MembersSplit(s, s.start, end, b);
  }

  lemma MemberOccurs(s: Series, n: int)
    requires s.Valid() && Member(s, n)
    ensures Occurs(s, n)
  {
  }

  lemma NoneAfterLast(s: Series, n: int)
    requires Counted(s) && s.limit.None? && n >= EndOfRound(s, LaterWeeks(s))
    ensures !Member(s, n)
  {
    hide PeriodStart, PeriodOf, Hit, Member, Occurs, Visited, Tally, FirstWeek, LaterWeeks, NthPeriod;
    if Member(s, n) {
      MemberOccurs(s, n);
      var last := LaterWeeks(s);
      var p := NthPeriod(s, last);
      var k := RoundOf(s, n);
      MemberInRound(s, k, n);
      WeekSpan(s.kind, p, n);
      PeriodAtLeast(s.kind, n, p + 1);
      NthPeriodIs(s, k);
      NthPeriodIs(s, last);
      MulMonotone(s.interval, k, last);
    }
  }

  /** From `b` on the series has had `total` days. */
  ghost predicate SettlesAt(s: Series, b: int, total: nat)
    requires s.Valid()
  {
    forall c :: b <= c ==> Members(s, s.start, c) == total
  }

  /** In the end the series has had exactly as many days as its count says. */
  ghost predicate KeepsCount(s: Series)
    requires s.Valid() && s.count.Some?
  {
    exists b :: SettlesAt(s, b, s.count.value)
  }

  /** Exactly when a weekly series keeps its count, for all lists of weekdays. */
  lemma WeeklyCountExact(s: Series)
    requires Counted(s) && s.limit.None?
    ensures KeepsCount(s) <==> Total(s) == s.count.value
  {
    hide PeriodStart, LaterWeeks, NthPeriod, Members, Total;
    var end := EndOfRound(s, LaterWeeks(s));
    forall c | end <= c
      ensures Members(s, s.start, c) == Total(s)
    {
      WeeklyTotal(s, c);
    }
    assert SettlesAt(s, end, Total(s));
    if KeepsCount(s) {
      var b :| SettlesAt(s, b, s.count.value);
      var c := if b <= end then end else b;
      assert Members(s, s.start, c) == s.count.value;
    }
  }

  /** Where no weekday is listed twice: the count is used up by the end of the first week, or by whole weeks after it,
      fewer than the step cap. */
  lemma WeeklyCountOfDistinct(s: Series)
    requires Counted(s) && s.limit.None? && Distinct(s.kind.days)
    ensures
      var left := s.count.value - |FirstWeek(s)|;
      var n := |s.kind.days|;
      KeepsCount(s) <==> left == 0 || (left > 0 && left % n == 0 && left / n < MAX_STEPS)
  {
    hide FirstWeek, KeepsCount, Elements;
    WeeklyCountExact(s);
    FirstWeekDistinct(s);
    ElementsOfDistinct(s.kind.days);
    WholeWeeks(s.count.value - |FirstWeek(s)|, |s.kind.days|);
  }

  lemma FirstWeekDistinct(s: Series)
    requires s.kind.Weekly? && Distinct(s.kind.days)
    ensures |Elements(FirstWeek(s))| == |FirstWeek(s)|
  {
    hide Listed, WeekdayOffset, Elements;
    ListedDistinct(s.kind.days, s.kind.first, WeekdayOffset(s.kind.first, WeekdayOf(s.start)), 7);
    ElementsOfDistinct(FirstWeek(s));
  }

  /** Rounding up to a multiple, of at most so many, changes nothing exactly for such a multiple. */
  lemma WholeWeeks(left: int, n: nat)
    requires n > 0
    ensures
      left > 0 ==>
        var weeks := (left - 1) / n + 1;
        (if weeks < MAX_STEPS then weeks else MAX_STEPS - 1) * n == left
        <==>
        left % n == 0 && left / n < MAX_STEPS
  {
    if left > 0 {
      var weeks := (left - 1) / n + 1;
      DivModParts(left - 1, n);
      DivModParts(left, n);
      MultipleOrder(n, left / n, weeks - 1);
      MultipleOrder(n, left / n, weeks);
      MultipleOrder(n, left / n, MAX_STEPS - 1);
      MultipleOrder(n, weeks, MAX_STEPS - 1);
    }
  }

  /** A limit cuts off the days after it, and changes nothing before it: so the days of a series with a limit are those
      of the series without one. This is so for all kinds. */
  lemma LimitClips(s: Series, n: int)
    requires s.Valid()
    ensures Member(s, n) <==> Member(s.(limit := None), n) && (s.limit.Some? ==> n <= s.limit.value)
  {
    hide PeriodOf, PeriodStart, Hit;
    if s.limit.Some? ==> n <= s.limit.value {
      var p := PeriodOf(s.kind, n);
      PeriodAtLeast(s.kind, n, p);
      TallyWithoutLimit(s, s.start, PeriodStart(s.kind, p));
    }
  }

  lemma {:induction false} TallyWithoutLimit(s: Series, a: int, b: int)
    requires s.Valid() && (s.limit.Some? ==> b <= s.limit.value + 1)
    ensures Tally(s, a, b) == Tally(s.(limit := None), a, b)
    decreases b - a
  {
    hide PeriodOf, PeriodStart, Hit;
    if a < b {
      TallyWithoutLimit(s, a, b - 1);
    }
  }

  // ----- two series

  /** A series of one occurrence on Mondays, Wednesdays and Fridays has three. */
  lemma WeeklyCountOvershoots(s: Series)
    requires s == Series(Weekly([1, 3, 5], 1), 1, 4, None, Some(1))
    ensures s.Valid() && Expansion(s, 4, 10) == [4, 6, 8]
  {
    forall n | 4 <= n <= 10
      ensures Member(s, n) <==> n in [4, 6, 8]
    {
      assert PeriodOf(s.kind, n) == 1 && PeriodStart(s.kind, 1) == 4;
      assert n in [4, 6, 8] <==> WeekdayOf(n) in [1, 3, 5];
    }
    ExpansionUnique(s, 4, 10, [4, 6, 8]);
  }

  /** A series of two occurrences on Mondays, named twice, has one. */
  lemma RepeatedDayUndershoots(s: Series)
    requires s == Series(Weekly([1, 1], 1), 1, 4, None, Some(2))
    ensures Counted(s) && Total(s) == 1 && !KeepsCount(s)
  {
    AllListed([1, 1], 1);
    assert WeekdayOffset(1, WeekdayOf(4)) == 0;
    assert FirstWeek(s) == [1, 1];
    assert Elements([1, 1]) == {1};
    WeeklyCountExact(s);
  }
}
