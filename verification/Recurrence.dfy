/** The Graph `recurrence` object and how the expander reads it (src/exchange_graph/expand.rs). */
module Recurrence {
  import opened Wrappers
  import opened Text
  import opened Calendar
  import opened DateReading
  import opened Series

  // A JSON object is a record of optional fields. A field of the wrong JSON type reads as absent.

  datatype Pattern = Pattern(
    kind: Option<string>,
    interval: Option<int>,
    daysOfWeek: Option<seq<string>>,
    firstDayOfWeek: Option<string>,
    dayOfMonth: Option<int>,
    month: Option<int>,
    index: Option<string>)

  datatype Range = Range(
    kind: Option<string>,
    startDate: Option<string>,
    endDate: Option<string>,
    numberOfOccurrences: Option<int>)

  datatype Recurrence = Recurrence(pattern: Option<Pattern>, range: Option<Range>)

  const EMPTY_PATTERN := Pattern(None, None, None, None, None, None, None)

  /** `Value::as_u64`. */
  function AsU64(v: Option<int>): (r: Option<nat>)
    ensures r.Some? ==> v == Some(r.value) && r.value < 0x1_0000_0000_0000_0000
  {
    if v.Some? && 0 <= v.value < 0x1_0000_0000_0000_0000 then Some(v.value) else None
  }

  /** `Value::as_i64`. */
  function AsI64(v: Option<int>): (r: Option<int>)
    ensures r.Some? ==> v == r
  {
    if v.Some? && -0x8000_0000_0000_0000 <= v.value < 0x8000_0000_0000_0000 then v else None
  }

  /** The `as u32` cast, which keeps the low 32 bits. */
  function AsU32(n: nat): nat {
    n % 0x1_0000_0000
  }

  /** `date_of`. */
  function DateIn(value: Option<string>): Option<int> {
    var raw :- value;
    ParseDate(BeforeFirst(raw, 'T'))
  }

  /** `parse_weekday`. */
  function ParseWeekday(name: string): Option<Weekday> {
    var n := Lower(name);
    if n == "monday" then Some(1)
    else if n == "tuesday" then Some(2)
    else if n == "wednesday" then Some(3)
    else if n == "thursday" then Some(4)
    else if n == "friday" then Some(5)
    else if n == "saturday" then Some(6)
    else if n == "sunday" then Some(0)
    else None
  }

  function ParseWeekdays(names: seq<string>): seq<Weekday> {
    if names == [] then []
    else
      var rest := ParseWeekdays(names[1..]);
      match ParseWeekday(names[0])
      case Some(w) => [w] + rest
      case None => rest
  }

  /** `weekdays`. */
  function Weekdays(p: Pattern): seq<Weekday> {
    ParseWeekdays(p.daysOfWeek.GetOr([]))
  }

  /** `first_day_of_week`: Sunday unless a known day is named. */
  function FirstDayOfWeek(p: Pattern): Weekday {
    match p.firstDayOfWeek
    case Some(name) => ParseWeekday(name).GetOr(0)
    case None => 0
  }

  /** The rank a pattern's index names; anything unknown means the first. */
  function RankOf(index: string): Rank {
    var i := Lower(index);
    if i == "first" then Nth(1)
    else if i == "second" then Nth(2)
    else if i == "third" then Nth(3)
    else if i == "fourth" then Nth(4)
    else if i == "last" then Last
    else Nth(1)
  }

  function Index(p: Pattern): string {
    p.index.GetOr("first")
  }

  /** What a pattern means, or `None` where the expander gives up on it. */
  function ReadKind(p: Pattern): Option<Kind> {
    var kind :- p.kind;
    if kind == "daily" then Some(Daily)
    else if kind == "weekly" then
      if Weekdays(p) == [] then None else Some(Weekly(Weekdays(p), FirstDayOfWeek(p)))
    else if kind == "absoluteMonthly" then
      var dom :- AsU64(p.dayOfMonth);
      Some(AbsoluteMonthly(AsU32(dom)))
    else if kind == "relativeMonthly" then
      Some(RelativeMonthly(Weekdays(p), RankOf(Index(p))))
    else if kind == "absoluteYearly" then
      var month :- AsU64(p.month);
      var dom :- AsU64(p.dayOfMonth);
      Some(AbsoluteYearly(AsU32(month), AsU32(dom)))
    else if kind == "relativeYearly" then
      var month :- AsU64(p.month);
      Some(RelativeYearly(AsU32(month), Weekdays(p), RankOf(Index(p))))
    else None
  }

  function Positive(v: Option<int>): (r: Option<nat>)
    ensures r.Some? ==> r.value > 0
  {
    var n :- AsU64(v);
    if n > 0 then Some(n) else None
  }

  function Interval(p: Pattern): (i: int)
    ensures i > 0
  {
    Positive(p.interval).GetOr(1)
  }

  /** What a whole recurrence means, or `None` where the expander returns nothing. */
  function Read(rec: Recurrence): (r: Option<Series>)
    ensures r.Some? ==> r.value.Valid()
  {
    var pattern :- rec.pattern;
    var range :- rec.range;
    var start :- DateIn(range.startDate);
    var kind :- ReadKind(pattern);
    Some(Series(kind, Interval(pattern), start, DateIn(range.endDate), Positive(range.numberOfOccurrences)))
  }
}
