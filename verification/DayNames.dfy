/** The English names of days, told from the calendar alone. */
module DayNames {
  import opened Text
  import opened Calendar

  const WEEK: seq<string> := ["monday", "tuesday", "wednesday", "thursday", "friday", "saturday", "sunday"]

  /** Monday the 5th of January 1970 is day 4. */
  function DayName(n: int): string {
    WEEK[(n - 4) % 7]
  }

  /** The name of the day, in letters of any case. */
  predicate IsNamed(name: string, n: int) {
    Lower(name) == DayName(n)
  }

  /** One of the names is that of the day. */
  predicate Lists(names: seq<string>, n: int) {
    exists i :: 0 <= i < |names| && IsNamed(names[i], n)
  }

  lemma MondayInJanuary()
    ensures Number(Date(1970, 1, 5)) == 4 && DayName(4) == "monday"
  {
  }

  lemma NamesDiffer(m: int, n: int)
    ensures DayName(m) == DayName(n) <==> WeekdayOf(m) == WeekdayOf(n)
  {
  }

  lemma PlaceInWeek(n: int)
    ensures WeekdayOf(n) == if (n - 4) % 7 == 6 then 0 else (n - 4) % 7 + 1
  {
  }

  lemma ListsCons(names: seq<string>, n: int)
    requires names != []
    ensures Lists(names, n) <==> IsNamed(names[0], n) || Lists(names[1..], n)
  {
    hide IsNamed;
    if Lists(names[1..], n) {
      var i :| 0 <= i < |names[1..]| && IsNamed(names[1..][i], n);
      assert names[i + 1] == names[1..][i];
    }
    if Lists(names, n) && !IsNamed(names[0], n) {
      var i :| 0 <= i < |names| && IsNamed(names[i], n);
      assert names[1..][i - 1] == names[i];
    }
  }

  /** The days whose names are listed. */
  ghost function Listed(names: seq<string>): iset<int> {
    iset n | Lists(names, n)
  }
}
