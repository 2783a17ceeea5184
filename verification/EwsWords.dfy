/** What the names in an Exchange recurrence (src/exchange_ews/recurrence.rs:110-193) mean, and that the rules made from
    it select the days they mean. */
module EwsWords {
  import opened Wrappers
  import opened Text
  import opened Calendar
  import opened DayNames
  import opened RankWords
  import opened WrittenPatterns
  import opened Series
  import opened Recurrence
  import opened Translate
  import opened EwsRecurrence

  // ----- meanings

  /** A name of a day, whole or its first two letters, or of a set of days. */
  predicate NamesDay(name: string, n: int) {
    || Lower(name) == DayName(n) || Lower(name) == DayName(n)[..2]
    || Lower(name) == "day"
    || (Lower(name) == "weekday" && DayName(n) != "saturday" && DayName(n) != "sunday")
    || (Lower(name) == "weekendday" && (DayName(n) == "saturday" || DayName(n) == "sunday"))
  }

  predicate NamedBy(names: seq<string>, n: int) {
    exists i :: 0 <= i < |names| && NamesDay(names[i], n)
  }

  /** The days that the names mean. */
  ghost function Named(names: seq<string>): iset<int> {
    iset n | NamedBy(names, n)
  }

  predicate IsSetName(name: string) {
    Lower(name) == "day" || Lower(name) == "weekday" || Lower(name) == "weekendday"
  }

  predicate HasSetName(names: seq<string>) {
    exists i :: 0 <= i < |names| && IsSetName(names[i])
  }

  /** All the days have one name. */
  ghost predicate AreAlike(days: iset<int>) {
    forall m, n :: m in days && n in days ==> DayName(m) == DayName(n)
  }

  /** The days of the same name. */
  ghost function Like(n: int): iset<int> {
    iset m | DayName(m) == DayName(n)
  }

  predicate IsRankWord(word: string) {
    word == "First" || word == "Second" || word == "Third" || word == "Fourth" || word == "Last"
  }

  const MONTHS: seq<string> := ["January", "February", "March", "April", "May", "June", "July", "August", "September",
    "October", "November", "December"]

  /** The month that has the name. */
  ghost function MonthCalled(name: string): (m: Option<int>)
    ensures m.Some? ==> 1 <= m.value <= 12 && MONTHS[m.value - 1] == name
    ensures m.None? ==> name !in MONTHS
  {
    if name in MONTHS then
      var k :| 0 <= k < |MONTHS| && MONTHS[k] == name;
      Some(k + 1)
    else None
  }

  // ----- the days of weekly patterns

  lemma {:induction false} AddNewMembers(days: seq<string>, slice: seq<string>, d: string)
    ensures d in AddNew(days, slice) <==> d in days || d in slice
    decreases slice
  {
    if slice != [] {
      AddNewMembers(if slice[0] in days then days else days + [slice[0]], slice[1..], d);
      assert slice == [slice[0]] + slice[1..];
    }
  }

  /** One of the names stands for the weekday, among others perhaps. */
  predicate Names(names: seq<string>, d: string) {
    exists i :: 0 <= i < |names| && d in ExpandDay(names[i]).GetOr([])
  }

  lemma NamesEnd(front: seq<string>, last: string, d: string)
    ensures Names(front + [last], d) <==> Names(front, d) || d in ExpandDay(last).GetOr([])
  {
    hide ExpandDay;
    var all := front + [last];
    if Names(front, d) {
      var i :| 0 <= i < |front| && d in ExpandDay(front[i]).GetOr([]);
      assert all[i] == front[i];
    }
    assert all[|front|] == last;
  }

  lemma NamesBegin(first: string, rest: seq<string>, d: string)
    ensures Names([first] + rest, d) <==> d in ExpandDay(first).GetOr([]) || Names(rest, d)
  {
    hide ExpandDay;
    var all := [first] + rest;
    if Names(rest, d) {
      var i :| 0 <= i < |rest| && d in ExpandDay(rest[i]).GetOr([]);
      assert all[i + 1] == rest[i];
    }
    assert all[0] == first;
  }

  lemma {:induction false} ExpandedMembers(names: seq<string>, d: string)
    ensures d in ExpandedDays(names) <==> Names(names, d)
  {
    hide ExpandDay, Names;
    if names == [] {
      NamesNothing(d);
    } else {
      var front, last := names[..|names| - 1], names[|names| - 1];
      ExpandedMembers(front, d);
      AddNewMembers(ExpandedDays(front), ExpandDay(last).GetOr([]), d);
      NamesEnd(front, last, d);
      assert names == front + [last];
    }
  }

  lemma NamesNothing(d: string)
    ensures !Names([], d)
  {
  }

  lemma {:induction false} WeeklyMembers(names: seq<string>, d: string)
    ensures d in WeeklyDays(names) <==> Names(names, d)
  {
    hide ExpandDay, Names;
    if names == [] {
      NamesNothing(d);
    } else {
      WeeklyMembers(names[1..], d);
      NamesBegin(names[0], names[1..], d);
      assert names == [names[0]] + names[1..];
    }
  }

  lemma {:induction false} EntriesPlain(days: seq<string>)
    ensures Plain(Entries(days, None))
  {
  }

  lemma EntriesDays(days: seq<string>, w: Weekday)
    ensures w in DaysOf(Entries(days, None)) <==> exists d :: d in days && ShortWeekday(d) == Some(w)
  {
    hide ShortWeekday, DaysOf;
    var byDay := Entries(days, None);
    DaysOfContains(byDay, w);
    if i :| 0 <= i < |byDay| && ShortWeekday(byDay[i].day) == Some(w) {
      assert days[i] in days;
    }
    if d :| d in days && ShortWeekday(d) == Some(w) {
      var i :| 0 <= i < |days| && days[i] == d;
      assert byDay[i].day == d;
    }
  }

  /** A weekly pattern's rule lists the weekdays that its names stand for. */
  lemma WeeklyDaysAreNamed(names: seq<string>, w: Weekday)
    ensures w in DaysOf(Entries(WeeklyDays(names), None)) <==> w in NamedDays(names)
  {
    hide ShortWeekday, DaysOf, WeeklyDays, ExpandedDays, Names;
    EntriesDays(WeeklyDays(names), w);
    EntriesDays(ExpandedDays(names), w);
    forall d: string
      ensures d in WeeklyDays(names) <==> d in ExpandedDays(names)
    {
      WeeklyMembers(names, d);
      ExpandedMembers(names, d);
    }
  }

  // ----- the tables agree with the meanings

  lemma MonthNamedIs(name: string)
    ensures MonthNamed(name) == MonthCalled(name)
  {
  }

  lemma RankWordIs(word: string)
    ensures NthOfPeriod(word).Some? <==> IsRankWord(word)
    ensures IsRankWord(word) ==> RankAt(NthOfPeriod(word).value) == RankNamed(word)
  {
    RankWordsAreWords();
  }

  lemma RankWordsAreWords()
    ensures Lower("First") == "first" && Lower("Second") == "second" && Lower("Third") == "third"
    ensures Lower("Fourth") == "fourth" && Lower("Last") == "last"
  {
  }

  lemma SetNames(name: string)
    ensures |ExpandDay(name).GetOr([])| > 1 <==> IsSetName(name)
  {
    hide Lower;
  }

  lemma HasSetIs(names: seq<string>)
    ensures HasSet(names) <==> HasSetName(names)
  {
    hide ExpandDay, IsSetName;
    forall i | 0 <= i < |names|
      ensures |ExpandDay(names[i]).GetOr([])| > 1 <==> IsSetName(names[i])
    {
      SetNames(names[i]);
    }
  }

  /** The entry has the first two letters of the day's name. */
  predicate HasShort(days: seq<string>, n: int) {
    exists d :: d in days && ShortWeekday(d) == Some(WeekdayOf(n))
  }

  lemma ShortValues()
    ensures ShortWeekday("mo") == Some(1) && ShortWeekday("tu") == Some(2) && ShortWeekday("we") == Some(3)
    ensures ShortWeekday("th") == Some(4) && ShortWeekday("fr") == Some(5) && ShortWeekday("sa") == Some(6)
    ensures ShortWeekday("su") == Some(0)
  {
    NamesAreLower();
  }

  lemma OneShort(d: string, n: int)
    ensures HasShort([d], n) <==> ShortWeekday(d) == Some(WeekdayOf(n))
  {
    assert [d][0] in [d];
  }

  lemma MoreShorts(d: string, days: seq<string>, n: int)
    ensures HasShort([d] + days, n) <==> ShortWeekday(d) == Some(WeekdayOf(n)) || HasShort(days, n)
  {
    hide ShortWeekday, WeekdayOf;
    assert ([d] + days)[0] in [d] + days;
    if HasShort(days, n) {
      var e :| e in days && ShortWeekday(e) == Some(WeekdayOf(n));
      assert e in [d] + days;
    }
  }

  lemma SliceMeans(n: int)
    ensures HasShort(["sa", "su"], n) <==> WeekdayOf(n) in {0, 6}
    ensures HasShort(["mo", "tu", "we", "th", "fr"], n) <==> WeekdayOf(n) in {1, 2, 3, 4, 5}
    ensures HasShort(["mo", "tu", "we", "th", "fr", "sa", "su"], n)
  {
    hide HasShort, ShortWeekday, WeekdayOf;
    ShortValues();
    var week := ["mo", "tu", "we", "th", "fr", "sa", "su"];
    OneShort("su", n);
    MoreShorts("sa", ["su"], n);
    assert week[5..] == ["sa"] + ["su"];
    MoreShorts("fr", week[5..], n);
    MoreShorts("th", week[4..], n);
    MoreShorts("we", week[3..], n);
    MoreShorts("tu", week[2..], n);
    MoreShorts("mo", week[1..], n);
    assert week[4..] == ["fr"] + week[5..] && week[3..] == ["th"] + week[4..] && week[2..] == ["we"] + week[3..];
    assert week[1..] == ["tu"] + week[2..] && week == ["mo"] + week[1..];
    OneShort("fr", n);
    MoreShorts("th", ["fr"], n);
    MoreShorts("we", ["th", "fr"], n);
    MoreShorts("tu", ["we", "th", "fr"], n);
    MoreShorts("mo", ["tu", "we", "th", "fr"], n);
    assert ["mo", "tu", "we", "th", "fr"] == ["mo"] + ["tu", "we", "th", "fr"];
    assert ["tu", "we", "th", "fr"] == ["tu"] + ["we", "th", "fr"] && ["we", "th", "fr"] == ["we"] + ["th", "fr"];
    assert ["th", "fr"] == ["th"] + ["fr"] && week[5..] == ["sa", "su"];
  }

  lemma ExpandDayMeans(name: string, n: int)
    ensures HasShort(ExpandDay(name).GetOr([]), n) <==> NamesDay(name, n)
  {
    PlaceInWeek(n);
    ShortNames();
    ShortValues();
    SliceMeans(n);
    hide WeekdayOf, Lower, HasShort, ShortWeekday;
    var d := ExpandDay(name).GetOr([]);
    NoShort(n);
    if |d| == 1 {
      OneShort(d[0], n);
    }
  }

  lemma NoShort(n: int)
    ensures !HasShort([], n)
  {
  }

  lemma NamesMean(names: seq<string>, n: int)
    ensures (exists d :: Names(names, d) && ShortWeekday(d) == Some(WeekdayOf(n))) <==> NamedBy(names, n)
  {
    hide ExpandDay, ShortWeekday, WeekdayOf, NamesDay;
    forall i | 0 <= i < |names|
      ensures HasShort(ExpandDay(names[i]).GetOr([]), n) <==> NamesDay(names[i], n)
    {
      ExpandDayMeans(names[i], n);
    }
    if d :| Names(names, d) && ShortWeekday(d) == Some(WeekdayOf(n)) {
      var i :| 0 <= i < |names| && d in ExpandDay(names[i]).GetOr([]);
      assert HasShort(ExpandDay(names[i]).GetOr([]), n);
    }
    if NamedBy(names, n) {
      var i :| 0 <= i < |names| && NamesDay(names[i], n);
      var d :| d in ExpandDay(names[i]).GetOr([]) && ShortWeekday(d) == Some(WeekdayOf(n));
      assert Names(names, d);
    }
  }

  lemma NamedAreOn(names: seq<string>)
    ensures AreDaysOn(Named(names), NamedDays(names))
  {
    hide ExpandedDays, DaysOf, Names, ShortWeekday, WeekdayOf, NamedBy;
    forall n
      ensures NamedBy(names, n) <==> WeekdayOf(n) in NamedDays(names)
    {
      NamesMean(names, n);
      EntriesDays(ExpandedDays(names), WeekdayOf(n));
      forall d: string
        ensures d in ExpandedDays(names) <==> Names(names, d)
      {
        ExpandedMembers(names, d);
      }
    }
  }

  lemma LikeIsOn(n: int)
    ensures AreDaysOn(Like(n), [WeekdayOf(n)])
  {
    forall m
      ensures DayName(m) == DayName(n) <==> WeekdayOf(m) == WeekdayOf(n)
    {
      NamesDiffer(m, n);
    }
    hide WeekdayOf, DayName;
  }

  lemma NothingNamed(names: seq<string>)
    ensures ExpandedDays(names) == [] <==> Named(names) == iset{}
    ensures WeeklyDays(names) == [] <==> Named(names) == iset{}
  {
    hide ExpandedDays, WeeklyDays, Names, NamedBy, ShortWeekday, WeekdayOf;
    forall d: string
      ensures d in ExpandedDays(names) <==> Names(names, d)
      ensures d in WeeklyDays(names) <==> Names(names, d)
    {
      ExpandedMembers(names, d);
      WeeklyMembers(names, d);
    }
    if ExpandedDays(names) != [] || WeeklyDays(names) != [] {
      var d := if ExpandedDays(names) != [] then ExpandedDays(names)[0] else WeeklyDays(names)[0];
      assert Names(names, d);
      NamesAreShort(names, d);
      var w: int := ShortWeekday(d).value;
      SomeDay(w);
      NamesMean(names, w - 4);
      assert w - 4 in Named(names);
    }
    if Named(names) != iset{} {
      var n :| n in Named(names);
      NamesMean(names, n);
      var d :| Names(names, d) && ShortWeekday(d) == Some(WeekdayOf(n));
    }
  }

  lemma NamesAreShort(names: seq<string>, d: string)
    requires Names(names, d)
    ensures ShortWeekday(d).Some?
  {
    ExpandedMembers(names, d);
    ExpandedDaysOnce(names);
    ShortsDiffer(d, d);
    hide ShortWeekday, IsShort, ExpandedDays, Names;
  }

  /** One weekday is left of the names exactly when all the days they mean have one name. */
  lemma OneIsNamed(names: seq<string>)
    requires Named(names) != iset{}
    ensures |ExpandedDays(names)| == 1 <==> AreAlike(Named(names))
  {
    hide ExpandedDays, NamedDays, Named, WeekdayOf, DayName;
    NothingNamed(names);
    NamedAreOn(names);
    if |ExpandedDays(names)| == 1 {
      NamedOnce(names);
      forall m, n | m in Named(names) && n in Named(names)
        ensures DayName(m) == DayName(n)
      {
        NamesDiffer(m, n);
      }
    } else {
      var v, w := NamedTwice(names);
      var a: int, b: int := v, w;
      SomeDay(v);
      SomeDay(w);
      NamesDiffer(a - 4, b - 4);
      assert a - 4 in Named(names) && b - 4 in Named(names);
    }
  }

  // ----- the days that a rule made of an Exchange pattern selects

  /** The days that a relative pattern means are those that its rule selects: the ranked one of a set of days, or the
      ranked one of each weekday that is named. A word that is no rank leaves them all, and no known name all days. */
  lemma RelativeSelects(rule: Rule, names: seq<string>, word: string, n: int)
    requires rule.byDay == None && rule.bySetPosition == None
    ensures
      var inYear := CountsInYear(rule);
      Selects(RelativeByDay(rule, names, word), n)
      <==>
      if Named(names) == iset{} then true
      else if !IsRankWord(word) then n in Named(names)
      else if HasSetName(names) then IsWordth(Named(names), inYear, n, word)
      else n in Named(names) && IsWordth(Like(n), inYear, n, word)
  {
    NothingNamed(names);
    RankWordIs(word);
    HasSetIs(names);
    NamedAreOn(names);
    assert n in Named(names) <==> WeekdayOf(n) in NamedDays(names);
    hide Named, NamedDays, IsWordth, IsRanked, HasSet, HasSetName, NthOfPeriod, RankNamed, RankAt, IsRankWord,
      WeekdayOf;
    if ExpandedDays(names) != [] {
      if IsRankWord(word) {
        EwsRuleSelects(rule, names, word, n);
        RankedIsWordth(Named(names), NamedDays(names), CountsInYear(rule), n, word);
        LikeIsOn(n);
        RankedIsWordth(Like(n), [WeekdayOf(n)], CountsInYear(rule), n, word);
      } else {
        UnrankedSelects(rule, names, word, n);
      }
    }
  }

  lemma UnrankedSelects(rule: Rule, names: seq<string>, word: string, n: int)
    requires rule.bySetPosition == None && NthOfPeriod(word) == None && ExpandedDays(names) != []
    ensures Selects(RelativeByDay(rule, names, word), n) <==> WeekdayOf(n) in NamedDays(names)
  {
    var days := ExpandedDays(names);
    PlainCandidate(Entries(days, None), CountsInYear(rule), n);
    hide ExpandedDays, DaysOf, Candidate, WeekdayOf, HasSet, CountsInYear;
  }
}
