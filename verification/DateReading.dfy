/** How chrono reads dates: `NaiveDate::parse_from_str` with "%Y-%m-%d", on which `date_of`
    (src/exchange_graph/expand.rs) relies. It takes blanks before each number, a year with a sign and any number of
    digits or else with one to four, and a month and a day of one or two digits. */
module DateReading {
  import opened Wrappers
  import opened Text
  import opened Calendar
  import opened DateText

  // ----- the reader

  lemma AllDigitsUpTo(t: string, n: nat)
    requires n <= DigitRun(t)
    ensures AllDigits(t[..n])
  {
    assert t[..n] <= t[..DigitRun(t)];
  }

  /** One to `width` digits after blanks, and the rest. */
  function TakeNumber(s: string, width: nat): Option<(nat, string)> {
    var t := TrimStart(s);
    var n := if DigitRun(t) <= width then DigitRun(t) else width;
    AllDigitsUpTo(t, n);
    if n == 0 then None else Some((DecimalValue(t[..n]), t[n..]))
  }

  /** A year after blanks, and the rest. */
  function TakeYear(s: string): Option<(int, string)> {
    var t := TrimStart(s);
    if t != [] && (t[0] == '-' || t[0] == '+') then
      var digits := t[1..];
      var n := DigitRun(digits);
      if n == 0 then None
      else
        var size: int := DecimalValue(digits[..n]);
        Some((if t[0] == '-' then -size else size, digits[n..]))
    else
      match TakeNumber(t, 4)
      case Some((year, rest)) => Some((year, rest))
      case None => None
  }

  /** A hyphen, and the rest. */
  function TakeHyphen(s: string): Option<string> {
    if s != [] && s[0] == '-' then Some(s[1..]) else None
  }

  // The years that chrono's dates have.
  const MIN_YEAR := -262143
  const MAX_YEAR := 262142

  function ParseDate(s: string): Option<int> {
    var (year, afterYear) :- TakeYear(s);
    var rest :- TakeHyphen(afterYear);
    var (month, afterMonth) :- TakeNumber(rest, 2);
    var last :- TakeHyphen(afterMonth);
    var (day, end) :- TakeNumber(last, 2);
    if end != [] || !(MIN_YEAR <= year <= MAX_YEAR) then None else FromYmd(year, month, day)
  }

  // ----- numbers

  predicate AreBlanks(s: string) {
    forall c :: c in s ==> IsSpace(c)
  }

  lemma {:induction false} TrimStartOf(blanks: string, t: string)
    requires AreBlanks(blanks) && t != [] && !IsSpace(t[0])
    ensures TrimStart(blanks + t) == t
  {
    if blanks == [] {
      assert blanks + t == t;
    } else {
      assert blanks[0] in blanks;
      assert (blanks + t)[1..] == blanks[1..] + t;
      TrimStartOf(blanks[1..], t);
    }
  }

  lemma {:induction false} DigitRunGrows(d: string, rest: string)
    requires AllDigits(d)
    ensures DigitRun(d + rest) == |d| + DigitRun(rest)
  {
    if d == [] {
      assert d + rest == rest;
    } else {
      assert d[0] in d;
      assert (d + rest)[1..] == d[1..] + rest;
      DigitRunGrows(d[1..], rest);
    }
  }

  /** Digits end where they cannot go on: at another character, or at their greatest number. */
  lemma NumberTaken(blanks: string, d: string, rest: string, width: nat)
    requires AreBlanks(blanks) && AllDigits(d) && 1 <= |d| <= width
    requires |d| == width || rest == [] || !IsDigit(rest[0])
    ensures TakeNumber(blanks + (d + rest), width) == Some((DecimalValue(d), rest))
  {
    var t := d + rest;
    assert t[0] == d[0] && d[0] in d;
    TrimStartOf(blanks, t);
    DigitRunGrows(d, rest);
    assert t[..|d|] == d && t[|d|..] == rest;
    hide DecimalValue, TrimStart, DigitRun;
  }

  lemma YearWithoutSign(s: string, year: nat, rest: string)
    requires var t := TrimStart(s); t != [] && IsDigit(t[0]) && TakeNumber(t, 4) == Some((year, rest))
    ensures TakeYear(s) == Some((year, rest))
  {
    hide TakeNumber, TrimStart;
  }

  lemma PlainYearTaken(blanks: string, y: string, rest: string)
    requires AreBlanks(blanks) && AllDigits(y) && 1 <= |y| <= 4
    requires |y| == 4 || rest == [] || !IsDigit(rest[0])
    ensures TakeYear(blanks + (y + rest)) == Some((DecimalValue(y), rest))
  {
    hide DecimalValue, TakeNumber, TrimStart;
    var t := y + rest;
    assert t[0] == y[0] && y[0] in y;
    TrimStartOf(blanks, t);
    assert [] + t == t;
    NumberTaken([], y, rest, 4);
    YearWithoutSign(blanks + t, DecimalValue(y), rest);
  }

  lemma SignedYearTaken(blanks: string, sign: char, y: string, rest: string)
    requires AreBlanks(blanks) && sign in {'-', '+'} && AllDigits(y) && y != []
    requires rest == [] || !IsDigit(rest[0])
    ensures
      TakeYear(blanks + ([sign] + (y + rest)))
      == (var size: int := DecimalValue(y); Some((if sign == '-' then -size else size, rest)))
  {
    hide DecimalValue, TakeNumber, TrimStart, DigitRun;
    var t := [sign] + (y + rest);
    assert t[0] == sign && t[1..] == y + rest;
    TrimStartOf(blanks, t);
    DigitRunOf(y, rest);
    assert t[1..][..|y|] == y && t[1..][|y|..] == rest;
  }

  // ----- what is read

  /** The part after the year. */
  lemma MonthAndDay(b: string, m: string, c: string, d: string, more: string)
    requires AreBlanks(b) && AllDigits(m) && 1 <= |m| <= 2 && AreBlanks(c) && AllDigits(d) && 1 <= |d| <= 2
    requires |d| == 2 || more == [] || !IsDigit(more[0])
    ensures
      var s := b + (m + (['-'] + (c + (d + more))));
      && TakeNumber(s, 2) == Some((DecimalValue(m), ['-'] + (c + (d + more))))
      && TakeHyphen(['-'] + (c + (d + more))) == Some(c + (d + more))
      && TakeNumber(c + (d + more), 2) == Some((DecimalValue(d), more))
  {
    hide TakeNumber, DecimalValue;
    var tail := c + (d + more);
    NumberTaken(b, m, ['-'] + tail, 2);
    HyphenTaken(tail);
    NumberTaken(c, d, more, 2);
  }

  lemma HyphenTaken(rest: string)
    ensures TakeHyphen(['-'] + rest) == Some(rest)
  {
    assert (['-'] + rest)[1..] == rest;
  }

  /** Numbers of one to four digits and of one or two, with blanks in front of them, are read; anything after them is
      too much. */
  lemma PlainDateReads(a: string, y: string, b: string, m: string, c: string, d: string, more: string)
    requires AreBlanks(a) && AllDigits(y) && 1 <= |y| <= 4
    requires AreBlanks(b) && AllDigits(m) && 1 <= |m| <= 2 && AreBlanks(c) && AllDigits(d) && 1 <= |d| <= 2
    requires |d| == 2 || more == [] || !IsDigit(more[0])
    requires DecimalValue(y) <= 9999
    ensures
      ParseDate(a + (y + (['-'] + (b + (m + (['-'] + (c + (d + more))))))))
      == if more == [] then FromYmd(DecimalValue(y), DecimalValue(m), DecimalValue(d)) else None
  {
    hide TakeNumber, TakeYear, TakeHyphen, DecimalValue, FromYmd, AreBlanks;
    var rest := b + (m + (['-'] + (c + (d + more))));
    PlainYearTaken(a, y, ['-'] + rest);
    HyphenTaken(rest);
    MonthAndDay(b, m, c, d, more);
  }

  /** With a sign the year has any number of digits, and has to be one of those that dates have. */
  lemma SignedDateReads(sign: char, y: string, m: string, d: string)
    requires sign in {'-', '+'} && AllDigits(y) && y != []
    requires AllDigits(m) && 1 <= |m| <= 2 && AllDigits(d) && 1 <= |d| <= 2
    ensures
      ParseDate([sign] + (y + (['-'] + (m + (['-'] + d)))))
      == (var size: int := DecimalValue(y);
          if size > (if sign == '-' then 262143 else 262142) then None
          else FromYmd(if sign == '-' then -size else size, DecimalValue(m), DecimalValue(d)))
  {
    hide TakeNumber, TakeYear, TakeHyphen, DecimalValue, FromYmd;
    var rest := m + (['-'] + d);
    SignedYearTaken([], sign, y, ['-'] + rest);
    HyphenTaken(rest);
    MonthAndDay([], m, [], d, []);
    assert d + [] == d && [] + (d + []) == d;
    assert [] + rest == rest;
    assert [] + ([sign] + (y + (['-'] + rest))) == [sign] + (y + (['-'] + rest));
  }

  // ----- nothing else is read

  lemma NumberForm(s: string, width: nat) returns (blanks: string, digits: string)
    requires TakeNumber(s, width).Some?
    ensures AreBlanks(blanks) && AllDigits(digits) && 1 <= |digits| <= width
    ensures s == blanks + (digits + TakeNumber(s, width).value.1)
  {
    blanks := BlanksBefore(s);
    var t := TrimStart(s);
    var n := if DigitRun(t) <= width then DigitRun(t) else width;
    AllDigitsUpTo(t, n);
    digits := t[..n];
    assert t == t[..n] + t[n..];
  }

  /** A year with or without a sign. */
  predicate IsYearText(y: string) {
    || (AllDigits(y) && 1 <= |y| <= 4)
    || (|y| >= 2 && (y[0] == '+' || y[0] == '-') && AllDigits(y[1..]))
  }

  lemma YearForm(s: string) returns (blanks: string, y: string)
    requires TakeYear(s).Some?
    ensures AreBlanks(blanks) && IsYearText(y) && s == blanks + (y + TakeYear(s).value.1)
  {
    blanks := BlanksBefore(s);
    var t := TrimStart(s);
    if t != [] && (t[0] == '-' || t[0] == '+') {
      var n := DigitRun(t[1..]);
      y := [t[0]] + t[1..][..n];
      assert y[1..] == t[1..][..n] && t == y + t[1..][n..];
    } else {
      TrimmedAlready(s);
      var more;
      more, y := NumberForm(t, 4);
      assert more == [] by { NoBlanksMore(t, more, y + TakeNumber(t, 4).value.1); }
      assert t == y + TakeNumber(t, 4).value.1;
    }
  }

  lemma TrimmedAlready(s: string)
    ensures TrimStart(s) != [] ==> !IsSpace(TrimStart(s)[0])
  {
  }

  lemma NoBlanksMore(t: string, blanks: string, rest: string)
    requires t == blanks + rest && AreBlanks(blanks) && (t != [] ==> !IsSpace(t[0]))
    ensures blanks == []
  {
    FirstOfBlanks(blanks);
  }

  lemma FirstOfBlanks(blanks: string)
    requires AreBlanks(blanks)
    ensures blanks != [] ==> IsSpace(blanks[0])
  {
    assert blanks != [] ==> blanks[0] in blanks;
  }

  /** Only text of this form is read as a date. */
  lemma ReadDateHasForm(s: string) returns (a: string, y: string, b: string, m: string, c: string, d: string)
    requires ParseDate(s).Some?
    ensures AreBlanks(a) && IsYearText(y) && AreBlanks(b) && AreBlanks(c)
    ensures AllDigits(m) && 1 <= |m| <= 2 && AllDigits(d) && 1 <= |d| <= 2
    ensures s == a + (y + (['-'] + (b + (m + (['-'] + (c + d))))))
  {
    hide TakeNumber, TakeYear, AreBlanks, AllDigits, IsYearText, FromYmd;
    a, y := YearForm(s);
    var afterYear := TakeYear(s).value.1;
    assert afterYear == ['-'] + afterYear[1..];
    b, m := NumberForm(afterYear[1..], 2);
    var afterMonth := TakeNumber(afterYear[1..], 2).value.1;
    assert afterMonth == ['-'] + afterMonth[1..];
    c, d := NumberForm(afterMonth[1..], 2);
    assert TakeNumber(afterMonth[1..], 2).value.1 == [] && d + [] == d;
  }

  // ----- printed dates

  lemma ValueOfTwo(s: string)
    requires |s| == 2 && AllDigits(s)
    ensures DecimalValue(s) == Read2(s)
  {
    assert s[..1][..0] == [] && s[..1][0] == s[0];
    assert DecimalValue(s[..1]) == DigitValue(s[0]);
  }

  lemma ValueOfFour(s: string)
    requires |s| == 4 && AllDigits(s)
    ensures DecimalValue(s) == Read4(s)
  {
    ValueOfTwo(s[..2]);
    assert s[..3][..2] == s[..2] && s[..3][2] == s[2];
    assert DecimalValue(s[..3]) == 10 * DecimalValue(s[..2]) + DigitValue(s[2]);
  }

  /** A date in ten characters is read as what it names, after blanks, and when nothing follows. */
  lemma CalendarDateReads(a: string, date: string, more: string)
    requires AreBlanks(a) && IsCalendarDate(date)
    ensures ParseDate(a + (date + more)) == if more == [] then CalendarDate(date) else None
  {
    hide ParseDate, DecimalValue, AreBlanks, FromYmd, Read2, Read4;
    var y, m, d := date[..4], date[5..7], date[8..10];
    NoBlanks();
    ValueOfFour(y);
    ValueOfTwo(m);
    ValueOfTwo(d);
    PlainDateReads(a, y, [], m, [], d, more);
    DateParts(date, more);
  }

  lemma DateParts(date: string, more: string)
    requires IsCalendarDate(date)
    ensures
      date + more
      == date[..4] + (['-'] + ([] + (date[5..7] + (['-'] + ([] + (date[8..10] + more))))))
  {
    hide AllDigits;
    assert date == date[..4] + (['-'] + (date[5..7] + (['-'] + date[8..10])));
  }

  lemma NoBlanks()
    ensures AreBlanks([])
  {
  }

  /** What is printed is read back, in all the years that dates have. */
  lemma ParseFormat(n: int)
    requires -262143 <= YearOf(n) <= 262142
    ensures ParseDate(FormatDate(n)) == Some(n)
  {
    if 0 <= YearOf(n) <= 9999 {
      FormatNames(n);
      hide *;
      NoBlanks();
      CalendarDateReads([], FormatDate(n), []);
      assert [] + (FormatDate(n) + []) == FormatDate(n);
    } else {
      ParseSigned(n);
    }
  }

  lemma SignedText(n: int)
    requires !(0 <= YearOf(n) <= 9999)
    ensures
      var sign := if YearOf(n) < 0 then '-' else '+';
      var abs := if YearOf(n) < 0 then -YearOf(n) else YearOf(n);
      FormatDate(n)
      == [sign] + ((if abs <= 9999 then Pad4(abs) else Decimal(abs))
                   + (['-'] + (Pad2(MonthOfYear(n)) + (['-'] + Pad2(DayOf(n))))))
  {
    hide Pad4, Pad2, Decimal, YearOf, MonthOfYear, DayOf;
  }

  lemma ParseSigned(n: int)
    requires MIN_YEAR <= YearOf(n) <= MAX_YEAR && !(0 <= YearOf(n) <= 9999)
    ensures ParseDate(FormatDate(n)) == Some(n)
  {
    hide YearOf, MonthOfYear, DayOf, ParseDate, FormatDate, DecimalValue, FromYmd;
    var year, m, d := YearOf(n), MonthOfYear(n), DayOf(n);
    var sign := if year < 0 then '-' else '+';
    var abs := if year < 0 then -year else year;
    var y := if abs <= 9999 then Pad4(abs) else Decimal(abs);
    if abs <= 9999 {
      ValueOfFour(y);
      ReadPad4(abs);
    }
    ValueOfTwo(Pad2(m));
    ValueOfTwo(Pad2(d));
    ReadPad2(m);
    ReadPad2(d);
    SignedText(n);
    OwnDate(n);
    hide *;
    SignedDateReads(sign, y, Pad2(m), Pad2(d));
  }

  lemma OwnDate(n: int)
    ensures FromYmd(YearOf(n), MonthOfYear(n), DayOf(n)) == Some(n)
  {
    hide MonthOf, FirstOfMonth;
    assert DateOf(n) == Date(YearOf(n), MonthOfYear(n), DayOf(n));
  }

  lemma ParsedYear(s: string)
    requires ParseDate(s).Some?
    ensures MIN_YEAR <= YearOf(ParseDate(s).value) <= MAX_YEAR
  {
    var year := TakeYear(s).value.0;
    var rest := TakeHyphen(TakeYear(s).value.1).value;
    var month := TakeNumber(rest, 2).value;
    var day := TakeNumber(TakeHyphen(month.1).value, 2).value;
    assert ParseDate(s) == FromYmd(year, month.0, day.0);
    hide ParseDate, TakeYear, TakeHyphen, TakeNumber;
    NumberInverse(Date(year, month.0, day.0));
    assert DateOf(ParseDate(s).value) == Date(year, month.0, day.0);
  }

  // ----- dates at the front of a text

  lemma {:induction false} BlanksBefore(s: string) returns (blanks: string)
    ensures AreBlanks(blanks) && s == blanks + TrimStart(s)
  {
    if s != [] && IsSpace(s[0]) {
      var more := BlanksBefore(s[1..]);
      blanks := [s[0]] + more;
      assert s == [s[0]] + s[1..];
      assert blanks + TrimStart(s) == [s[0]] + (more + TrimStart(s));
    } else {
      blanks := [];
      assert [] + s == s;
    }
  }

  lemma {:induction false} TrimEndIsPrefix(s: string)
    ensures TrimEnd(s) <= s
  {
    if s != [] && IsSpace(s[|s| - 1]) {
      TrimEndIsPrefix(s[..|s| - 1]);
    }
  }

  lemma {:induction false} CutAfter(prefix: string, rest: string, c: char)
    requires c !in prefix
    ensures BeforeFirst(prefix + rest, c) == prefix + BeforeFirst(rest, c)
  {
    if prefix == [] {
      assert prefix + rest == rest;
    } else {
      assert (prefix + rest)[1..] == prefix[1..] + rest;
      CutAfter(prefix[1..], rest, c);
    }
  }

  lemma DateHasNoT(date: string)
    requires IsCalendarDate(date)
    ensures 'T' !in date
  {
    assert date == date[..4] + ['-'] + date[5..7] + ['-'] + date[8..10];
  }

  lemma BlanksHaveNoT(s: string)
    requires AreBlanks(s)
    ensures 'T' !in s
  {
  }

  /** Where trimmed text begins with a date in ten characters, that is what is read of it, or nothing. */
  lemma LeadingDateReads(raw: string)
    requires |Trim(raw)| >= 10 && IsCalendarDate(Trim(raw)[..10])
    ensures
      var read := ParseDate(BeforeFirst(raw, 'T'));
      read.Some? ==> read == CalendarDate(Trim(raw)[..10])
  {
    var blanks := BlanksBefore(raw);
    var text := TrimStart(raw);
    TrimEndIsPrefix(text);
    var date := Trim(raw)[..10];
    var tail := text[10..];
    assert text == date + tail;
    DateHasNoT(date);
    BlanksHaveNoT(blanks);
    hide *;
    CutAfter(date, tail, 'T');
    CutAfter(blanks, date + tail, 'T');
    CalendarDateReads(blanks, date, BeforeFirst(tail, 'T'));
  }
}
