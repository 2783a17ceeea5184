/** The few string operations of Rust's standard library that the components share. */
module Text {
  import opened Wrappers

  function LowerChar(c: char): char {
    if 'A' <= c <= 'Z' then (c as int + 32) as char else c
  }

  /** `to_ascii_lowercase`. */
  function Lower(s: string): (r: string)
    ensures |r| == |s|
    ensures forall i :: 0 <= i < |s| ==> r[i] == LowerChar(s[i])
  {
    seq(|s|, i requires 0 <= i < |s| => LowerChar(s[i]))
  }

  lemma LowerFixed(s: string)
    requires forall c :: c in s ==> !('A' <= c <= 'Z')
    ensures Lower(s) == s
  {
    forall i | 0 <= i < |s|
      ensures Lower(s)[i] == s[i]
    {
      assert s[i] in s;
    }
  }

  /** The capital letters become small, and nothing else changes. */
  lemma CapitalsBecomeSmall(s: string)
    ensures Lower("ABCDEFGHIJKLMNOPQRSTUVWXYZ") == "abcdefghijklmnopqrstuvwxyz"
    ensures forall i :: 0 <= i < |s| && s[i] !in "ABCDEFGHIJKLMNOPQRSTUVWXYZ" ==> Lower(s)[i] == s[i]
  {
    forall i | 0 <= i < |s| && s[i] !in "ABCDEFGHIJKLMNOPQRSTUVWXYZ"
      ensures Lower(s)[i] == s[i]
    {
    }
  }

  /** `s.split(c).next()`: the text before the first `c`, or all of it. */
  function BeforeFirst(s: string, c: char): (r: string)
    ensures c !in r
    ensures r <= s
    ensures c !in s ==> r == s
    ensures c in s ==> r + [c] <= s
  {
    if s == [] then []
    else if s[0] == c then []
    else
      assert s == [s[0]] + s[1..];
      [s[0]] + BeforeFirst(s[1..], c)
  }

  lemma {:induction false} BeforeFirstAt(prefix: string, c: char, rest: string)
    requires c !in prefix
    ensures BeforeFirst(prefix + [c] + rest, c) == prefix
  {
    var s := prefix + [c] + rest;
    if prefix != [] {
      assert s[1..] == prefix[1..] + [c] + rest;
      BeforeFirstAt(prefix[1..], c, rest);
    }
  }

  predicate IsDigit(c: char) {
    '0' <= c <= '9'
  }

  function DigitValue(c: char): (d: int)
    requires IsDigit(c)
    ensures 0 <= d <= 9
  {
    c as int - '0' as int
  }

  function DigitChar(d: int): (c: char)
    requires 0 <= d <= 9
    ensures IsDigit(c) && DigitValue(c) == d
  {
    ('0' as int + d) as char
  }

  predicate AllDigits(s: string) {
    forall c :: c in s ==> IsDigit(c)
  }

  /** The value of a hexadecimal digit. */
  function HexDigit(c: char): (d: Option<int>)
    ensures d.Some? ==> 0 <= d.value < 16
  {
    if '0' <= c <= '9' then Some(c as int - '0' as int)
    else if 'A' <= c <= 'F' then Some(c as int - 'A' as int + 10)
    else if 'a' <= c <= 'f' then Some(c as int - 'a' as int + 10)
    else None
  }

  /** Small letters are digits as the capital ones are. */
  lemma HexDigitOfSmall(c: char)
    ensures HexDigit(LowerChar(c)) == HexDigit(c)
  {
  }

  lemma Associative<T>(a: seq<T>, b: seq<T>, c: seq<T>)
    ensures a + b + c == a + (b + c)
  {
  }

  /** The shortest decimal form of a number. */
  function Decimal(n: nat): (s: string)
    ensures AllDigits(s) && |s| >= 1
    ensures DecimalValue(s) == n
  {
    if n < 10 then [DigitChar(n)]
    else
      var s := Decimal(n / 10) + [DigitChar(n % 10)];
      assert s[..|s| - 1] == Decimal(n / 10);
      s
  }

  /** The number a string of digits stands for. */
  function DecimalValue(s: string): nat
    requires AllDigits(s)
  {
    if s == [] then 0 else 10 * DecimalValue(s[..|s| - 1]) + DigitValue(s[|s| - 1])
  }

  /** `char::is_whitespace`. */
  predicate IsSpace(c: char) {
    || c == ' ' || '\t' <= c <= '\r'
    || c as int in {0x85, 0xA0, 0x1680, 0x2028, 0x2029, 0x202F, 0x205F, 0x3000}
    || 0x2000 <= c as int <= 0x200A
  }

  /** White space is what the Unicode standard lists as such. */
  lemma SpacesAre(c: char)
    ensures IsSpace(c) <==>
      c as int in {0x09, 0x0A, 0x0B, 0x0C, 0x0D, 0x20, 0x85, 0xA0, 0x1680, 0x2000, 0x2001, 0x2002, 0x2003, 0x2004,
        0x2005, 0x2006, 0x2007, 0x2008, 0x2009, 0x200A, 0x2028, 0x2029, 0x202F, 0x205F, 0x3000}
  {
  }

  function TrimStart(s: string): string {
    if s != [] && IsSpace(s[0]) then TrimStart(s[1..]) else s
  }

  function TrimEnd(s: string): string {
    if s != [] && IsSpace(s[|s| - 1]) then TrimEnd(s[..|s| - 1]) else s
  }

  /** `trim`. */
  function Trim(s: string): string {
    TrimEnd(TrimStart(s))
  }

  /** The number of digits at the front. */
  function DigitRun(s: string): (n: nat)
    ensures n <= |s| && AllDigits(s[..n])
    ensures n < |s| ==> !IsDigit(s[n])
  {
    if s != [] && IsDigit(s[0]) then
      var n := DigitRun(s[1..]);
      assert s[..1 + n] == [s[0]] + s[1..][..n];
      1 + n
    else 0
  }

  lemma {:induction false} DigitRunOf(d: string, rest: string)
    requires AllDigits(d) && (rest == [] || !IsDigit(rest[0]))
    ensures DigitRun(d + rest) == |d|
  {
    if d == [] {
      assert d + rest == rest;
    } else {
      assert d[0] in d;
      DigitRunOf(d[1..], rest);
      assert (d + rest)[1..] == d[1..] + rest;
    }
  }

  // ----- signed 64-bit integers as text

  predicate IsI64(n: int) {
    -0x8000_0000_0000_0000 <= n < 0x8000_0000_0000_0000
  }

  /** `i64::to_string`. */
  function IntText(n: int): string {
    if n < 0 then "-" + Decimal(-n) else Decimal(n)
  }

  /** `str::parse::<i64>`. */
  function ParseInt(s: string): Option<int> {
    var signed := s != [] && (s[0] == '-' || s[0] == '+');
    var digits := if signed then s[1..] else s;
    if digits == [] || !AllDigits(digits) then None
    else
      var size: int := DecimalValue(digits);
      var n := if signed && s[0] == '-' then -size else size;
      if IsI64(n) then Some(n) else None
  }

  /** A number may have a sign, and has to fit in 64 bits. */
  lemma ParseSigned(digits: string)
    requires digits != "" && AllDigits(digits)
    ensures var n := DecimalValue(digits);
      && ParseInt(digits) == (if n < 0x8000_0000_0000_0000 then Some(n) else None)
      && ParseInt(['+'] + digits) == ParseInt(digits)
      && ParseInt(['-'] + digits) == (if n <= 0x8000_0000_0000_0000 then Some(-(n as int)) else None)
  {
    assert digits[0] in digits;
    assert (['+'] + digits)[1..] == digits && (['-'] + digits)[1..] == digits;
    hide DecimalValue, AllDigits;
  }

  lemma ParseIntText(n: int)
    requires IsI64(n)
    ensures ParseInt(IntText(n)) == Some(n)
  {
    if n < 0 {
      assert IntText(n)[1..] == Decimal(-n);
    } else {
      assert Decimal(n)[0] in Decimal(n);
    }
  }
}
